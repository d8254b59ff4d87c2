/** An abstract file system: a finite map from paths (sequences of path
    segments below one data root) to nodes. A directory is an entry of its
    own, so an empty directory exists. The operations are the standard-library
    calls the application makes (`os.makedirs`, `shutil.rmtree`,
    `shutil.copytree`, `shutil.copy2`, `shutil.move`, `os.walk`), each returning
    either the new state or the exception it raises. */
module FileSystem {
  import opened Wrappers

  type Path = seq<string>

  datatype Node = Dir | File(content: seq<int>)

  type FS = map<Path, Node>

  datatype FsError =
    | FileNotFound(path: Path)
    | FileExists(path: Path)
    | NotADirectory(path: Path)
    | IsADirectory(path: Path)
    | MoveIntoItself(path: Path)

  /** The state a sequence of file operations reached and the exception that
      stopped it, if any. Nothing is rolled back when an exception is raised. */
  datatype Effect = Effect(fs: FS, raised: Option<FsError>)

  predicate IsDir(fs: FS, p: Path)
  {
    p in fs && fs[p].Dir?
  }

  predicate IsFile(fs: FS, p: Path)
  {
    p in fs && fs[p].File?
  }

  /** A real directory tree: every proper ancestor of an entry exists and is a
      directory (the data root itself, the empty path, is implicit). */
  ghost predicate WellFormed(fs: FS)
  {
    forall q, k {:trigger q[..k], q in fs} :: q in fs && 0 < k < |q| ==> IsDir(fs, q[..k])
  }

  /** Nothing exists at or below `p`. */
  ghost predicate NothingUnder(fs: FS, p: Path)
  {
    forall q :: q in fs ==> !(p <= q)
  }

  lemma AbsentMeansNothingUnder(fs: FS, p: Path)
    requires WellFormed(fs)
    requires p != [] && p !in fs
    ensures NothingUnder(fs, p)
  {
    forall q | q in fs
      ensures !(p <= q)
    {
      if |p| < |q| {
        assert IsDir(fs, q[..|p|]);
        assert q[..|p|] != p;
      } else {
        assert q != p;
      }
    }
  }

  /** The entries at or below `root`, keyed by their path relative to `root`
      (the empty relative path is `root` itself). */
  function Subtree(fs: FS, root: Path): (sub: map<Path, Node>)
    ensures forall rel {:trigger rel in sub} :: rel in sub <==> root + rel in fs
    ensures forall rel {:trigger sub[rel]} :: rel in sub ==> sub[rel] == fs[root + rel]
  {
    var keys := set q | q in fs && root <= q :: q[|root|..];
    assert forall rel :: root + rel in fs ==> (root + rel)[|root|..] == rel && root <= root + rel;
    assert forall q :: q in fs && root <= q ==> q == root + q[|root|..];
    map rel | rel in keys :: fs[root + rel]
  }

  /** A relative tree placed below `dst`. */
  function Placed(dst: Path, sub: map<Path, Node>): (r: FS)
    ensures forall q {:trigger q in r} :: q in r <==> dst <= q && q[|dst|..] in sub
    ensures forall q {:trigger r[q]} :: q in r ==> r[q] == sub[q[|dst|..]]
  {
    var keys := set rel | rel in sub :: dst + rel;
    assert forall rel :: (dst + rel)[|dst|..] == rel;
    assert forall q :: dst <= q ==> q == dst + q[|dst|..];
    map q | q in keys :: sub[q[|dst|..]]
  }

  /** Everything except the entries at or below `p`. */
  function RemoveUnder(fs: FS, p: Path): (r: FS)
    ensures forall q {:trigger q in r} :: q in r <==> q in fs && !(p <= q)
    ensures forall q {:trigger r[q]} :: q in r ==> r[q] == fs[q]
  {
    map q | q in fs && !(p <= q) :: fs[q]
  }

  /** `p` and each of its ancestors below the data root. */
  function Lineage(p: Path): (r: set<Path>)
    ensures forall q {:trigger q in r} :: q in r <==> q <= p && q != []
  {
    var r := set k | 1 <= k <= |p| :: p[..k];
    assert forall q :: q <= p && q != [] ==> q == p[..|q|];
    r
  }

  /** `os.makedirs(p, exist_ok)`: creates `p` and every missing ancestor.
      Raises when an ancestor (or `p` itself) is a file, or when `p` already
      exists and `exist_ok` is false. */
  function MakeDirs(fs: FS, p: Path, existOk: bool): (r: Result<FS, FsError>)
    ensures r.Ok? <==>
      p != [] && (forall q :: q in Lineage(p) ==> !IsFile(fs, q)) && (existOk || p !in fs)
    ensures r.Ok? ==> forall q {:trigger q in r.value} ::
      q in r.value <==> q in fs || q in Lineage(p)
    ensures r.Ok? ==> forall q {:trigger r.value[q]} ::
      q in r.value ==> r.value[q] == if q in fs then fs[q] else Dir
    ensures r.Ok? ==> IsDir(r.value, p)
  {
    if p == [] then Err(FileNotFound(p))
    else if exists q | q in Lineage(p) :: IsFile(fs, q) then Err(NotADirectory(p))
    else if p in fs && !existOk then Err(FileExists(p))
    else
      assert p in Lineage(p);
      Ok(fs + map q | q in Lineage(p) && q !in fs :: Dir)
  }

  /** `shutil.rmtree(p)`. */
  function RmTree(fs: FS, p: Path): (r: Result<FS, FsError>)
    ensures r.Ok? <==> IsDir(fs, p)
    ensures r.Ok? ==> r.value == RemoveUnder(fs, p)
  {
    if p !in fs then Err(FileNotFound(p))
    else if fs[p].File? then Err(NotADirectory(p))
    else Ok(RemoveUnder(fs, p))
  }

  /** `shutil.copytree(src, dst)`: reads `src` (which must be a directory),
      creates `dst` (which must not exist) with its missing ancestors, and
      copies every entry of the source tree below it. */
  function CopyTree(fs: FS, src: Path, dst: Path): (r: Result<FS, FsError>)
    ensures r.Ok? <==> IsDir(fs, src) && MakeDirs(fs, dst, false).Ok?
    ensures r.Ok? ==> r.value == MakeDirs(fs, dst, false).value + Placed(dst, Subtree(fs, src))
  {
    if src !in fs then Err(FileNotFound(src))
    else if fs[src].File? then Err(NotADirectory(src))
    else
      var made :- MakeDirs(fs, dst, false);
      Ok(made + Placed(dst, Subtree(fs, src)))
  }

  /** Where `shutil.copy2(src, dst)` writes: into an existing directory `dst`
      under the source's own name, otherwise at `dst`. */
  function CopyTarget(fs: FS, src: Path, dst: Path): Path
    requires src != []
  {
    if IsDir(fs, dst) then dst + [src[|src| - 1]] else dst
  }

  /** The directory containing `p` exists (the data root always does). */
  predicate ParentExists(fs: FS, p: Path)
  {
    |p| <= 1 || IsDir(fs, p[..|p| - 1])
  }

  /** `shutil.copy2(src, dst)`: copies one file, overwriting an existing file. */
  function CopyFile(fs: FS, src: Path, dst: Path): (r: Result<FS, FsError>)
    ensures r.Ok? <==>
      (src != [] && IsFile(fs, src)
       && !IsDir(fs, CopyTarget(fs, src, dst)) && ParentExists(fs, CopyTarget(fs, src, dst)))
    ensures r.Ok? ==> r.value == fs[CopyTarget(fs, src, dst) := fs[src]]
  {
    if src == [] || src !in fs then Err(FileNotFound(src))
    else if fs[src].Dir? then Err(IsADirectory(src))
    else
      var target := CopyTarget(fs, src, dst);
      if IsDir(fs, target) then Err(IsADirectory(target))
      else if !ParentExists(fs, target) then Err(FileNotFound(target))
      else Ok(fs[target := fs[src]])
  }

  /** `shutil.move(src, dst)`: a rename. When `dst` is an existing directory
      the source is moved inside it, under its own name. */
  function Move(fs: FS, src: Path, dst: Path): (r: Result<FS, FsError>)
    ensures r.Ok? ==> src != [] && src in fs
    ensures r.Ok? <==>
      && src != [] && src in fs
      && !(src <= CopyTarget(fs, src, dst))
      && (CopyTarget(fs, src, dst) in fs ==> !IsDir(fs, dst) && fs[src].File?)
      && ParentExists(fs, CopyTarget(fs, src, dst))
    ensures r.Ok? && !IsDir(fs, dst) && IsDir(fs, src) ==> dst !in fs
    ensures r.Ok? && !IsDir(fs, dst) ==>
      r.value == RemoveUnder(RemoveUnder(fs, src), dst) + Placed(dst, Subtree(fs, src))
    ensures r.Ok? && IsDir(fs, dst) ==>
      && dst + [src[|src| - 1]] !in fs
      && r.value == RemoveUnder(RemoveUnder(fs, src), dst + [src[|src| - 1]]) + Placed(dst + [src[|src| - 1]], Subtree(fs, src))
  {
    if src == [] || src !in fs then Err(FileNotFound(src))
    else
      var target := CopyTarget(fs, src, dst);
      if IsDir(fs, dst) && target in fs then Err(FileExists(target))
      else if src <= target then Err(MoveIntoItself(target))
      else if fs[src].Dir? && target in fs then Err(FileExists(target))
      else if !ParentExists(fs, target) then Err(FileNotFound(target))
      else Ok(RemoveUnder(RemoveUnder(fs, src), target) + Placed(target, Subtree(fs, src)))
  }


  /** The files `os.walk(root)` reports, as paths relative to `root`: none
      when `root` is not a directory. */
  function WalkFiles(fs: FS, root: Path): (files: set<Path>)
    ensures forall rel {:trigger rel in files} :: rel in files <==> IsDir(fs, root) && IsFile(fs, root + rel)
  {
    if IsDir(fs, root) then
      var files := set q | q in fs && root <= q && fs[q].File? :: q[|root|..];
      assert forall rel :: IsFile(fs, root + rel) ==> (root + rel)[|root|..] == rel;
      assert forall q :: root <= q ==> q == root + q[|root|..];
      files
    else {}
  }

  /** Copying a tree into a place where nothing exists yet leaves exactly the
      copied tree there. */
  lemma SubtreeOfPlaced(fs: FS, dst: Path, sub: map<Path, Node>)
    requires NothingUnder(fs, dst)
    ensures Subtree(fs + Placed(dst, sub), dst) == sub
  {
    var placed := Placed(dst, sub);
    var m := fs + placed;
    var r := Subtree(m, dst);
    forall rel
      ensures rel in r <==> rel in sub
      ensures rel in r ==> r[rel] == sub[rel]
    {
      var q := dst + rel;
      assert dst <= q && q[|dst|..] == rel;
      assert q !in fs;
      assert q in placed <==> rel in sub;
    }
  }

  /** The subtree at a path is unaffected by changes at paths unrelated to it. */
  lemma SubtreeFrame(fs: FS, fs': FS, root: Path)
    requires forall q :: root <= q ==> (q in fs <==> q in fs')
    requires forall q :: root <= q && q in fs ==> fs[q] == fs'[q]
    ensures Subtree(fs, root) == Subtree(fs', root)
  {
    var a, b := Subtree(fs, root), Subtree(fs', root);
    forall rel
      ensures rel in a <==> rel in b
    {
      assert root <= root + rel;
    }
    forall rel | rel in a
      ensures a[rel] == b[rel]
    {
      assert root <= root + rel;
    }
  }

  /** Two paths neither of which lies inside the other. */
  predicate Apart(a: Path, b: Path)
  {
    !(a <= b) && !(b <= a)
  }

  /** Two prefixes of one path are comparable. */
  lemma PrefixesComparable(a: Path, b: Path, q: Path)
    requires a <= q && b <= q
    ensures a <= b || b <= a
  {
    if |a| <= |b| {
      assert a == q[..|a|] == b[..|a|];
    } else {
      assert b == q[..|b|] == a[..|b|];
    }
  }

  /** Nothing lies inside both of two apart paths. */
  lemma ApartDisjoint(a: Path, b: Path, q: Path)
    requires Apart(a, b)
    ensures !(a <= q && b <= q)
  {
    if a <= q && b <= q {
      PrefixesComparable(a, b, q);
    }
  }

  /** The tree at `dst` replaced by `sub`, everything else kept: what deleting
      a directory and copying or moving another one to its place achieves. */
  function Replace(fs: FS, dst: Path, sub: map<Path, Node>): (r: FS)
    ensures forall q :: !(dst <= q) ==> (q in r <==> q in fs)
    ensures forall q :: !(dst <= q) && q in r ==> r[q] == fs[q]
  {
    RemoveUnder(fs, dst) + Placed(dst, sub)
  }

  /** After the replacement, the tree at `dst` is exactly `sub`. */
  lemma SubtreeOfReplace(fs: FS, dst: Path, sub: map<Path, Node>)
    ensures Subtree(Replace(fs, dst, sub), dst) == sub
  {
    SubtreeOfPlaced(RemoveUnder(fs, dst), dst, sub);
  }

  /** A tree apart from `dst` is not affected by replacing `dst`. */
  lemma SubtreeApartFromReplace(fs: FS, dst: Path, sub: map<Path, Node>, root: Path)
    requires Apart(root, dst)
    ensures Subtree(Replace(fs, dst, sub), root) == Subtree(fs, root)
  {
    var r := Replace(fs, dst, sub);
    forall q | root <= q
      ensures (q in fs <==> q in r) && (q in fs ==> fs[q] == r[q])
    {
      ApartDisjoint(root, dst, q);
    }
    SubtreeFrame(fs, r, root);
  }

  /** Replacing twice at the same place keeps only the second tree. */
  lemma ReplaceReplace(fs: FS, dst: Path, a: map<Path, Node>, b: map<Path, Node>)
    ensures Replace(Replace(fs, dst, a), dst, b) == Replace(fs, dst, b)
  {
    var mid := Replace(fs, dst, a);
    var l, r := Replace(mid, dst, b), Replace(fs, dst, b);
    var pb := Placed(dst, b);
    assert l == RemoveUnder(mid, dst) + pb;
    assert r == RemoveUnder(fs, dst) + pb;
    assert RemoveUnder(mid, dst) == RemoveUnder(fs, dst);
  }

  /** Replacing a directory by its own contents changes nothing. */
  lemma ReplaceBySelf(fs: FS, dst: Path)
    ensures Replace(fs, dst, Subtree(fs, dst)) == fs
  {
    var sub := Subtree(fs, dst);
    var kept := RemoveUnder(fs, dst);
    var placed := Placed(dst, sub);
    var r := kept + placed;
    forall q
      ensures q in r <==> q in fs
      ensures q in r ==> r[q] == fs[q]
    {
      if dst <= q {
        var rel := q[|dst|..];
        assert q == dst + rel;
        assert q !in kept;
        assert q in placed <==> rel in sub;
        assert rel in sub <==> q in fs;
        if q in fs {
          assert placed[q] == sub[rel] == fs[q];
        }
      } else {
        assert q !in placed;
        assert q in kept <==> q in fs;
      }
    }
    assert r == fs;
  }

  /** When nothing lies below `p`, removing below `p` is the identity. */
  lemma RemoveNothing(fs: FS, p: Path)
    requires NothingUnder(fs, p)
    ensures RemoveUnder(fs, p) == fs
  {
  }

  /** `makedirs` with `exist_ok` is a no-op when the directory and its
      ancestors already exist. */
  lemma MakeDirsNoop(fs: FS, p: Path)
    requires p != [] && forall q :: q in Lineage(p) ==> IsDir(fs, q)
    ensures MakeDirs(fs, p, true) == Ok(fs)
  {
    var r := MakeDirs(fs, p, true);
    assert r.Ok?;
    assert r.value == fs;
  }

  /** `makedirs` keeps a file system well formed. */
  lemma MakeDirsWellFormed(fs: FS, p: Path, existOk: bool)
    requires WellFormed(fs) && MakeDirs(fs, p, existOk).Ok?
    ensures WellFormed(MakeDirs(fs, p, existOk).value)
  {
    var r := MakeDirs(fs, p, existOk).value;
    forall q, k | q in r && 0 < k < |q|
      ensures IsDir(r, q[..k])
    {
      if q !in fs {
        assert q in Lineage(p);
        assert q[..k] <= p;
        assert q[..k] in Lineage(p);
      }
    }
  }

  /** `makedirs` of a missing directory whose ancestors exist creates just it. */
  lemma MakeDirsLeaf(fs: FS, dst: Path)
    requires dst != [] && dst !in fs
    requires forall q :: q in Lineage(dst) && q != dst ==> IsDir(fs, q)
    ensures MakeDirs(fs, dst, false) == Ok(fs[dst := Dir])
  {
    var made := MakeDirs(fs, dst, false);
    assert made.Ok?;
    assert made.value == fs[dst := Dir];
  }

  /** `copytree` into a place where nothing exists and whose ancestors are
      directories adds the source tree there and nothing else. */
  lemma CopyTreeIntoEmpty(fs: FS, src: Path, dst: Path)
    requires IsDir(fs, src) && dst != [] && NothingUnder(fs, dst)
    requires forall q :: q in Lineage(dst) && q != dst ==> IsDir(fs, q)
    ensures CopyTree(fs, src, dst) == Ok(fs + Placed(dst, Subtree(fs, src)))
  {
    assert dst !in fs;
    MakeDirsLeaf(fs, dst);
    var sub := Subtree(fs, src);
    assert src + [] == src;
    assert [] in sub;
    var placed := Placed(dst, sub);
    assert dst in placed by {
      assert dst[|dst|..] == [];
    }
    assert fs[dst := Dir] + placed == fs + placed;
    assert CopyTree(fs, src, dst).Ok?;
    assert CopyTree(fs, src, dst).value == fs[dst := Dir] + placed;
  }

  /** Copying `src` onto `dst` after deleting whatever was there, as both
      exercise copy helpers do: the result is the replacement of `dst` by the
      source tree. */
  lemma DeleteThenCopy(fs: FS, src: Path, dst: Path)
    requires IsDir(fs, src) && Apart(src, dst) && dst != []
    requires forall q :: q in Lineage(dst) && q != dst ==> IsDir(fs, q)
    requires !IsFile(fs, dst) && (dst in fs || NothingUnder(fs, dst))
    ensures var cleared := if dst in fs then RmTree(fs, dst) else Ok(fs);
      cleared.Ok? && CopyTree(cleared.value, src, dst) == Ok(Replace(fs, dst, Subtree(fs, src)))
  {
    var cleared := if dst in fs then RmTree(fs, dst) else Ok(fs);
    var fs2 := RemoveUnder(fs, dst);
    if dst !in fs {
      RemoveNothing(fs, dst);
    }
    assert cleared == Ok(fs2);
    forall q | src <= q
      ensures (q in fs <==> q in fs2) && (q in fs ==> fs[q] == fs2[q])
    {
      ApartDisjoint(src, dst, q);
    }
    SubtreeFrame(fs, fs2, src);
    assert !(dst <= src);
    forall q | q in Lineage(dst) && q != dst
      ensures IsDir(fs2, q)
    {
      assert !(dst <= q);
    }
    CopyTreeIntoEmpty(fs2, src, dst);
  }
}
