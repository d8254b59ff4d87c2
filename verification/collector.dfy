/** Submission collection: a group's workspace copy of an exercise is copied
    file by file into the submissions area, and one submission-file record is
    created per copied file. The destination is the same for every submission
    of a group and lesson. */
module Collector {
  import opened Wrappers
  import opened Text
  import opened FileSystem
  import opened Provisioning

  const SubmissionsRoot: Path := ["exercise_submissions"]

  /** `exercise_submissions/group_<id>/<title>`. */
  function SubmissionDir(groupId: nat, title: string): (p: Path)
    ensures |p| == 3 && SubmissionsRoot <= p
  {
    SubmissionsRoot + ["group_" + NatToString(groupId), title]
  }

  /** A path as the text Python's `os.path.join` produces. */
  function PathText(p: Path): string
  {
    if p == [] then "" else Join(p, '/')
  }

  /** A `SubmissionFile` record: the stored file, relative to the media root,
      and its description. */
  datatype SubmissionFileRow = SubmissionFileRow(file: Path, description: string)

  function RowFor(dest: Path, rel: Path): SubmissionFileRow
  {
    SubmissionFileRow(dest + rel, "Submitted file: " + PathText(rel))
  }

  /** The JSON answer of the view. */
  datatype SubmitResponse =
    | Rejected(message: string)
    | ServerError(error: FsError)
    | Accepted(fileCount: nat)

  /** The file system afterwards, whether a `Submission` row was created,
      the `SubmissionFile` rows created, and the response. */
  datatype SubmitResult = SubmitResult(fs: FS, submissionCreated: bool, files: seq<SubmissionFileRow>, response: SubmitResponse)

  /** The state reached by the copy loop, the rows it created and the
      exception that stopped it, if any. */
  datatype Collected = Collected(fs: FS, rows: seq<SubmissionFileRow>, raised: Option<FsError>)

  /** The directory `os.path.dirname` gives for a non-empty path. */
  function Parent(p: Path): Path
    requires p != []
  {
    p[..|p| - 1]
  }

  /** The copy loop: for each walked file (relative to `src`), in walk order,
      create its directory below `dest`, copy it there and record it. */
  function CollectFiles(fs: FS, src: Path, dest: Path, order: seq<Path>): (r: Collected)
    requires dest != []
    ensures |r.rows| <= |order|
    ensures r.raised.None? ==> |r.rows| == |order|
    ensures forall i :: 0 <= i < |r.rows| ==> r.rows[i] == RowFor(dest, order[i])
    ensures forall q :: q in fs ==> q in r.fs
    decreases |order|
  {
    if order == [] then Collected(fs, [], None)
    else
      var rel := order[0];
      var destFile := dest + rel;
      match MakeDirs(fs, Parent(destFile), true)
      case Err(e) => Collected(fs, [], Some(e))
      case Ok(fs1) =>
        match CopyFile(fs1, src + rel, destFile)
        case Err(e) => Collected(fs1, [], Some(e))
        case Ok(fs2) =>
          var rest := CollectFiles(fs2, src, dest, order[1..]);
          Collected(rest.fs, [RowFor(dest, rel)] + rest.rows, rest.raised)
  }

  /** `submit_exercise`: `group` is the first group of the course that has
      the user as a member, `order` the order in which `os.walk` reports the
      workspace's files. There is no deadline check, every file is collected
      (not only notebooks) and the destination has no timestamp segment. */
  function SubmitExercise(fs: FS, group: Option<nat>, title: string, order: seq<Path>): (r: SubmitResult)
    ensures group.None? ==>
      r == SubmitResult(fs, false, [], Rejected("You must be in a group to submit exercises"))
    ensures group.Some? && Workspace(group.value, title) !in fs ==>
      r == SubmitResult(fs, false, [], Rejected("No work found to submit"))
    ensures r.submissionCreated <==> group.Some? && Workspace(group.value, title) in fs
    ensures r.response.Accepted? ==> r.response.fileCount == |r.files| == |order|
    ensures forall q :: q in fs ==> q in r.fs
    ensures r.submissionCreated ==> |r.files| <= |order|
    ensures r.submissionCreated ==>
      forall i :: 0 <= i < |r.files| ==> r.files[i] == RowFor(SubmissionDir(group.value, title), order[i])
  {
    match group
    case None => SubmitResult(fs, false, [], Rejected("You must be in a group to submit exercises"))
    case Some(g) =>
      var src := Workspace(g, title);
      if src !in fs then SubmitResult(fs, false, [], Rejected("No work found to submit"))
      else
        var dest := SubmissionDir(g, title);
        match MakeDirs(fs, dest, true)
        case Err(e) => SubmitResult(fs, true, [], ServerError(e))
        case Ok(fs1) =>
          var c := CollectFiles(fs1, src, dest, order);
          match c.raised
          case Some(e) => SubmitResult(c.fs, true, c.rows, ServerError(e))
          case None => SubmitResult(c.fs, true, c.rows, Accepted(|c.rows|))
  }

  /** A common prefix does not change which path extends which. */
  lemma PrefixCancel(p: Path, x: Path, y: Path)
    ensures p + x <= p + y <==> x <= y
  {
    if |x| <= |y| {
      assert (p + x)[|p|..] == x;
      assert (p + y)[|p|..|p| + |x|] == y[..|x|];
      assert (p + x == (p + y)[..|p + x|]) <==> (x == y[..|x|]);
    }
  }

  /** Nothing inside `src` is a prefix of anything inside an apart `dest`. */
  lemma ApartNotPrefix(src: Path, dest: Path, x: Path, y: Path)
    requires Apart(src, dest)
    ensures !(src + x <= dest + y)
  {
    if |src + x| <= |dest + y| {
      if |src| <= |dest| {
        assert (src + x)[..|src|] == src != dest[..|src|] == (dest + y)[..|src|];
      } else {
        assert (src + x)[..|dest|] == src[..|dest|] != dest == (dest + y)[..|dest|];
      }
    }
  }

  /** A walked file can be copied to `dest + rel`: that place is not a
      directory and no directory above it is a file. */
  ghost predicate Ready(fs: FS, dest: Path, rel: Path)
  {
    rel != [] && !IsDir(fs, dest + rel)
    && forall q :: q in Lineage(Parent(dest + rel)) ==> !IsFile(fs, q)
  }

  /** No walked file lies inside another (a file has no children). */
  ghost predicate NotNested(order: seq<Path>)
  {
    forall i, j :: 0 <= i < |order| && 0 <= j < |order| && i != j ==> !(order[i] <= order[j])
  }

  /** `fs2` arises from `fs` by adding or replacing `target` and adding
      directories above it; nothing is removed. */
  ghost predicate StepFrom(fs: FS, fs2: FS, target: Path)
  {
    (forall q :: q in fs ==> q in fs2)
    && forall q :: q in fs2 && q != target ==>
      (q in fs && fs2[q] == fs[q]) || (fs2[q] == Dir && q <= target)
  }

  /** One iteration of the copy loop on a ready file. */
  lemma CollectStep(fs: FS, src: Path, dest: Path, rel: Path) returns (fs2: FS)
    requires dest != [] && Ready(fs, dest, rel) && IsFile(fs, src + rel)
    ensures MakeDirs(fs, Parent(dest + rel), true).Ok?
    ensures CopyFile(MakeDirs(fs, Parent(dest + rel), true).value, src + rel, dest + rel) == Ok(fs2)
    ensures IsFile(fs2, dest + rel) && fs2[dest + rel] == fs[src + rel]
    ensures StepFrom(fs, fs2, dest + rel)
  {
    var target := dest + rel;
    var dir := Parent(target);
    assert dir != [] && dir <= target;
    var fs1 := MakeDirs(fs, dir, true).value;
    assert target !in Lineage(dir);
    assert !IsDir(fs1, target);
    assert fs1[src + rel] == fs[src + rel];
    assert CopyTarget(fs1, src + rel, target) == target;
    assert ParentExists(fs1, target);
    fs2 := fs1[target := fs[src + rel]];
    forall q | q in fs2 && q != target
      ensures (q in fs && fs2[q] == fs[q]) || (fs2[q] == Dir && q <= target)
    {
      if q !in fs {
        assert q in Lineage(dir);
      }
    }
  }

  /** A step for one file keeps every other, unnested file ready. */
  lemma ReadyAfterStep(fs: FS, fs2: FS, dest: Path, rel: Path, x: Path)
    requires StepFrom(fs, fs2, dest + rel) && Ready(fs, dest, x)
    requires IsFile(fs2, dest + rel)
    requires !(x <= rel) && !(rel <= x)
    ensures Ready(fs2, dest, x)
  {
    var target := dest + rel;
    PrefixCancel(dest, x, rel);
    PrefixCancel(dest, rel, x);
    assert dest + x != target;
    forall q | q in Lineage(Parent(dest + x))
      ensures !IsFile(fs2, q)
    {
      assert q <= dest + x;
    }
  }

  /** `q` lies on the way to one of the copied files. */
  ghost predicate Touched(q: Path, dest: Path, order: seq<Path>)
  {
    exists j :: 0 <= j < |order| && q <= dest + order[j]
  }

  /** A walked file that can be copied: its source is a file and its
      destination is ready. */
  ghost predicate Copyable(fs: FS, src: Path, dest: Path, x: Path)
  {
    IsFile(fs, src + x) && Ready(fs, dest, x)
  }

  /** After the first file is copied, the remaining ones are still copyable,
      unchanged at the source, and the first one lies on none of their ways. */
  lemma RestCopyable(fs: FS, fs2: FS, src: Path, dest: Path, order: seq<Path>)
    requires dest != [] && Apart(src, dest) && NotNested(order) && order != []
    requires forall i :: 0 <= i < |order| ==> Copyable(fs, src, dest, order[i])
    requires StepFrom(fs, fs2, dest + order[0]) && IsFile(fs2, dest + order[0])
    ensures NotNested(order[1..])
    ensures forall i :: 1 <= i < |order| ==>
      IsFile(fs, src + order[i]) && Copyable(fs2, src, dest, order[i]) && fs2[src + order[i]] == fs[src + order[i]]
    ensures !Touched(dest + order[0], dest, order[1..])
  {
    var rel, rest := order[0], order[1..];
    assert NotNested(rest) by {
      forall i, j | 0 <= i < |rest| && 0 <= j < |rest| && i != j
        ensures !(rest[i] <= rest[j])
      {
        assert rest[i] == order[i + 1] && rest[j] == order[j + 1];
      }
    }
    forall i | 1 <= i < |order|
      ensures IsFile(fs, src + order[i]) && Copyable(fs2, src, dest, order[i]) && fs2[src + order[i]] == fs[src + order[i]]
    {
      assert Copyable(fs, src, dest, order[i]);
      ApartNotPrefix(src, dest, order[i], rel);
      ReadyAfterStep(fs, fs2, dest, rel, order[i]);
    }
    forall j | 0 <= j < |rest|
      ensures !(dest + rel <= dest + rest[j])
    {
      assert rest[j] == order[j + 1];
      PrefixCancel(dest, rel, rest[j]);
    }
  }

  /** The first copy followed by the rest of the loop: what the rest keeps
      and copies, the whole loop keeps and copies. */
  lemma CollectCons(fs: FS, fs2: FS, out: FS, src: Path, dest: Path, order: seq<Path>)
    requires order != []
    requires StepFrom(fs, fs2, dest + order[0])
    requires IsFile(fs, src + order[0]) && IsFile(fs2, dest + order[0]) && fs2[dest + order[0]] == fs[src + order[0]]
    requires forall i :: 1 <= i < |order| ==> IsFile(fs, src + order[i]) && fs2[src + order[i]] == fs[src + order[i]]
    requires !Touched(dest + order[0], dest, order[1..])
    requires forall i :: 0 <= i < |order| - 1 ==>
      IsFile(fs2, src + order[1..][i]) && IsFile(out, dest + order[1..][i]) && out[dest + order[1..][i]] == fs2[src + order[1..][i]]
    requires forall q :: q in fs2 ==> q in out
    requires forall q :: q in fs2 && !Touched(q, dest, order[1..]) ==> out[q] == fs2[q]
    ensures forall i :: 0 <= i < |order| ==>
      IsFile(fs, src + order[i]) && IsFile(out, dest + order[i]) && out[dest + order[i]] == fs[src + order[i]]
    ensures forall q :: q in fs && !Touched(q, dest, order) ==> q in out && out[q] == fs[q]
  {
    var rest := order[1..];
    assert dest + order[0] in fs2;
    forall i | 1 <= i < |order|
      ensures IsFile(fs, src + order[i]) && IsFile(out, dest + order[i]) && out[dest + order[i]] == fs[src + order[i]]
    {
      assert order[i] == rest[i - 1];
    }
    forall q | q in fs && !Touched(q, dest, order)
      ensures q in out && out[q] == fs[q]
    {
      assert !(q <= dest + order[0]);
      forall j | 0 <= j < |rest|
        ensures !(q <= dest + rest[j])
      {
        assert rest[j] == order[j + 1];
      }
    }
  }

  /** When every walked file is copyable and none is nested in another, the
      copy loop copies every file, in full, and changes nothing else. */
  lemma {:induction false} CollectAll(fs: FS, src: Path, dest: Path, order: seq<Path>)
    requires dest != [] && Apart(src, dest) && NotNested(order)
    requires forall i :: 0 <= i < |order| ==> Copyable(fs, src, dest, order[i])
    ensures CollectFiles(fs, src, dest, order).raised.None?
    ensures forall i :: 0 <= i < |order| ==>
      IsFile(fs, src + order[i])
      && IsFile(CollectFiles(fs, src, dest, order).fs, dest + order[i])
      && CollectFiles(fs, src, dest, order).fs[dest + order[i]] == fs[src + order[i]]
    ensures forall q :: q in fs && !Touched(q, dest, order) ==>
      CollectFiles(fs, src, dest, order).fs[q] == fs[q]
    decreases |order|
  {
    if order != [] {
      assert Copyable(fs, src, dest, order[0]);
      var fs2 := CollectStep(fs, src, dest, order[0]);
      RestCopyable(fs, fs2, src, dest, order);
      var rest := order[1..];
      assert forall i :: 0 <= i < |rest| ==> rest[i] == order[i + 1];
      CollectAll(fs2, src, dest, rest);
      var out := CollectFiles(fs2, src, dest, rest).fs;
      assert CollectFiles(fs, src, dest, order).fs == out;
      CollectCons(fs, fs2, out, src, dest, order);
    }
  }

  /** A sequence without repetitions has as many distinct elements as entries. */
  lemma {:induction false} DistinctCount(order: seq<Path>)
    requires forall i, j :: 0 <= i < j < |order| ==> order[i] != order[j]
    ensures |set x | x in order| == |order|
  {
    if order != [] {
      var rest := order[1..];
      DistinctCount(rest);
      assert (set x | x in order) == {order[0]} + (set x | x in rest);
      assert order[0] !in rest by {
        forall j | 0 <= j < |rest|
          ensures rest[j] != order[0]
        {
          assert rest[j] == order[j + 1];
        }
      }
    }
  }

  /** A listing without repetitions has as many entries as the set it lists. */
  lemma EnumerationCount(order: seq<Path>, files: set<Path>)
    requires Enumerates(order, files)
    ensures |order| == |files|
  {
    DistinctCount(order);
    assert (set x | x in order) == files by {
      forall x
        ensures x in (set x | x in order) <==> x in files
      {
      }
    }
  }

  /** Nothing inside `src` is on the way to a file copied below an apart
      `dest`. */
  lemma InsideUntouched(src: Path, dest: Path, q: Path, order: seq<Path>)
    requires Apart(src, dest) && src <= q
    ensures !Touched(q, dest, order)
  {
    assert q == src + q[|src|..];
    forall j | 0 <= j < |order|
      ensures !(q <= dest + order[j])
    {
      ApartNotPrefix(src, dest, q[|src|..], order[j]);
    }
  }

  /** `order` lists each workspace file exactly once, as `os.walk` does. */
  ghost predicate Enumerates(order: seq<Path>, files: set<Path>)
  {
    (forall i, j :: 0 <= i < j < |order| ==> order[i] != order[j])
    && forall x :: x in order <==> x in files
  }

  /** Walked files are not nested in a well-formed tree. */
  lemma WalkNotNested(fs: FS, root: Path, order: seq<Path>)
    requires WellFormed(fs) && Enumerates(order, WalkFiles(fs, root))
    ensures NotNested(order)
  {
    forall i, j | 0 <= i < |order| && 0 <= j < |order| && i != j
      ensures !(order[i] <= order[j])
    {
      var x, y := order[i], order[j];
      assert x in WalkFiles(fs, root) && y in WalkFiles(fs, root);
      assert x != y by {
        if i < j {
        } else {
          assert order[j] != order[i];
        }
      }
      PrefixCancel(root, x, y);
      if |x| < |y| {
        var q := root + y;
        assert q in fs && 0 < |root + x| < |q|;
        assert IsDir(fs, q[..|root + x|]);
        assert IsFile(fs, root + x);
        assert q[..|root + x|] != root + x;
        assert !(root + x <= q);
      }
    }
  }

  /** Every file that has to be copied can be, once the destination exists:
      nothing is in its way. True for the first submission of a group (see
      `FreshDestinationReady`); a later one overwrites files of the same name. */
  ghost predicate CanCollect(fs: FS, dest: Path, files: set<Path>)
  {
    (forall q :: q in Lineage(dest) ==> !IsFile(fs, q))
    && forall x :: x in files ==> Ready(fs, dest, x)
  }

  lemma FreshDestinationReady(fs: FS, dest: Path, files: set<Path>)
    requires dest != [] && NothingUnder(fs, dest)
    requires forall q :: q in Lineage(dest) ==> !IsFile(fs, q)
    requires forall x :: x in files ==> x != []
    ensures CanCollect(fs, dest, files)
  {
    forall x | x in files
      ensures Ready(fs, dest, x)
    {
      assert dest <= dest + x;
      forall q | q in Lineage(Parent(dest + x))
        ensures !IsFile(fs, q)
      {
        if |q| <= |dest| {
          assert q == dest[..|q|];
          assert q in Lineage(dest);
        } else {
          assert dest <= q;
        }
      }
    }
  }

  /** Creating the destination keeps the walked files ready. */
  lemma ReadyAfterDest(fs: FS, dest: Path, x: Path)
    requires dest != [] && MakeDirs(fs, dest, true).Ok? && Ready(fs, dest, x)
    ensures Ready(MakeDirs(fs, dest, true).value, dest, x)
  {
    var fs1 := MakeDirs(fs, dest, true).value;
    assert dest + x !in Lineage(dest);
  }

  /** Creating the submission directory leaves the workspace as it was and
      every walked file copyable. */
  lemma PrepareCollect(fs: FS, g: nat, title: string, order: seq<Path>)
    requires WellFormed(fs)
    requires Enumerates(order, WalkFiles(fs, Workspace(g, title)))
    requires CanCollect(fs, SubmissionDir(g, title), WalkFiles(fs, Workspace(g, title)))
    ensures Apart(Workspace(g, title), SubmissionDir(g, title)) && NotNested(order)
    ensures MakeDirs(fs, SubmissionDir(g, title), true).Ok?
    ensures var fs1 := MakeDirs(fs, SubmissionDir(g, title), true).value;
      forall q :: q in fs && Workspace(g, title) <= q ==> q in fs1 && fs1[q] == fs[q]
    ensures var fs1 := MakeDirs(fs, SubmissionDir(g, title), true).value;
      forall i :: 0 <= i < |order| ==>
        Copyable(fs1, Workspace(g, title), SubmissionDir(g, title), order[i])
  {
    var src, dest := Workspace(g, title), SubmissionDir(g, title);
    assert src[0] != dest[0];
    var fs1 := MakeDirs(fs, dest, true).value;
    forall q | q in fs && src <= q
      ensures q in fs1 && fs1[q] == fs[q]
    {
      assert q[0] == src[0];
    }
    WalkNotNested(fs, src, order);
    forall i | 0 <= i < |order|
      ensures Copyable(fs1, src, dest, order[i])
    {
      assert order[i] in WalkFiles(fs, src);
      ReadyAfterDest(fs, dest, order[i]);
    }
  }

  /** The rows name exactly the walked files. */
  lemma RowsNameFiles(rows: seq<SubmissionFileRow>, dest: Path, order: seq<Path>, files: set<Path>)
    requires |rows| == |order| && forall i :: 0 <= i < |rows| ==> rows[i] == RowFor(dest, order[i])
    requires forall x :: x in order <==> x in files
    ensures (set f | f in rows) == (set x | x in files :: RowFor(dest, x))
  {
    forall f | f in rows
      ensures f in (set x | x in files :: RowFor(dest, x))
    {
      var i :| 0 <= i < |rows| && rows[i] == f;
      assert order[i] in files;
    }
    forall x | x in files
      ensures RowFor(dest, x) in rows
    {
      var i :| 0 <= i < |order| && order[i] == x;
      assert rows[i] == RowFor(dest, x);
    }
  }

  /** A group member's submission of a workspace whose files can all be
      placed copies every file of the workspace to the submissions area
      with its content, records one row per copied file, reports their
      number, and leaves the workspace alone. */
  lemma SubmitCollectsWorkspace(fs: FS, g: nat, title: string, order: seq<Path>)
    requires WellFormed(fs)
    requires Workspace(g, title) in fs
    requires Enumerates(order, WalkFiles(fs, Workspace(g, title)))
    requires CanCollect(fs, SubmissionDir(g, title), WalkFiles(fs, Workspace(g, title)))
    ensures var r := SubmitExercise(fs, Some(g), title, order);
      r.submissionCreated && r.response == Accepted(|WalkFiles(fs, Workspace(g, title))|)
    ensures var r := SubmitExercise(fs, Some(g), title, order);
      forall x :: x in WalkFiles(fs, Workspace(g, title)) ==>
        IsFile(r.fs, SubmissionDir(g, title) + x)
        && r.fs[SubmissionDir(g, title) + x] == fs[Workspace(g, title) + x]
    ensures var r := SubmitExercise(fs, Some(g), title, order);
      forall q :: q in fs && Workspace(g, title) <= q ==> r.fs[q] == fs[q]
    ensures var r := SubmitExercise(fs, Some(g), title, order);
      (set f | f in r.files) == (set x | x in WalkFiles(fs, Workspace(g, title)) :: RowFor(SubmissionDir(g, title), x))
  {
    var src, dest := Workspace(g, title), SubmissionDir(g, title);
    var files := WalkFiles(fs, src);
    PrepareCollect(fs, g, title, order);
    var fs1 := MakeDirs(fs, dest, true).value;
    CollectAll(fs1, src, dest, order);
    var c := CollectFiles(fs1, src, dest, order);
    var r := SubmitExercise(fs, Some(g), title, order);
    assert r == SubmitResult(c.fs, true, c.rows, Accepted(|c.rows|));
    EnumerationCount(order, files);
    forall x | x in files
      ensures IsFile(r.fs, dest + x) && r.fs[dest + x] == fs[src + x]
    {
      var i :| 0 <= i < |order| && order[i] == x;
    }
    forall q | q in fs && src <= q
      ensures r.fs[q] == fs[q]
    {
      InsideUntouched(src, dest, q, order);
    }
    RowsNameFiles(c.rows, dest, order, files);
  }
}
