/** Exercise fan-out: the canonical exercise directory of a lesson is copied
    into every group's workspace, and renamed along with the lesson title.
    The exercise store and the per-group workspaces are two distinct top-level
    directories of the data root. */
module Provisioning {
  import opened Wrappers
  import opened Text
  import opened FileSystem

  const ExerciseFilesRoot: Path := ["exercise_files"]
  const UserFilesRoot: Path := ["user_directories"]

  /** `exercise_files/<title>`: the canonical copy of an exercise. */
  function ExerciseDir(title: string): Path
  {
    ExerciseFilesRoot + [title]
  }

  /** `user_directories/group_<id>`: one group's workspace root. */
  function GroupDir(groupId: nat): (p: Path)
    ensures |p| == 2 && UserFilesRoot <= p
  {
    UserFilesRoot + ["group_" + NatToString(groupId)]
  }

  /** `user_directories/group_<id>/<title>`: one group's copy of an exercise. */
  function Workspace(groupId: nat, title: string): (p: Path)
    ensures |p| == 3 && GroupDir(groupId) <= p
  {
    GroupDir(groupId) + [title]
  }

  /** Distinct groups own disjoint workspace roots. */
  lemma GroupDirsDisjoint(g: nat, h: nat, q: Path)
    requires g != h
    ensures !(GroupDir(g) <= q && GroupDir(h) <= q)
  {
    if GroupDir(g) <= q && GroupDir(h) <= q {
      assert GroupDir(g)[1] == q[1] == GroupDir(h)[1];
      var sg, sh := NatToString(g), NatToString(h);
      assert "group_" + sg == "group_" + sh;
      assert sg == ("group_" + sg)[6..] == ("group_" + sh)[6..] == sh;
      NatToStringInjective(g, h);
    }
  }

  /** Nothing in the exercise store lies inside a group workspace, and no
      workspace path is an ancestor of a store path, or the reverse. */
  lemma StoreAndWorkspacesApart(title: string, g: nat, q: Path)
    ensures !(ExerciseDir(title) <= q && UserFilesRoot <= q)
    ensures !(GroupDir(g) <= ExerciseDir(title)) && !(ExerciseDir(title) <= GroupDir(g))
  {
    assert ExerciseDir(title)[0] != UserFilesRoot[0];
    assert ExerciseDir(title)[0] != GroupDir(g)[0];
  }

  /** Entries outside `root` are the same in both states. */
  ghost predicate AgreeOutside(fs: FS, fs': FS, root: Path)
  {
    (forall q :: !(root <= q) ==> (q in fs <==> q in fs'))
    && (forall q :: !(root <= q) && q in fs ==> fs[q] == fs'[q])
  }

  // ---------------------------------------------------------------------
  // copy_exercise_files (views.py): the synchronous copy, errors swallowed
  // ---------------------------------------------------------------------

  /** Copies the exercise of lesson `exercise` (None: no exercise) into the
      workspace of group `groupId`. Any exception is logged and swallowed, so
      the result is whatever state the operations reached. */
  function CopyExerciseFiles(fs: FS, groupId: nat, exercise: Option<string>): (r: FS)
    ensures exercise.None? ==> r == fs
  {
    match exercise
    case None => fs
    case Some(title) =>
      var groupDir := GroupDir(groupId);
      match MakeDirs(fs, groupDir, true)
      case Err(_) => fs
      case Ok(fs1) =>
        var src := ExerciseDir(title);
        if src !in fs1 then fs1
        else
          var dest := groupDir + [title];
          var cleared := if dest in fs1 then RmTree(fs1, dest) else Ok(fs1);
          match cleared
          case Err(_) => fs1
          case Ok(fs2) =>
            match CopyTree(fs2, src, dest)
            case Err(_) => fs2
            case Ok(fs3) => fs3
  }

  // ---------------------------------------------------------------------
  // _copy_exercise_dir / start_group_copies (utils/files.py): the background
  // copy, which does not check its source and lets exceptions escape
  // ---------------------------------------------------------------------

  /** One background copy job: ensure the group directory, delete the old
      workspace copy if present, copy the canonical directory. A missing
      source makes `copytree` raise. */
  function CopyExerciseDir(fs: FS, groupId: nat, title: string): (r: Effect)
    ensures !IsDir(fs, ExerciseDir(title)) ==> r.raised.Some?
  {
    var groupDir := GroupDir(groupId);
    var src := ExerciseDir(title);
    var dst := groupDir + [title];
    match MakeDirs(fs, groupDir, true)
    case Err(e) => Effect(fs, Some(e))
    case Ok(fs1) =>
      assert forall q :: q in Lineage(groupDir) ==> q != src by {
        StoreAndWorkspacesApart(title, groupId, src);
      }
      var cleared := if dst in fs1 then RmTree(fs1, dst) else Ok(fs1);
      match cleared
      case Err(e) => Effect(fs1, Some(e))
      case Ok(fs2) =>
        assert src !in fs2 || fs2[src] == fs[src];
        match CopyTree(fs2, src, dst)
        case Err(e) => Effect(fs2, Some(e))
        case Ok(fs3) => Effect(fs3, None)
  }

  /** What a copy of lesson `title` for group `groupId` needs to succeed: the
      canonical directory exists, the workspace path and its ancestors are
      not files, and when the workspace is missing nothing lies below it (as
      in any real tree, see `AbsentMeansNothingUnder`). */
  ghost predicate CopyReady(fs: FS, groupId: nat, title: string)
  {
    IsDir(fs, ExerciseDir(title))
    && !IsFile(fs, UserFilesRoot) && !IsFile(fs, GroupDir(groupId))
    && !IsFile(fs, Workspace(groupId, title))
    && (Workspace(groupId, title) in fs || NothingUnder(fs, Workspace(groupId, title)))
  }

  /** Creating a group directory does not touch the exercise store. */
  lemma MakeGroupDirKeepsStore(fs: FS, groupId: nat, title: string)
    requires MakeDirs(fs, GroupDir(groupId), true).Ok?
    ensures var fs1 := MakeDirs(fs, GroupDir(groupId), true).value;
      Subtree(fs1, ExerciseDir(title)) == Subtree(fs, ExerciseDir(title))
      && (IsDir(fs1, ExerciseDir(title)) <==> IsDir(fs, ExerciseDir(title)))
  {
    var fs1 := MakeDirs(fs, GroupDir(groupId), true).value;
    forall q | ExerciseDir(title) <= q
      ensures (q in fs <==> q in fs1) && (q in fs ==> fs[q] == fs1[q])
    {
      StoreAndWorkspacesApart(title, groupId, q);
      assert !(UserFilesRoot <= q);
      assert q !in Lineage(GroupDir(groupId));
    }
    SubtreeFrame(fs, fs1, ExerciseDir(title));
  }

  /** `os.makedirs(group_dir, exist_ok=True)` succeeds when neither the
      workspace root nor the group directory is a file, and leaves both as
      directories. */
  lemma MakeGroupDir(fs: FS, groupId: nat)
    requires !IsFile(fs, UserFilesRoot) && !IsFile(fs, GroupDir(groupId))
    ensures Lineage(GroupDir(groupId)) == {UserFilesRoot, GroupDir(groupId)}
    ensures MakeDirs(fs, GroupDir(groupId), true).Ok?
    ensures forall q :: q in Lineage(GroupDir(groupId)) ==> IsDir(MakeDirs(fs, GroupDir(groupId), true).value, q)
  {
    MakeGroupDirLineage(groupId);
  }

  /** A group directory's ancestors: the workspace root and itself. */
  lemma MakeGroupDirLineage(groupId: nat)
    ensures Lineage(GroupDir(groupId)) == {UserFilesRoot, GroupDir(groupId)}
  {
    var groupDir := GroupDir(groupId);
    forall q | q in Lineage(groupDir)
      ensures q == UserFilesRoot || q == groupDir
    {
      assert |q| == 1 || |q| == 2;
    }
    assert UserFilesRoot == groupDir[..1];
  }

  /** The tree below a directory contains that directory as its root entry. */
  lemma SubtreeRoot(fs: FS, root: Path)
    requires IsDir(fs, root)
    ensures [] in Subtree(fs, root) && Subtree(fs, root)[[]] == Dir
  {
    assert root + [] == root;
  }

  /** The common core of both copy helpers once the group directory exists:
      the workspace is replaced by the canonical tree. */
  lemma CopyAfterMakeDirs(fs: FS, groupId: nat, title: string)
    requires CopyReady(fs, groupId, title)
    ensures MakeDirs(fs, GroupDir(groupId), true).Ok?
    ensures var fs1 := MakeDirs(fs, GroupDir(groupId), true).value;
      var dst := Workspace(groupId, title);
      var cleared := if dst in fs1 then RmTree(fs1, dst) else Ok(fs1);
      IsDir(fs1, ExerciseDir(title)) && ExerciseDir(title) in fs1
      && cleared.Ok?
      && CopyTree(cleared.value, ExerciseDir(title), dst)
         == Ok(Replace(fs1, dst, Subtree(fs, ExerciseDir(title))))
  {
    var groupDir := GroupDir(groupId);
    var src, dst := ExerciseDir(title), Workspace(groupId, title);
    assert Lineage(groupDir) == {UserFilesRoot, groupDir} by {
      forall q | q in Lineage(groupDir)
        ensures q == UserFilesRoot || q == groupDir
      {
        assert |q| == 1 || |q| == 2;
      }
      assert UserFilesRoot == groupDir[..1];
    }
    var fs1 := MakeDirs(fs, groupDir, true).value;
    MakeGroupDirKeepsStore(fs, groupId, title);
    assert dst !in Lineage(groupDir);
    StoreAndWorkspacesApart(title, groupId, dst);
    assert Apart(src, dst) by {
      assert src[0] != dst[0];
    }
    forall q | q in Lineage(dst) && q != dst
      ensures IsDir(fs1, q)
    {
      assert |q| < |dst|;
      assert q == dst[..|q|] == groupDir[..|q|];
      assert q in Lineage(groupDir);
    }
    if dst !in fs1 {
      forall q | q in fs1
        ensures !(dst <= q)
      {
        if q !in fs {
          assert q in Lineage(groupDir);
        }
      }
    }
    DeleteThenCopy(fs1, src, dst);
  }

  /** The state a successful background copy leaves, in closed form. */
  lemma CopyExerciseDirResult(fs: FS, groupId: nat, title: string)
    requires CopyReady(fs, groupId, title)
    ensures MakeDirs(fs, GroupDir(groupId), true).Ok?
    ensures CopyExerciseDir(fs, groupId, title)
      == Effect(Replace(MakeDirs(fs, GroupDir(groupId), true).value, Workspace(groupId, title),
                        Subtree(fs, ExerciseDir(title))), None)
  {
    CopyAfterMakeDirs(fs, groupId, title);
  }

  /** `_copy_exercise_dir` succeeds when `CopyReady` holds, and then the
      workspace holds exactly the canonical tree: earlier workspace content is
      deleted, not merged. Nothing outside the workspace changes except that
      missing group directories are created. */
  lemma CopyExerciseDirReplaces(fs: FS, groupId: nat, title: string)
    requires CopyReady(fs, groupId, title)
    ensures MakeDirs(fs, GroupDir(groupId), true).Ok?
    ensures var r := CopyExerciseDir(fs, groupId, title);
      var dst := Workspace(groupId, title);
      r.raised.None?
      && r.fs == Replace(MakeDirs(fs, GroupDir(groupId), true).value, dst, Subtree(fs, ExerciseDir(title)))
      && Subtree(r.fs, dst) == Subtree(fs, ExerciseDir(title))
      && (forall q :: !(dst <= q) && q in fs ==> q in r.fs && r.fs[q] == fs[q])
      && (forall q :: !(dst <= q) && q in r.fs && q !in fs ==> q in Lineage(GroupDir(groupId)))
  {
    CopyExerciseDirResult(fs, groupId, title);
    var fs1 := MakeDirs(fs, GroupDir(groupId), true).value;
    var dst := Workspace(groupId, title);
    SubtreeOfReplace(fs1, dst, Subtree(fs, ExerciseDir(title)));
    assert dst == GroupDir(groupId) + [title];
  }

  /** Replacing a workspace by a directory tree keeps the canonical tree and
      the group directories, and leaves a directory at the workspace. */
  lemma ReplaceWorkspaceKeeps(fs1: FS, groupId: nat, title: string, s: map<Path, Node>)
    requires [] in s && s[[]] == Dir
    requires IsDir(fs1, ExerciseDir(title))
    requires forall q :: q in Lineage(GroupDir(groupId)) ==> IsDir(fs1, q)
    ensures var once := Replace(fs1, Workspace(groupId, title), s);
      IsDir(once, ExerciseDir(title))
      && Subtree(once, ExerciseDir(title)) == Subtree(fs1, ExerciseDir(title))
      && IsDir(once, Workspace(groupId, title))
      && (forall q :: q in Lineage(GroupDir(groupId)) ==> IsDir(once, q))
  {
    var src, dst := ExerciseDir(title), Workspace(groupId, title);
    assert Apart(src, dst) by {
      assert src[0] != dst[0];
    }
    SubtreeApartFromReplace(fs1, dst, s, src);
    assert dst[|dst|..] == [];
  }

  /** After a successful copy the job can run again, the group directories
      exist, and the canonical tree is untouched. */
  lemma CopyReadyAfterCopy(fs: FS, groupId: nat, title: string)
    requires CopyReady(fs, groupId, title)
    ensures var once := CopyExerciseDir(fs, groupId, title).fs;
      CopyReady(once, groupId, title)
      && Subtree(once, ExerciseDir(title)) == Subtree(fs, ExerciseDir(title))
      && (forall q :: q in Lineage(GroupDir(groupId)) ==> IsDir(once, q))
  {
    var src, groupDir := ExerciseDir(title), GroupDir(groupId);
    MakeGroupDir(fs, groupId);
    var fs1 := MakeDirs(fs, groupDir, true).value;
    CopyExerciseDirResult(fs, groupId, title);
    MakeGroupDirKeepsStore(fs, groupId, title);
    SubtreeRoot(fs, src);
    ReplaceWorkspaceKeeps(fs1, groupId, title, Subtree(fs, src));
  }

  /** Running the same copy job twice leaves the same state as running it
      once: the job is safe to repeat. */
  lemma CopyExerciseDirIdempotent(fs: FS, groupId: nat, title: string)
    requires CopyReady(fs, groupId, title)
    ensures var once := CopyExerciseDir(fs, groupId, title);
      CopyExerciseDir(once.fs, groupId, title) == once
  {
    var src, dst, groupDir := ExerciseDir(title), Workspace(groupId, title), GroupDir(groupId);
    var once := CopyExerciseDir(fs, groupId, title);
    CopyExerciseDirResult(fs, groupId, title);
    CopyReadyAfterCopy(fs, groupId, title);
    CopyExerciseDirResult(once.fs, groupId, title);
    MakeDirsNoop(once.fs, groupDir);
    var fs1 := MakeDirs(fs, groupDir, true).value;
    var s := Subtree(fs, src);
    ReplaceReplace(fs1, dst, s, s);
  }

  /** `copy_exercise_files` and the background job agree whenever the copy can
      succeed. */
  lemma CopyHelpersAgree(fs: FS, groupId: nat, title: string)
    requires CopyReady(fs, groupId, title)
    ensures CopyExerciseFiles(fs, groupId, Some(title)) == CopyExerciseDir(fs, groupId, title).fs
  {
    CopyAfterMakeDirs(fs, groupId, title);
  }

  /** The two helpers differ on a missing canonical directory: the view skips
      the copy, leaving the workspace as it was (only the group directory is
      ensured), while the background job raises. */
  lemma MissingSourceContrast(fs: FS, groupId: nat, title: string)
    requires ExerciseDir(title) !in fs
    requires !IsFile(fs, UserFilesRoot) && !IsFile(fs, GroupDir(groupId))
    ensures var r := CopyExerciseFiles(fs, groupId, Some(title));
      IsDir(r, GroupDir(groupId))
      && Subtree(r, Workspace(groupId, title)) == Subtree(fs, Workspace(groupId, title))
    ensures CopyExerciseDir(fs, groupId, title).raised.Some?
  {
    var groupDir, dst := GroupDir(groupId), Workspace(groupId, title);
    assert UserFilesRoot == groupDir[..1];
    assert forall q :: q in Lineage(groupDir) ==> q == UserFilesRoot || q == groupDir;
    MakeGroupDirKeepsStore(fs, groupId, title);
    var fs1 := MakeDirs(fs, groupDir, true).value;
    forall q | dst <= q
      ensures (q in fs <==> q in fs1) && (q in fs ==> fs[q] == fs1[q])
    {
      assert q !in Lineage(groupDir);
    }
    SubtreeFrame(fs, fs1, dst);
  }

  /** A scheduled background job: copy lesson `title` for group `groupId`. */
  datatype CopyJob = CopyJob(groupId: nat, title: string)

  /** `start_group_copies`: one job per group of the exercise's course, in
      the order the groups are listed, all for the same lesson title. */
  function StartGroupCopies(groupIds: seq<nat>, title: string): (jobs: seq<CopyJob>)
    ensures |jobs| == |groupIds|
    ensures forall i :: 0 <= i < |jobs| ==> jobs[i] == CopyJob(groupIds[i], title)
  {
    if groupIds == [] then []
    else [CopyJob(groupIds[0], title)] + StartGroupCopies(groupIds[1..], title)
  }

  /** Every group gets a job and every job belongs to a group. */
  lemma {:induction false} StartGroupCopiesCoversGroups(groupIds: seq<nat>, title: string)
    ensures forall g :: g in groupIds <==> CopyJob(g, title) in StartGroupCopies(groupIds, title)
    ensures forall j :: j in StartGroupCopies(groupIds, title) ==> j.title == title && j.groupId in groupIds
  {
    var jobs := StartGroupCopies(groupIds, title);
    forall g
      ensures g in groupIds <==> CopyJob(g, title) in jobs
    {
      if g in groupIds {
        var i :| 0 <= i < |groupIds| && groupIds[i] == g;
        assert jobs[i] == CopyJob(g, title);
      }
      if CopyJob(g, title) in jobs {
        var i :| 0 <= i < |jobs| && jobs[i] == CopyJob(g, title);
        assert groupIds[i] == g;
      }
    }
    forall j | j in jobs
      ensures j.title == title && j.groupId in groupIds
    {
      var i :| 0 <= i < |jobs| && jobs[i] == j;
      assert groupIds[i] == j.groupId;
    }
  }

  // ---------------------------------------------------------------------
  // rename_exercise_directories (views.py) and its caller in save_lesson
  // ---------------------------------------------------------------------

  /** The one rename step used for the store and for every group: when `from`
      exists, create the parent of `to` and move `from` to `to`. */
  function RenameStep(fs: FS, parent: Path, from: Path, to: Path): (r: Effect)
    ensures from !in fs ==> r == Effect(fs, None)
  {
    if from !in fs then Effect(fs, None)
    else
      match MakeDirs(fs, parent, true)
      case Err(e) => Effect(fs, Some(e))
      case Ok(fs1) =>
        match Move(fs1, from, to)
        case Err(e) => Effect(fs1, Some(e))
        case Ok(fs2) => Effect(fs2, None)
  }

  /** The group loop: every listed group's old-title directory, in order,
      stopping at the first exception. */
  function RenameInGroups(fs: FS, groupIds: seq<nat>, oldTitle: string, newTitle: string): (r: Effect)
    decreases |groupIds|
  {
    if groupIds == [] then Effect(fs, None)
    else
      var g := groupIds[0];
      var step := RenameStep(fs, GroupDir(g), Workspace(g, oldTitle), Workspace(g, newTitle));
      if step.raised.Some? then step
      else RenameInGroups(step.fs, groupIds[1..], oldTitle, newTitle)
  }

  /** `rename_exercise_directories`: the store first, then every group of the
      course; False (with the moves made so far kept) on an exception. */
  function RenameExerciseDirectories(fs: FS, oldTitle: string, newTitle: string, groupIds: seq<nat>): (r: (bool, FS))
    ensures r.0 <==>
      var store := RenameStep(fs, ExerciseFilesRoot, ExerciseDir(oldTitle), ExerciseDir(newTitle));
      store.raised.None? && RenameInGroups(store.fs, groupIds, oldTitle, newTitle).raised.None?
  {
    var store := RenameStep(fs, ExerciseFilesRoot, ExerciseDir(oldTitle), ExerciseDir(newTitle));
    if store.raised.Some? then (false, store.fs)
    else
      var groups := RenameInGroups(store.fs, groupIds, oldTitle, newTitle);
      (groups.raised.None?, groups.fs)
  }

  /** What a save leaves behind: the file system and the message of the
      exception it raised, if any. */
  datatype SaveOutcome = SaveOutcome(fs: FS, raised: Option<string>)

  /** The jupyter branch of `save_lesson` when the title changed: a failed
      rename raises and the save is abandoned, but the moves made before
      the failure are not undone. */
  function SaveLessonRename(fs: FS, oldTitle: string, newTitle: string, groupIds: seq<nat>): (r: SaveOutcome)
    ensures r.raised.Some? <==> !RenameExerciseDirectories(fs, oldTitle, newTitle, groupIds).0
    ensures r.raised.Some? ==> r.raised.value == "Failed to rename exercise directories"
    ensures r.fs == RenameExerciseDirectories(fs, oldTitle, newTitle, groupIds).1
  {
    var (ok, fs') := RenameExerciseDirectories(fs, oldTitle, newTitle, groupIds);
    SaveOutcome(fs', if ok then None else Some("Failed to rename exercise directories"))
  }

  /** What one rename step needs: the parent of the target can be created,
      and when the source exists the target does not. */
  ghost predicate StepReady(fs: FS, parent: Path, from: Path, to: Path)
  {
    from in fs ==> (forall q :: q in Lineage(parent) ==> !IsFile(fs, q)) && to !in fs
  }

  /** A rename step within one directory moves the tree at `from` to `to`:
      afterwards `to` holds exactly what `from` held and `from` is gone. Only
      the tree at `from`, the tree at `to` and missing ancestors of the parent
      change. */
  lemma RenameStepMoves(fs: FS, parent: Path, a: string, b: string)
    requires parent != [] && a != b
    requires StepReady(fs, parent, parent + [a], parent + [b])
    ensures var r := RenameStep(fs, parent, parent + [a], parent + [b]);
      var from, to := parent + [a], parent + [b];
      r.raised.None?
      && (from in fs ==> Subtree(r.fs, to) == Subtree(fs, from) && from !in r.fs)
      && (forall q :: !(from <= q) && !(to <= q) && q !in Lineage(parent) ==>
            (q in r.fs <==> q in fs) && (q in fs ==> r.fs[q] == fs[q]))
      && (forall q :: q in Lineage(parent) && q in fs ==> q in r.fs && r.fs[q] == fs[q])
      && (forall q :: q in Lineage(parent) && q in r.fs && q !in fs ==> r.fs[q] == Dir)
  {
    var from, to := parent + [a], parent + [b];
    if from in fs {
      var fs1 := MakeDirs(fs, parent, true).value;
      assert to !in Lineage(parent) && from !in Lineage(parent);
      assert !(from <= to) by {
        assert to[|parent|] != from[|parent|];
      }
      assert to[..|to| - 1] == parent;
      var m := Move(fs1, from, to);
      assert m.Ok?;
      var moved := RemoveUnder(fs1, from);
      forall q | from <= q
        ensures (q in fs <==> q in fs1) && (q in fs ==> fs[q] == fs1[q])
      {
        assert q !in Lineage(parent);
      }
      SubtreeFrame(fs, fs1, from);
      assert m.value == Replace(moved, to, Subtree(fs, from));
      SubtreeOfReplace(moved, to, Subtree(fs, from));
      assert !(to <= from) by {
        assert to[|parent|] != from[|parent|];
      }
    }
  }

  /** The per-group precondition of the rename loop. */
  ghost predicate GroupRenameReady(fs: FS, groupId: nat, oldTitle: string, newTitle: string)
  {
    StepReady(fs, GroupDir(groupId), Workspace(groupId, oldTitle), Workspace(groupId, newTitle))
  }

  /** What the rename loop promises for one group: its workspace moved, or,
      when there was nothing to move, its whole directory unchanged. */
  ghost predicate GroupRenamed(fs: FS, r: FS, groupId: nat, oldTitle: string, newTitle: string)
  {
    var from, to := Workspace(groupId, oldTitle), Workspace(groupId, newTitle);
    if from in fs then Subtree(r, to) == Subtree(fs, from) && from !in r
    else Subtree(r, GroupDir(groupId)) == Subtree(fs, GroupDir(groupId))
  }

  /** `fs'` differs from `fs` only below group `groupId`'s directory, and
      possibly by a newly created workspace root. */
  ghost predicate ChangedOnlyIn(fs: FS, fs': FS, groupId: nat)
  {
    (forall q :: !(GroupDir(groupId) <= q) && q != UserFilesRoot ==>
       (q in fs <==> q in fs') && (q in fs ==> fs[q] == fs'[q]))
    && (!IsFile(fs, UserFilesRoot) ==> !IsFile(fs', UserFilesRoot))
  }

  /** One group's step of the rename loop: it succeeds and renames the
      group's workspace. */
  lemma GroupStep(fs: FS, groupId: nat, oldTitle: string, newTitle: string)
    requires oldTitle != newTitle
    requires GroupRenameReady(fs, groupId, oldTitle, newTitle)
    ensures var step := RenameStep(fs, GroupDir(groupId), Workspace(groupId, oldTitle), Workspace(groupId, newTitle));
      step.raised.None?
      && GroupRenamed(fs, step.fs, groupId, oldTitle, newTitle)
      && ChangedOnlyIn(fs, step.fs, groupId)
  {
    var groupDir := GroupDir(groupId);
    var from, to := Workspace(groupId, oldTitle), Workspace(groupId, newTitle);
    RenameStepMoves(fs, groupDir, oldTitle, newTitle);
    GroupStepFrame(fs, RenameStep(fs, groupDir, from, to).fs, groupId, oldTitle, newTitle);
  }

  /** The frame of a group's step, from the frame of a rename step. */
  lemma GroupStepFrame(fs: FS, r: FS, groupId: nat, oldTitle: string, newTitle: string)
    requires var from, to, parent := Workspace(groupId, oldTitle), Workspace(groupId, newTitle), GroupDir(groupId);
      (forall q :: !(from <= q) && !(to <= q) && q !in Lineage(parent) ==>
         (q in r <==> q in fs) && (q in fs ==> r[q] == fs[q]))
      && (forall q :: q in Lineage(parent) && q in fs ==> q in r && r[q] == fs[q])
      && (forall q :: q in Lineage(parent) && q in r && q !in fs ==> r[q] == Dir)
    ensures ChangedOnlyIn(fs, r, groupId)
  {
    var groupDir := GroupDir(groupId);
    var from, to := Workspace(groupId, oldTitle), Workspace(groupId, newTitle);
    MakeGroupDirLineage(groupId);
    forall q | !(groupDir <= q) && q != UserFilesRoot
      ensures (q in fs <==> q in r) && (q in fs ==> fs[q] == r[q])
    {
      assert !(from <= q) && !(to <= q) && q !in Lineage(groupDir);
    }
  }

  /** Entries below another group's directory are not affected by a change
      confined to group `g`. */
  lemma SubtreeOfOtherGroup(fs: FS, fs': FS, g: nat, h: nat, root: Path)
    requires ChangedOnlyIn(fs, fs', g) && g != h && GroupDir(h) <= root
    ensures Subtree(fs', root) == Subtree(fs, root)
    ensures root in fs' <==> root in fs
    ensures root in fs ==> fs'[root] == fs[root]
  {
    forall q | root <= q
      ensures (q in fs <==> q in fs') && (q in fs ==> fs[q] == fs'[q])
    {
      GroupDirsDisjoint(g, h, q);
      assert |q| >= 2;
    }
    SubtreeFrame(fs, fs', root);
  }

  /** A step confined to group `g` keeps another group's readiness and the
      trees its outcome is measured against. */
  lemma OtherGroupUnaffected(fs: FS, fs1: FS, g: nat, h: nat, oldTitle: string, newTitle: string)
    requires ChangedOnlyIn(fs, fs1, g) && g != h
    requires GroupRenameReady(fs, h, oldTitle, newTitle)
    ensures GroupRenameReady(fs1, h, oldTitle, newTitle)
    ensures Workspace(h, oldTitle) in fs1 <==> Workspace(h, oldTitle) in fs
    ensures Subtree(fs1, Workspace(h, oldTitle)) == Subtree(fs, Workspace(h, oldTitle))
    ensures Subtree(fs1, GroupDir(h)) == Subtree(fs, GroupDir(h))
  {
    SubtreeOfOtherGroup(fs, fs1, g, h, Workspace(h, oldTitle));
    SubtreeOfOtherGroup(fs, fs1, g, h, Workspace(h, newTitle));
    SubtreeOfOtherGroup(fs, fs1, g, h, GroupDir(h));
    MakeGroupDirLineage(h);
  }

  /** A group's outcome survives later changes that leave its directory alone. */
  lemma RenamedSurvives(fs: FS, fs1: FS, r: FS, g: nat, oldTitle: string, newTitle: string)
    requires GroupRenamed(fs, fs1, g, oldTitle, newTitle)
    requires forall q :: GroupDir(g) <= q ==> (q in fs1 <==> q in r) && (q in fs1 ==> fs1[q] == r[q])
    ensures GroupRenamed(fs, r, g, oldTitle, newTitle)
  {
    SubtreeFrame(fs1, r, Workspace(g, newTitle));
    SubtreeFrame(fs1, r, GroupDir(g));
  }

  /** A group's outcome measured from an intermediate state carries over to
      the initial state when the intermediate step left the group alone. */
  lemma RenamedFromEarlier(fs: FS, fs1: FS, r: FS, h: nat, oldTitle: string, newTitle: string)
    requires GroupRenamed(fs1, r, h, oldTitle, newTitle)
    requires Workspace(h, oldTitle) in fs1 <==> Workspace(h, oldTitle) in fs
    requires Subtree(fs1, Workspace(h, oldTitle)) == Subtree(fs, Workspace(h, oldTitle))
    requires Subtree(fs1, GroupDir(h)) == Subtree(fs, GroupDir(h))
    ensures GroupRenamed(fs, r, h, oldTitle, newTitle)
  {
  }

  /** The rename loop over distinct groups: every group's workspace is
      renamed and nothing outside the listed group directories changes, apart
      from the workspace root being created. */
  lemma {:induction false} RenameInGroupsMoves(fs: FS, groupIds: seq<nat>, oldTitle: string, newTitle: string)
    requires oldTitle != newTitle
    requires forall i, j :: 0 <= i < j < |groupIds| ==> groupIds[i] != groupIds[j]
    requires forall g :: g in groupIds ==> GroupRenameReady(fs, g, oldTitle, newTitle)
    ensures var r := RenameInGroups(fs, groupIds, oldTitle, newTitle);
      r.raised.None?
      && (forall g :: g in groupIds ==> GroupRenamed(fs, r.fs, g, oldTitle, newTitle))
      && (forall q :: OutsideGroups(q, groupIds) && q != UserFilesRoot ==>
            (q in fs <==> q in r.fs) && (q in fs ==> fs[q] == r.fs[q]))
    decreases |groupIds|
  {
    if groupIds != [] {
      var g, rest := groupIds[0], groupIds[1..];
      assert forall h :: h in rest ==> h != g by {
        forall h | h in rest
          ensures h != g
        {
          var j :| 0 <= j < |rest| && rest[j] == h;
          assert groupIds[j + 1] == h;
        }
      }
      GroupStep(fs, g, oldTitle, newTitle);
      var fs1 := RenameStep(fs, GroupDir(g), Workspace(g, oldTitle), Workspace(g, newTitle)).fs;
      forall h | h in rest
        ensures GroupRenameReady(fs1, h, oldTitle, newTitle)
      {
        OtherGroupUnaffected(fs, fs1, g, h, oldTitle, newTitle);
      }
      assert forall i, j :: 0 <= i < j < |rest| ==> rest[i] != rest[j] by {
        forall i, j | 0 <= i < j < |rest|
          ensures rest[i] != rest[j]
        {
          assert rest[i] == groupIds[i + 1] && rest[j] == groupIds[j + 1];
        }
      }
      RenameInGroupsMoves(fs1, rest, oldTitle, newTitle);
      var r := RenameInGroups(fs1, rest, oldTitle, newTitle).fs;
      ComposeOutcomes(fs, fs1, r, g, rest, oldTitle, newTitle);
      ComposeFrame(fs, fs1, r, g, rest);
      assert groupIds == [g] + rest;
    }
  }

  /** The outcomes of the first group's step and of the rest of the loop
      combine into the outcome of the whole loop. */
  lemma ComposeOutcomes(fs: FS, fs1: FS, r: FS, g: nat, rest: seq<nat>, oldTitle: string, newTitle: string)
    requires g !in rest
    requires GroupRenamed(fs, fs1, g, oldTitle, newTitle) && ChangedOnlyIn(fs, fs1, g)
    requires forall h :: h in rest ==> GroupRenameReady(fs, h, oldTitle, newTitle)
    requires forall h :: h in rest ==> GroupRenamed(fs1, r, h, oldTitle, newTitle)
    requires forall q :: OutsideGroups(q, rest) && q != UserFilesRoot ==>
      (q in fs1 <==> q in r) && (q in fs1 ==> fs1[q] == r[q])
    ensures forall h :: h in [g] + rest ==> GroupRenamed(fs, r, h, oldTitle, newTitle)
  {
    forall q | GroupDir(g) <= q
      ensures (q in fs1 <==> q in r) && (q in fs1 ==> fs1[q] == r[q])
    {
      forall h | h in rest
        ensures !(GroupDir(h) <= q)
      {
        GroupDirsDisjoint(g, h, q);
      }
      assert |q| >= 2;
    }
    forall h | h in [g] + rest
      ensures GroupRenamed(fs, r, h, oldTitle, newTitle)
    {
      if h == g {
        RenamedSurvives(fs, fs1, r, g, oldTitle, newTitle);
      } else {
        OtherGroupUnaffected(fs, fs1, g, h, oldTitle, newTitle);
        RenamedFromEarlier(fs, fs1, r, h, oldTitle, newTitle);
      }
    }
  }

  /** The frames of the first step and of the rest of the loop combine. */
  lemma ComposeFrame(fs: FS, fs1: FS, r: FS, g: nat, rest: seq<nat>)
    requires ChangedOnlyIn(fs, fs1, g)
    requires forall q :: OutsideGroups(q, rest) && q != UserFilesRoot ==>
      (q in fs1 <==> q in r) && (q in fs1 ==> fs1[q] == r[q])
    ensures forall q :: OutsideGroups(q, [g] + rest) && q != UserFilesRoot ==>
      (q in fs <==> q in r) && (q in fs ==> fs[q] == r[q])
  {
    forall q | OutsideGroups(q, [g] + rest) && q != UserFilesRoot
      ensures (q in fs <==> q in r) && (q in fs ==> fs[q] == r[q])
    {
      assert g in [g] + rest;
      assert OutsideGroups(q, rest);
    }
  }

  /** `q` lies below none of the listed groups' directories. */
  ghost predicate OutsideGroups(q: Path, groupIds: seq<nat>)
  {
    forall g :: g in groupIds ==> !(GroupDir(g) <= q)
  }

  /** `rename_exercise_directories` with a changed title, a store whose
      source and target are ready and ready groups: it returns True, the
      canonical directory and every group's workspace are renamed with their
      contents. */
  lemma RenameExerciseDirectoriesMoves(fs: FS, oldTitle: string, newTitle: string, groupIds: seq<nat>)
    requires oldTitle != newTitle
    requires forall i, j :: 0 <= i < j < |groupIds| ==> groupIds[i] != groupIds[j]
    requires StepReady(fs, ExerciseFilesRoot, ExerciseDir(oldTitle), ExerciseDir(newTitle))
    requires forall g :: g in groupIds ==> GroupRenameReady(fs, g, oldTitle, newTitle)
    ensures var r := RenameExerciseDirectories(fs, oldTitle, newTitle, groupIds);
      r.0
      && (ExerciseDir(oldTitle) in fs ==>
            Subtree(r.1, ExerciseDir(newTitle)) == Subtree(fs, ExerciseDir(oldTitle))
            && ExerciseDir(oldTitle) !in r.1)
      && (forall g :: g in groupIds ==> GroupRenamed(fs, r.1, g, oldTitle, newTitle))
  {
    RenameStepMoves(fs, ExerciseFilesRoot, oldTitle, newTitle);
    var store := RenameStep(fs, ExerciseFilesRoot, ExerciseDir(oldTitle), ExerciseDir(newTitle));
    var fs1 := store.fs;
    assert Lineage(ExerciseFilesRoot) == {ExerciseFilesRoot} by {
      forall q | q in Lineage(ExerciseFilesRoot)
        ensures q == ExerciseFilesRoot
      {
        assert |q| == 1;
      }
    }
    // The store step changes nothing below the workspace root.
    forall q | UserFilesRoot <= q
      ensures (q in fs <==> q in fs1) && (q in fs ==> fs[q] == fs1[q])
    {
      assert q[0] == "user_directories";
      assert !(ExerciseDir(oldTitle) <= q) && !(ExerciseDir(newTitle) <= q);
    }
    forall g | g in groupIds
      ensures GroupRenameReady(fs1, g, oldTitle, newTitle)
      ensures Subtree(fs1, GroupDir(g)) == Subtree(fs, GroupDir(g))
      ensures Subtree(fs1, Workspace(g, oldTitle)) == Subtree(fs, Workspace(g, oldTitle))
    {
      SubtreeFrame(fs, fs1, GroupDir(g));
      SubtreeFrame(fs, fs1, Workspace(g, oldTitle));
      assert UserFilesRoot <= Workspace(g, oldTitle) && UserFilesRoot <= Workspace(g, newTitle);
    }
    RenameInGroupsMoves(fs1, groupIds, oldTitle, newTitle);
    var groups := RenameInGroups(fs1, groupIds, oldTitle, newTitle);
    // The group loop changes nothing in the exercise store.
    forall q | ExerciseFilesRoot <= q
      ensures (q in fs1 <==> q in groups.fs) && (q in fs1 ==> fs1[q] == groups.fs[q])
    {
      assert q[0] == "exercise_files";
      forall g | g in groupIds
        ensures !(GroupDir(g) <= q)
      {
        assert GroupDir(g)[0] == "user_directories";
      }
    }
    SubtreeFrame(fs1, groups.fs, ExerciseDir(newTitle));
    assert ExerciseFilesRoot <= ExerciseDir(oldTitle) && ExerciseFilesRoot <= ExerciseDir(newTitle);
  }

  /** Lesson titles need not be unique, so a lesson can be renamed to the
      title of another lesson whose directory exists. `shutil.move` then
      moves the canonical directory inside the other one, under its old
      title, and the rename still reports success. */
  lemma RenameOntoExistingTitleNests(fs: FS, a: string, b: string)
    requires a != b
    requires IsDir(fs, ExerciseFilesRoot)
    requires IsDir(fs, ExerciseDir(a)) && IsDir(fs, ExerciseDir(b))
    requires ExerciseDir(b) + [a] !in fs
    ensures var r := RenameStep(fs, ExerciseFilesRoot, ExerciseDir(a), ExerciseDir(b));
      && r.raised.None?
      && ExerciseDir(a) !in r.fs
      && IsDir(r.fs, ExerciseDir(b))
      && Subtree(r.fs, ExerciseDir(b) + [a]) == Subtree(fs, ExerciseDir(a))
    ensures RenameExerciseDirectories(fs, a, b, []).0
  {
    var from, to := ExerciseDir(a), ExerciseDir(b);
    var t := to + [a];
    forall q | q in Lineage(ExerciseFilesRoot)
      ensures IsDir(fs, q)
    {
      assert q <= ExerciseFilesRoot && |q| == 1;
      assert q == ExerciseFilesRoot;
    }
    MakeDirsNoop(fs, ExerciseFilesRoot);
    assert !(from <= t) by {
      assert t[1] == b && from[1] == a;
    }
    assert t[..|t| - 1] == to;
    assert CopyTarget(fs, from, to) == t;
    var moved := RemoveUnder(fs, from);
    assert Move(fs, from, to) == Ok(Replace(moved, t, Subtree(fs, from)));
    SubtreeOfReplace(moved, t, Subtree(fs, from));
    assert !(from <= to) by {
      assert to[1] == b;
    }
    assert !(t <= to) && !(t <= from);
  }
}
