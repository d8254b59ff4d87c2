# KursApp core in Dafny

KursApp is a single-course learning platform built with Django. Students work on Jupyter exercises in group workspaces, submit them, and are graded by instructors. This project models the platform's deterministic rules as immutable Dafny datatypes and pure functions, and proves properties of them.

- **Wrappers** (`wrappers.dfy`): `Option`, `Result` and `Outcome`, the failure-carrying types every module uses.
- **Text** (`text.dfy`): the string operations the code relies on. These are `strip` and `trim` (with their two different white-space sets), `lower`/`toLowerCase`, one-character `split` and `replace`, and decimal printing.
- **FileSystem** (`filesystem.dfy`): the file system as a finite map from paths to nodes. It provides `os.makedirs`, `shutil.rmtree`, `shutil.copytree` and `shutil.move`.
- **Models** (`models.dfy`): rules of the model layer:
  - the 2 GiB upload limit and where each kind of upload is stored;
  - one course per instructor;
  - module edit rights;
  - `Exercise.clean`, `Submission.save`;
  - the administrator's role switch.
- **Roster** (`roster.dfy`): group rosters:
  - automatic group numbering;
  - `Group.clean`, `can_add_member`, `add_member`, `remove_member`;
  - the `join_group` view.
- **Provisioning** (`provisioning.dfy`): copying the canonical exercise directory into every group's workspace (`copy_exercise_files`, `_copy_exercise_dir`, `start_group_copies`). Also renaming those directories along with a lesson title (`rename_exercise_directories`).
- **Collector** (`collector.dfy`): `submit_exercise`, which copies a group's workspace into the submissions area file by file.
- **Grading** (`grading.dfy`):
  - the grading page's score check;
  - the grade the server stores;
  - the latest submission of each group;
  - the group statistics.
- **Navigation** (`navigation.dfy`):
  - the lesson the overview offers to continue with;
  - `complete_lesson`;
  - the order numbers of new modules and lessons.
- **FileNames** (`filenames.dfy`): the `basename` template filter and the notebook name of `lesson_detail`.
- **Forms** and **ValidatedFields** (`forms.dfy`): the upload and submission forms, the multiple-file field, and the fields' `validate_file_size` validator run before the forms' own checks.
- **Points** (`points.dfy`): the lesson editor's `validateFiles` and the listeners on the points fields.
- **SiteSettings** (`settings.dfy`): the settings page's image and domain checks and the server's domain handling.
- **NotebookDiff** (`notebook_diff.dfy`): the grading page's cell-by-cell notebook comparison and its HTML escaping.
- **Durations** (`durations.dfy`): the learning page's ISO 8601 duration display, module totals and completion status.
- **Tickets** (`tickets.dfy`): the administrators' ticket filter and status labels.
- **Cookies** (`cookies.dfy`): `getCookie` and `getCsrfToken`, read against the `Cookie` header syntax of section 4.2.1 of RFC 6265.

Where a description of the system and the code disagree, the model follows the code:
- `submit_exercise` has no deadline check;
- it copies every file, and its destination has no timestamp segment;
- the server stores a grade without clamping it;
- `join_group` performs no enrollment check.

Iteration orders chosen by the database or by `os.walk` are parameters of the model. Numbers the page reads from the points fields with `parseInt` are `Option<int>`, where `None` stands for NaN; lesson durations are read from their text, as described in the section "Left out" below.

## Model

| member | source | states |
|---|---|---|
| Models.ValidateFileSize | SingleCourseWebApp/course/models.py:9-13 | an upload passes exactly when it has at most 2 GiB (2147483648 bytes); a refusal carries the "2GB" message |
| Models.JupyterlabImagePath | SingleCourseWebApp/course/models.py:15-16 | an image archive keeps its file name, one level below its own directory |
| Models.ExerciseFilePath | SingleCourseWebApp/course/models.py:18-28 | an exercise file keeps its name, two levels below the storage root |
| Models.MaterialFilePath | SingleCourseWebApp/course/models.py:30-40 | a material keeps its name, two levels below the storage root |
| Models.UploadsLandInExerciseDir | SingleCourseWebApp/course/models.py:18-40 | exercise files and materials are both stored directly in the lesson's canonical exercise directory, the one copied into group workspaces |
| Models.SubmissionFilePath | SingleCourseWebApp/course/models.py:42-68 | a student without a group gets "Student must be in a group to submit"; otherwise the file keeps its name four levels down, with no timestamp segment |
| Models.SubmissionPathMatchesCollector | SingleCourseWebApp/course/models.py:42-68 | an uploaded submission file lands exactly where the collector of `submit_exercise` copies a top-level workspace file |
| Models.ReferenceSolutionPath | SingleCourseWebApp/course/models.py:70-80 | a reference solution keeps its name, one level below its own directory |
| Models.TicketImagePath | SingleCourseWebApp/course/models.py:82-93 | a ticket image is stored as `ticket_<id>_<name>` under the ticket image directory |
| Models.TicketImagePathsDistinct | SingleCourseWebApp/course/models.py:82-93 | images of two different saved tickets never share a path, whatever their file names |
| Models.SaveCourse | SingleCourseWebApp/course/models.py:186-198 | a new course whose instructor already has a course is refused by `save`; the unique constraint refuses any other course saved with another course's instructor; otherwise the table is updated at that course only |
| Models.SaveCoursePreserves | SingleCourseWebApp/course/models.py:186-198 | a successful save keeps "one course per instructor" |
| Models.EditableModules | SingleCourseWebApp/course/models.py:249-258 | a module is editable exactly when the user is a superuser or the module's instructor |
| Models.EditRights | SingleCourseWebApp/course/models.py:249-258 | a superuser may edit every module, anyone else exactly their own modules, independently of the instructor and student flags |
| Models.ExerciseClean | SingleCourseWebApp/course/models.py:319-371 | a notebook exercise without a file fails with AttributeError (and exactly that case does); otherwise the exercise passes exactly when a notebook exercise's file and any reference solution end in ".ipynb" and the pass mark is at most the maximum, and a wrongly named notebook file is the error reported first |
| Models.SubmissionSave | SingleCourseWebApp/course/models.py:550-554 | with a score, `passed` is true exactly when score >= pass points; without one, `passed` is left as it was |
| Models.SubmissionSaveProperties | SingleCourseWebApp/course/models.py:550-554 | saving twice changes nothing more; a higher score never fails where a lower one passes; on a clean exercise the maximum score passes |
| Models.ChangeRole | SingleCourseWebApp/course/views.py:2375-2383 | "instructor" and "student" set the two role flags to opposite values, any other role leaves the user as it was |
| Models.ChangeRoleProperties | SingleCourseWebApp/course/views.py:2375-2383 | after a known role the flags are exclusive, and only the last switch to a known role counts |
| Models.AdminChangeRole | SingleCourseWebApp/course/views.py:2362-2388 | a non-superuser is refused before anything else; a role is changed exactly for a superuser's POST naming an existing user |
| Roster.FirstFree | SingleCourseWebApp/course/models.py:445-449 | the reference definition of the numbering: the least number at or above the start that is not in use, with every number in between in use |
| Roster.NextGroupNumber | SingleCourseWebApp/course/models.py:436-449 | counting up from 1 while the number is taken ends at a positive number that is unused, with every smaller positive number in use |
| Roster.NextNumberIsFirstFree | SingleCourseWebApp/course/models.py:436-449 | any number with those two properties is the least unused positive number, so the count-up agrees with the reference definition |
| Roster.OtherNumbers | SingleCourseWebApp/course/models.py:438-443 | the numbers in use are exactly those of the course's other groups that have a number |
| Roster.CheckMembers | SingleCourseWebApp/course/models.py:461-476 | the member loop passes exactly when no member is in another group of the course and every member is enrolled; a failure names one of the members |
| Roster.Clean | SingleCourseWebApp/course/models.py:451-476 | an oversized group fails with the size message first; otherwise, with the members listed, `clean` passes exactly when the group is within its size and every member is enrolled and in no other group |
| Roster.Save | SingleCourseWebApp/course/models.py:478-484 | `save` succeeds exactly when `clean` passes and the number is not another group's; an existing number is never changed, a missing one becomes the least unused positive number, and nothing else changes |
| Roster.SaveNew | SingleCourseWebApp/course/models.py:451-454 | a new group skips every member check, gets the given number or the least unused one, and fails only on a number in use |
| Roster.CanAddMember | SingleCourseWebApp/course/models.py:490-501 | the checks in their order: a full group gives "Group is full", then membership in any group of the course, then non-enrollment; a pass exactly when all three hold |
| Roster.AddMember | SingleCourseWebApp/course/models.py:503-510 | a refused student leaves everything unchanged and raises that reason; an accepted one is added to the group |
| Roster.RemoveMember | SingleCourseWebApp/course/models.py:512-518 | removing a non-member raises with no change; otherwise exactly that student leaves the group |
| Roster.SaveSucceeds | SingleCourseWebApp/course/models.py:451-484 | saving a group of a roster that satisfies every `clean` rule succeeds |
| Roster.SavePreserves | SingleCourseWebApp/course/models.py:478-484 | saving keeps sizes, one group per student, enrollment of members and unique numbers |
| Roster.AddMemberPreserves | SingleCourseWebApp/course/models.py:503-510 | `add_member` keeps the roster invariant, raises nothing exactly when `can_add_member` passes, and then changes only that group |
| Roster.RemoveMemberPreserves | SingleCourseWebApp/course/models.py:512-518 | `remove_member` keeps the roster invariant, raises nothing exactly for a member, and then changes only that group |
| Roster.SaveNewPreserves | SingleCourseWebApp/course/models.py:478-484 | creating a group keeps the roster invariant |
| Roster.JoinGroup | SingleCourseWebApp/course/views.py:1761-1780 | `join_group` as written: the user joins exactly when a group id is given, the group exists, the user is in no group of the course and the group is not full; there is no enrollment check |
| Roster.JoinGroupChecked | SingleCourseWebApp/course/views.py:1761-1780 | the corrected join: the same outcome as written, except that an unenrolled user is refused |
| Roster.JoinGroupKeepsSizeAndUniqueness | SingleCourseWebApp/course/views.py:1769-1778 | joining as written still keeps every group within its size and every student in one group |
| Roster.JoinGroupCheckedPreserves | SingleCourseWebApp/course/views.py:1769-1778 | the corrected join keeps the whole roster invariant, enrollment included |
| Roster.JoinGroupSkipsEnrollment | SingleCourseWebApp/course/views.py:1769-1778 | a concrete roster where `can_add_member` refuses an unenrolled student, `join_group` admits them, the roster invariant breaks, and the corrected join refuses |
| Roster.AddAfterUnenrolledJoin | SingleCourseWebApp/course/models.py:503-510 | after that join, a valid `add_member` on the same group keeps its new member but raises the unenrolled-member error of `clean` |
| FileSystem.AbsentMeansNothingUnder | SingleCourseWebApp/course/utils/files.py:16-18 | in a well-formed tree a missing directory has nothing below it, so copying to a missing destination cannot merge |
| FileSystem.Subtree | SingleCourseWebApp/course/utils/files.py:18 | the tree read by `copytree`: a relative path is in it exactly when the root extended by it exists, with the same node |
| FileSystem.Placed | SingleCourseWebApp/course/utils/files.py:18 | the tree written by `copytree`: exactly the destination extended by each relative path of the source tree |
| FileSystem.RemoveUnder | SingleCourseWebApp/course/utils/files.py:16-17 | the entries left by deleting a tree: exactly those not at or below it, unchanged |
| FileSystem.Lineage | SingleCourseWebApp/course/utils/files.py:15 | the directories `makedirs` may create: exactly the non-empty prefixes of the path |
| FileSystem.MakeDirs | SingleCourseWebApp/course/utils/files.py:15 | `makedirs` succeeds exactly when no prefix of the path is a file and the path is new or `exist_ok` is set; it adds the missing prefixes as directories and keeps everything else |
| FileSystem.RmTree | SingleCourseWebApp/course/utils/files.py:16-17 | `rmtree` succeeds exactly on a directory and removes exactly the tree below it |
| FileSystem.CopyTree | SingleCourseWebApp/course/utils/files.py:18 | `copytree` succeeds exactly when the source is a directory and the destination can be created anew; it adds the source tree below the destination |
| FileSystem.CopyFile | SingleCourseWebApp/course/views.py:1991 | `copy2` succeeds exactly for an existing file whose target is no directory and whose parent exists; it changes the target entry only |
| FileSystem.Move | SingleCourseWebApp/course/views.py:142 | `move` succeeds exactly when the source exists, the target is not inside the source, an existing target is a file replaced by a file, and the target's parent exists; onto a non-directory it removes the source and any old target and places the source tree at the target; onto an existing directory it places the source tree inside it, under the source's own last name |
| FileSystem.WalkFiles | SingleCourseWebApp/course/views.py:1980-1984 | the relative paths `os.walk` reports are exactly the files below a directory root; there are none when the root is not a directory |
| FileSystem.SubtreeOfPlaced | SingleCourseWebApp/course/utils/files.py:18 | copying into an empty place leaves exactly the copied tree there |
| FileSystem.SubtreeFrame | SingleCourseWebApp/course/views.py:98-114 | a tree is unaffected by changes outside it |
| FileSystem.ApartDisjoint | SingleCourseWebApp/course/views.py:98-114 | two paths neither of which contains the other have no entry in common |
| FileSystem.Replace | SingleCourseWebApp/course/utils/files.py:16-18 | replacing a tree changes nothing outside it |
| FileSystem.SubtreeOfReplace | SingleCourseWebApp/course/utils/files.py:16-18 | after replacing, the tree at the destination is exactly the new tree: replacement, not merge |
| FileSystem.SubtreeApartFromReplace | SingleCourseWebApp/course/utils/files.py:16-18 | a tree apart from the destination is the same after the replacement |
| FileSystem.ReplaceReplace | SingleCourseWebApp/course/utils/files.py:16-18 | replacing twice at the same place keeps only the second tree |
| FileSystem.ReplaceBySelf | SingleCourseWebApp/course/utils/files.py:16-18 | replacing a tree by its own contents changes nothing |
| FileSystem.RemoveNothing | SingleCourseWebApp/course/utils/files.py:16-17 | deleting below a path with nothing there changes nothing |
| FileSystem.MakeDirsNoop | SingleCourseWebApp/course/utils/files.py:15 | `makedirs(exist_ok=True)` of an existing directory changes nothing |
| FileSystem.MakeDirsWellFormed | SingleCourseWebApp/course/utils/files.py:15 | `makedirs` keeps every entry's ancestors directories |
| FileSystem.MakeDirsLeaf | SingleCourseWebApp/course/utils/files.py:18 | creating a new directory under existing ones adds just that directory |
| FileSystem.CopyTreeIntoEmpty | SingleCourseWebApp/course/utils/files.py:18 | `copytree` into an empty place under existing directories adds exactly the source tree there |
| FileSystem.DeleteThenCopy | SingleCourseWebApp/course/utils/files.py:16-18 | deleting the destination if it exists and then copying the source replaces the destination by the source tree |
| Provisioning.GroupDir | SingleCourseWebApp/course/views.py:99 | a group's directory lies directly below the workspace root |
| Provisioning.Workspace | SingleCourseWebApp/course/views.py:107 | a group's copy of an exercise lies directly below the group's directory |
| Provisioning.GroupDirsDisjoint | SingleCourseWebApp/course/views.py:99 | two different groups' directories have no entry in common, since `group_<id>` names differ for different ids |
| Provisioning.StoreAndWorkspacesApart | SingleCourseWebApp/course/views.py:98-107 | the canonical exercise directory and the group workspaces never contain one another |
| Provisioning.CopyExerciseFiles | SingleCourseWebApp/course/views.py:94-95 | without an exercise `copy_exercise_files` changes nothing |
| Provisioning.CopyExerciseDir | SingleCourseWebApp/course/utils/files.py:9-18 | the background job does not check its source: a missing canonical directory makes it raise |
| Provisioning.MakeGroupDirKeepsStore | SingleCourseWebApp/course/utils/files.py:15 | creating the group directory leaves the canonical exercise tree as it was |
| Provisioning.MakeGroupDir | SingleCourseWebApp/course/utils/files.py:15 | `makedirs(group_dir, exist_ok=True)` succeeds unless the workspace root or group directory is a file, and leaves both as directories |
| Provisioning.CopyAfterMakeDirs | SingleCourseWebApp/course/views.py:103-114 | once the group directory exists, deleting and copying replaces the workspace by the canonical tree in both helpers |
| Provisioning.CopyExerciseDirResult | SingleCourseWebApp/course/utils/files.py:15-18 | a ready copy job leaves exactly the state with the workspace replaced by the canonical tree |
| Provisioning.CopyExerciseDirReplaces | SingleCourseWebApp/course/utils/files.py:15-18 | a ready copy job succeeds; the workspace then holds exactly the canonical tree, earlier content is gone, and outside it only missing group directories are created |
| Provisioning.ReplaceWorkspaceKeeps | SingleCourseWebApp/course/utils/files.py:16-18 | replacing a workspace keeps the canonical tree and the group directories |
| Provisioning.CopyReadyAfterCopy | SingleCourseWebApp/course/utils/files.py:15-18 | after a copy the job can run again, and the canonical tree is untouched |
| Provisioning.CopyExerciseDirIdempotent | SingleCourseWebApp/course/utils/files.py:16-18 | running the same copy job twice leaves the state one run leaves |
| Provisioning.CopyHelpersAgree | SingleCourseWebApp/course/views.py:98-114 | when the copy can succeed, `copy_exercise_files` and the background job reach the same state |
| Provisioning.MissingSourceContrast | SingleCourseWebApp/course/views.py:103-117 | on a missing canonical directory the view only ensures the group directory and leaves the workspace as it was, while the background job raises |
| Provisioning.StartGroupCopies | SingleCourseWebApp/course/utils/files.py:22-32 | one job per listed group, in order, all for the lesson's title |
| Provisioning.RenameStep | SingleCourseWebApp/course/views.py:138-142 | a missing old directory is skipped without any change |
| Provisioning.RenameExerciseDirectories | SingleCourseWebApp/course/views.py:133-161 | the result is True exactly when neither the store step nor the group loop raised; moves made before an exception are kept |
| Provisioning.SaveLessonRename | SingleCourseWebApp/course/views.py:1068-1071 | `save_lesson` raises "Failed to rename exercise directories" exactly when the rename returns False, and in both cases the file system is the one the rename left, moves made before a failure included |
| Provisioning.RenameStepMoves | SingleCourseWebApp/course/views.py:151-155 | a ready rename moves the tree at the old title to the new title with its contents, removes the old path, and changes nothing else but missing parents |
| Provisioning.GroupStep | SingleCourseWebApp/course/views.py:148-156 | one group's step of the loop succeeds, renames that group's workspace and changes nothing outside that group's directory |
| Provisioning.SubtreeOfOtherGroup | SingleCourseWebApp/course/views.py:147-156 | a change confined to one group's directory leaves every other group's trees as they were |
| Provisioning.OtherGroupUnaffected | SingleCourseWebApp/course/views.py:147-156 | one group's step keeps every other group ready and its trees unchanged |
| Provisioning.RenameInGroupsMoves | SingleCourseWebApp/course/views.py:145-156 | for distinct ready groups the loop raises nothing, renames every group's workspace, and changes nothing outside their directories |
| Provisioning.ComposeOutcomes | SingleCourseWebApp/course/views.py:147-156 | the first group's outcome and the rest of the loop's outcomes combine into the outcome of the whole loop |
| Provisioning.ComposeFrame | SingleCourseWebApp/course/views.py:147-156 | the first step's frame and the rest of the loop's frame combine |
| Provisioning.RenameExerciseDirectoriesMoves | SingleCourseWebApp/course/views.py:133-158 | with a changed title and ready directories, the rename returns True, moves the canonical directory with its contents, and renames every group's workspace |
| Provisioning.RenameOntoExistingTitleNests | SingleCourseWebApp/course/views.py:138-157 | renaming an exercise onto the title of another existing exercise directory moves the old directory inside that one, under its old title, and the rename still reports success |
| Collector.SubmissionDir | SingleCourseWebApp/course/views.py:1968-1974 | the destination lies three levels down in the submissions area, with no timestamp segment |
| Collector.CollectFiles | SingleCourseWebApp/course/views.py:1980-1999 | the copy loop records one row per file it copied, in walk order, naming `dest/<relative path>`; without an exception it records every walked file; it never removes an entry |
| Collector.SubmitExercise | SingleCourseWebApp/course/views.py:1940-2006 | no group, or no workspace, gives the matching error with no submission created and no change; otherwise a submission is created, and a success reports as many files as were walked, each recorded under the fixed destination |
| Collector.PrefixCancel | SingleCourseWebApp/course/views.py:1984-1985 | prefixing two relative paths with the same directory does not change which one contains the other |
| Collector.ApartNotPrefix | SingleCourseWebApp/course/views.py:1952-1974 | no path inside the workspace contains a path inside the destination |
| Collector.CollectStep | SingleCourseWebApp/course/views.py:1988-1991 | one iteration on a ready file creates its directory and copies the file there with its content, adding only directories above it |
| Collector.ReadyAfterStep | SingleCourseWebApp/course/views.py:1980-1991 | copying one file keeps every other file that is not nested in it ready to be copied |
| Collector.RestCopyable | SingleCourseWebApp/course/views.py:1980-1991 | after the first copy the remaining files are still copyable and their sources unchanged |
| Collector.CollectCons | SingleCourseWebApp/course/views.py:1980-1991 | the first copy and the rest of the loop combine into the whole loop's effect |
| Collector.CollectAll | SingleCourseWebApp/course/views.py:1980-1999 | when every walked file is copyable, the loop raises nothing, copies every file with its content, and changes nothing off the copied files' ways |
| Collector.DistinctCount | SingleCourseWebApp/course/views.py:2005 | a listing without repetitions has as many distinct entries as entries |
| Collector.EnumerationCount | SingleCourseWebApp/course/views.py:2005 | a walk that lists each file once has as many entries as there are files, so the reported count is the number of files |
| Collector.InsideUntouched | SingleCourseWebApp/course/views.py:1952-1974 | nothing in the workspace lies on the way to a copied file |
| Collector.WalkNotNested | SingleCourseWebApp/course/views.py:1980-1981 | in a well-formed tree no walked file lies inside another |
| Collector.FreshDestinationReady | SingleCourseWebApp/course/views.py:1977-1991 | a group's first submission of a lesson finds nothing in the way of any file |
| Collector.ReadyAfterDest | SingleCourseWebApp/course/views.py:1977 | creating the destination keeps every walked file ready |
| Collector.PrepareCollect | SingleCourseWebApp/course/views.py:1977 | creating the destination leaves the workspace as it was and every walked file copyable |
| Collector.RowsNameFiles | SingleCourseWebApp/course/views.py:1993-1999 | the recorded rows name exactly the walked files |
| Collector.SubmitCollectsWorkspace | SingleCourseWebApp/course/views.py:1940-2006 | a group member's submission of a workspace whose files can all be placed copies every file with its content, records exactly one row per file, reports their number and leaves the workspace alone |
| Grading.SubmitGrade | SingleCourseWebApp/course/static/course/js/grade-submission.js:378-395 | an empty or non-numeric score is refused with the alert text; a number above a parsed maximum is lowered to it, anything else is sent as entered; there is no lower bound |
| Grading.GradeSubmission | SingleCourseWebApp/course/views.py:2217-2235 | a score that does not convert is an error; otherwise the score and feedback are stored as given and `passed` is score >= pass points |
| Grading.ClampOnlyOnClient | SingleCourseWebApp/course/views.py:2220-2223 | scores sent by the page stay within the maximum, while the server stores a score above the maximum or a negative one unchanged |
| Grading.LatestUpTo | SingleCourseWebApp/course/views.py:2126-2133 | after the loop every kept entry is a submission of its own group seen so far, and the key list and the dictionary hold the same groups |
| Grading.LatestCovers | SingleCourseWebApp/course/views.py:2126-2133 | every group seen so far has an entry |
| Grading.StepKeepsGroups | SingleCourseWebApp/course/views.py:2131-2133 | one step loses no group and adds the group of the submission seen |
| Grading.LatestKeysDistinct | SingleCourseWebApp/course/views.py:2131-2133 | each group enters the dictionary once |
| Grading.StepKeepsNewest | SingleCourseWebApp/course/views.py:2131-2133 | one step keeps every group's entry the first of its newest submissions, the new one included |
| Grading.LatestIsNewest | SingleCourseWebApp/course/views.py:2126-2133 | each kept entry is at least as new as every submission of its group, and on ties the earlier-seen one wins because the comparison is strict |
| Grading.InsertNewestFirst | SingleCourseWebApp/course/views.py:2136-2140 | insertion adds exactly the new element and puts it or the old head first |
| Grading.InsertKeepsNewestFirst | SingleCourseWebApp/course/views.py:2136-2140 | inserting into a list sorted newest first keeps it sorted |
| Grading.HeadIsNewest | SingleCourseWebApp/course/views.py:2136-2140 | the head of a sorted list is at least as new as anything inserted after it |
| Grading.NewestFirstCons | SingleCourseWebApp/course/views.py:2136-2140 | a newest element in front of a sorted list keeps it sorted |
| Grading.SortNewestFirst | SingleCourseWebApp/course/views.py:2136-2140 | the sort is a permutation of its input, ordered newest first |
| Grading.KeptInOrder | SingleCourseWebApp/course/views.py:2137 | the dictionary's values in key order: one entry per key, the kept submission of that key |
| Grading.LatestPerGroup | SingleCourseWebApp/course/views.py:2126-2140 | the list shown has one submission per group, only submissions that exist, an entry for every group with a submission, each the newest of its group, sorted newest first |
| Grading.LatestPerGroupFacts | SingleCourseWebApp/course/views.py:2126-2140 | the same five facts, proved for the dictionary values after sorting |
| Grading.KeptProperties | SingleCourseWebApp/course/views.py:2126-2137 | the dictionary's values hold one submission per group, each the newest of its group, and cover every group |
| Grading.KeptGroups | SingleCourseWebApp/course/views.py:2137 | distinct keys give values of distinct groups, all of them real submissions |
| Grading.KeptCovers | SingleCourseWebApp/course/views.py:2137 | every group with a submission has a value |
| Grading.KeptNewest | SingleCourseWebApp/course/views.py:2137 | every value is at least as new as every submission of its group |
| Grading.SortedKeepsProperties | SingleCourseWebApp/course/views.py:2136-2140 | sorting keeps the members and the distinct groups |
| Grading.DistinctGroupsCount | SingleCourseWebApp/course/views.py:2136-2140 | two positions of a permutation of a list with distinct groups hold distinct groups |
| Grading.MultiplicityAtLeastTwo | SingleCourseWebApp/course/views.py:2136-2140 | an element at two positions occurs twice |
| Grading.MultiplicityAtMostOne | SingleCourseWebApp/course/views.py:2136-2140 | in a list with distinct groups every element occurs at most once |
| Grading.GradedScores | SingleCourseWebApp/course/views.py:2286-2290 | the graded submissions of the members are at most all submissions |
| Grading.GradedScoresMembers | SingleCourseWebApp/course/views.py:2286-2290 | a score is listed exactly when some member's submission carries it |
| Grading.NothingGradedIff | SingleCourseWebApp/course/views.py:2286-2292 | no score is listed exactly when no member's submission is graded |
| Grading.Maximum | SingleCourseWebApp/course/views.py:2294 | the maximum is one of the scores and no score exceeds it |
| Grading.Statistics | SingleCourseWebApp/course/views.py:2284-2299 | the count is the number of graded member submissions; with none the record is all zeros; otherwise the maximum is a listed score, no score exceeds it and the average does not either |
| Grading.SumAtMost | SingleCourseWebApp/course/views.py:2293 | a sum of scores none above m is at most m times their number |
| Grading.AverageAtMostMax | SingleCourseWebApp/course/views.py:2293-2294 | the average never exceeds the best score |
| Grading.StatisticsZeroCase | SingleCourseWebApp/course/views.py:2292-2299 | the zero record appears exactly when no member's submission is graded |
| Navigation.Flatten | SingleCourseWebApp/course/views.py:368-369 | the lessons of all modules in module order; no modules give no lessons |
| Navigation.FirstNotDone | SingleCourseWebApp/course/views.py:369-372 | no lesson is found exactly when every lesson is completed; a found lesson is unfinished and every lesson before it is completed |
| Navigation.ScanIsFlatScan | SingleCourseWebApp/course/views.py:368-375 | the nested loop with its two breaks finds the same lesson as one scan over the flattened lessons |
| Navigation.FirstNotDoneAppend | SingleCourseWebApp/course/views.py:368-375 | scanning a joined list finds the first part's lesson when it has one and the second part's otherwise |
| Navigation.ContinueLesson | SingleCourseWebApp/course/views.py:366-381 | the lesson offered, when there is one, is a lesson of the course |
| Navigation.LastInFlatten | SingleCourseWebApp/course/views.py:378-381 | the last module's lessons are lessons of the course |
| Navigation.ContinueLessonChoice | SingleCourseWebApp/course/views.py:366-381 | with an unfinished lesson the overview offers the first one; with all finished it offers the last module's last lesson, or nothing for an empty course or an empty last module |
| Navigation.FirstBy | SingleCourseWebApp/course/views.py:1195-1198 | `order_by(...).first()` finds nothing only on an empty query and otherwise an element of least order |
| Navigation.Above | SingleCourseWebApp/course/views.py:1197 | the filter keeps exactly the elements whose order is above the bound |
| Navigation.CompleteLesson | SingleCourseWebApp/course/views.py:1177-1210 | the completion flag is toggled; unmarking answers the lesson itself, and completing the last lesson of the last module answers the lesson itself too |
| Navigation.CompleteLessonNextInModule | SingleCourseWebApp/course/views.py:1194-1198 | with a later lesson in the module the answer is a later lesson of least order |
| Navigation.CompleteLessonNextModule | SingleCourseWebApp/course/views.py:1200-1207 | at the end of a module the answer is the first lesson by order of the next module by order, or nothing when that module has no lessons |
| Navigation.NoLaterLesson | SingleCourseWebApp/course/views.py:1195-1198 | without a later lesson the module's query is empty |
| Navigation.AboveNothing | SingleCourseWebApp/course/views.py:1197 | a filter that no element passes is empty |
| Navigation.NextModuleIs | SingleCourseWebApp/course/views.py:1202-1204 | with a later module the query picks a later module of least order |
| Navigation.CompleteLessonToggles | SingleCourseWebApp/course/views.py:1177-1212 | completing twice restores the flag, and the second call, an unmarking, answers the lesson itself |
| Navigation.NextOrder | SingleCourseWebApp/course/views.py:549-550 | a new order is at least 1, above every existing order, and one more than the largest existing one (or 1 for none) |
| Navigation.CreateKeepsOrdersDistinct | SingleCourseWebApp/course/views.py:915 | creating one item after another keeps all orders distinct and the new item's order the largest |
| NotebookDiff.ClearCell | SingleCourseWebApp/course/static/course/js/grade-submission.js:243-246 | a code cell loses its outputs and execution count and keeps its type and source; any other cell is left as it is |
| NotebookDiff.ClearCells | SingleCourseWebApp/course/static/course/js/grade-submission.js:242-247 | clearing a list of cells keeps their number and clears each cell in place |
| NotebookDiff.ClearNotebookOutputs | SingleCourseWebApp/course/static/course/js/grade-submission.js:240-249 | a notebook without cells is unchanged; otherwise it keeps its number of cells and each cell is cleared in place |
| NotebookDiff.ClearIdempotent | SingleCourseWebApp/course/static/course/js/grade-submission.js:240-249 | clearing outputs twice is the same as clearing them once |
| NotebookDiff.CellContent | SingleCourseWebApp/course/static/course/js/grade-submission.js:305-311 | a cell's text is its source lines joined with no separator, as long as all of them together, whatever the cell type; a source given as one string has no `join`, and exactly then there is no text |
| NotebookDiff.ClearKeepsContent | SingleCourseWebApp/course/static/course/js/grade-submission.js:240-249 | clearing outputs does not change a cell's text |
| NotebookDiff.RowAt | SingleCourseWebApp/course/static/course/js/grade-submission.js:266-297 | one row: added past the end of the reference, removed past the end of the submission, otherwise unchanged when the texts are equal and changed when not |
| NotebookDiff.GenerateNotebookDiff | SingleCourseWebApp/course/static/course/js/grade-submission.js:251-355 | the comparison throws exactly when a cell of either notebook has its source as one string, since every cell's source is joined; otherwise a missing `cells` counts as no cells and there is one row per index up to the longer notebook, each row as described for one index |
| NotebookDiff.DisplayNotebookDiff | SingleCourseWebApp/course/static/course/js/grade-submission.js:203-237 | the alert "Error comparing notebooks" replaces the diff exactly when either text does not parse or either notebook has a cell whose source is one string; otherwise the diff shows the rows of the two notebooks with outputs cleared |
| NotebookDiff.ClearKeepsJoinable | SingleCourseWebApp/course/static/course/js/grade-submission.js:239-249 | clearing outputs leaves every source as it was, so it neither causes nor prevents the comparison's failure |
| NotebookDiff.DiffRows | SingleCourseWebApp/course/static/course/js/grade-submission.js:262-299 | the rows as a function of the two cell lists, one per index up to the longer one |
| NotebookDiff.DiffLosesNothing | SingleCourseWebApp/course/static/course/js/grade-submission.js:262-299 | the left side lists exactly the reference cells in order, and the right side exactly the submission's cell texts in order, one for every submission cell when all sources are lists |
| NotebookDiff.SelfDiffUnchanged | SingleCourseWebApp/course/static/course/js/grade-submission.js:283-290 | comparing a notebook with itself marks every cell unchanged |
| NotebookDiff.DiffTails | SingleCourseWebApp/course/static/course/js/grade-submission.js:270-281 | rows are added exactly past the end of the reference and removed exactly past the end of the submission |
| NotebookDiff.DiffIgnoresOutputs | SingleCourseWebApp/course/static/course/js/grade-submission.js:240-297 | clearing outputs on both sides before comparing does not change which rows are unchanged or changed |
| NotebookDiff.ReplaceAllAppend | SingleCourseWebApp/course/static/course/js/grade-submission.js:436-441 | a global replacement of one character splits over concatenation |
| NotebookDiff.ReplaceAllOne | SingleCourseWebApp/course/static/course/js/grade-submission.js:436-441 | a one-character string becomes the replacement when it is the character and stays otherwise |
| NotebookDiff.ReplaceAllKeeps | SingleCourseWebApp/course/static/course/js/grade-submission.js:436-441 | a global replacement leaves a text without the character as it is, and a non-empty replacement never shortens the text |
| NotebookDiff.EscapeHtml | SingleCourseWebApp/course/static/course/js/grade-submission.js:435-442 | escaping never shortens the text and leaves a text with none of `&`, `<`, `>`, `"`, `'` as it is |
| NotebookDiff.Unescape | SingleCourseWebApp/course/static/course/js/grade-submission.js:435-442 | the decoder used to state that escaping loses nothing: it never lengthens a text and leaves one without `&` as it is |
| NotebookDiff.EscapeHtmlCharwise | SingleCourseWebApp/course/static/course/js/grade-submission.js:435-442 | the five replacements in sequence equal escaping character by character, because the ampersand goes first and no later entity holds a character replaced after it |
| NotebookDiff.EscapeAppend | SingleCourseWebApp/course/static/course/js/grade-submission.js:435-442 | escaping splits over concatenation |
| NotebookDiff.EscapeOne | SingleCourseWebApp/course/static/course/js/grade-submission.js:435-442 | escaping one character gives that character's entity or the character itself |
| NotebookDiff.EscapeAmp | SingleCourseWebApp/course/static/course/js/grade-submission.js:437 | an ampersand becomes `&amp;` |
| NotebookDiff.EscapeLt | SingleCourseWebApp/course/static/course/js/grade-submission.js:438 | `<` becomes `&lt;` |
| NotebookDiff.EscapeGt | SingleCourseWebApp/course/static/course/js/grade-submission.js:439 | `>` becomes `&gt;` |
| NotebookDiff.EscapeQuot | SingleCourseWebApp/course/static/course/js/grade-submission.js:440 | a double quote becomes `&quot;` |
| NotebookDiff.EscapeApos | SingleCourseWebApp/course/static/course/js/grade-submission.js:441 | a single quote becomes `&#039;` |
| NotebookDiff.EscapePlain | SingleCourseWebApp/course/static/course/js/grade-submission.js:435-442 | any other character is left as it is |
| NotebookDiff.EscapedHasNoMarkup | SingleCourseWebApp/course/static/course/js/grade-submission.js:435-442 | escaped text holds no `<`, `>`, `"` or `'` |
| NotebookDiff.EscapedAmpsBeginEntities | SingleCourseWebApp/course/static/course/js/grade-submission.js:435-442 | every ampersand of the escaped text begins one of the five entities, so nothing is escaped twice |
| NotebookDiff.UnescapeAfterChar | SingleCourseWebApp/course/static/course/js/grade-submission.js:435-442 | reading back one escaped character gives that character, whatever follows |
| NotebookDiff.EscapeRoundTrip | SingleCourseWebApp/course/static/course/js/grade-submission.js:435-442 | reading the escaped text back gives the original text |
| Points.CheckPoints | SingleCourseWebApp/course/static/course/js/manage-modules.js:1328-1356 | the points pass exactly when neither value is a number below its bound and the pass mark is not above the maximum, comparisons with a non-number being false; a passing form is left unchanged; a failing one gets maximum 1 when it was below 1, a pass mark above the maximum set to the old maximum, and otherwise a pass mark below 0 set to 0, every other value kept |
| Points.CheckPointsLeavesNegativePass | SingleCourseWebApp/course/static/course/js/manage-modules.js:1338-1355 | with maximum -5 and pass mark 0 the maximum becomes 1 but the pass mark is set to the old maximum -5 |
| Points.CheckPointsCorrected | SingleCourseWebApp/course/static/course/js/manage-modules.js:1338-1355 | the same verdict as the checks as written and the same correction of the maximum; a passing form is left unchanged, and the corrected pass mark is never negative nor above the corrected maximum |
| Points.ValidateFiles | SingleCourseWebApp/course/static/course/js/manage-modules.js:1323-1391 | the upload goes ahead exactly when the points checks pass for an exercise with points and neither file field is cleared; the notebook is cleared exactly when it does not end in `.ipynb`, the materials exactly when one has a disallowed extension; a non-exercise keeps its points |
| Points.CorrectedPointsConsistent | SingleCourseWebApp/course/static/course/js/manage-modules.js:1338-1355 | after the corrected checks two numbers satisfy 1 <= max and 0 <= pass <= max, and a second run accepts them unchanged |
| Points.CorrectedAgreesFromOne | SingleCourseWebApp/course/static/course/js/manage-modules.js:1338-1355 | the correction agrees with the checks as written whenever the maximum is not below 1 |
| Points.CorrectedDiffers | SingleCourseWebApp/course/static/course/js/manage-modules.js:1338-1355 | on maximum -5 and pass mark 0 the corrected checks leave pass mark 0, unlike the checks as written |
| Points.ClientExtension | SingleCourseWebApp/course/static/course/js/manage-modules.js:1370 | the page's extension starts with a dot and holds no other dot |
| Points.ValidateFilesMeaning | SingleCourseWebApp/course/static/course/js/manage-modules.js:1323-1391 | the upload goes ahead exactly when the points checks pass for an exercise with both fields, a chosen notebook ends in `.ipynb`, and every material's extension is allowed; a valid form and a non-exercise keep their points |
| Points.MaterialChecksAgree | SingleCourseWebApp/course/forms.py:124-131 | for a name `stem.e` with an ordinary stem the page's extension check and the server's agree |
| Points.HiddenMaterialChecksDisagree | SingleCourseWebApp/course/forms.py:127-128 | ".py" passes the page's check and is refused by the server, which sees no extension |
| Points.NotebookChecksAgree | SingleCourseWebApp/course/forms.py:114-115 | for a file within the size limit the page and the server accept the same notebook names |
| Points.OnChange | SingleCourseWebApp/course/static/course/js/manage-modules.js:1072-1084 | a change lowers a pass mark above the maximum to it, leaves the maximum alone and changes nothing else |
| Points.OnMaxInput | SingleCourseWebApp/course/static/course/js/manage-modules.js:1087-1091 | input on the maximum raises a value below 1 to 1 and leaves the pass mark alone |
| Points.OnPassInput | SingleCourseWebApp/course/static/course/js/manage-modules.js:1093-1101 | input on the pass mark leaves the maximum alone and never leaves the pass mark above it |
| Points.ListenersSatisfyChecks | SingleCourseWebApp/course/static/course/js/manage-modules.js:1072-1101 | two numbers that went through the input listeners pass the upload checks unchanged |
| SiteSettings.DomainExamples | SingleCourseWebApp/course/views.py:428 | "abc" matches the server's pattern but is refused by the page; "a.de" passes both; names starting with `-` or ending in `.` or `-` match neither |
| SiteSettings.SaveDomain | SingleCourseWebApp/course/views.py:424-435 | the value is stripped with Python's white space; an empty value clears the domain, a value matching the pattern is stored stripped, anything else is refused with "Invalid domain name format" |
| SiteSettings.ScanName | SingleCourseWebApp/course/static/course/js/manage-settings.js:118 | a one-pass scan accepts exactly the lower-case alphanumeric runs joined by single `.`, `_` or `-` |
| SiteSettings.FirstFrom | SingleCourseWebApp/course/static/course/js/manage-settings.js:118 | the first position at or after a start that holds the character, or the length when none does |
| SiteSettings.IsValidDockerImage | SingleCourseWebApp/course/static/course/js/manage-settings.js:115-120 | the deterministic check accepts only names that fit `[registry/]name[:tag]` |
| SiteSettings.NameHasNoDelimiters | SingleCourseWebApp/course/static/course/js/manage-settings.js:118 | no name part holds a `/` or a `:` |
| SiteSettings.ImagePatternDeterministic | SingleCourseWebApp/course/static/course/js/manage-settings.js:115-120 | the check accepts exactly the names for which some split fits the regular expression |
| SiteSettings.SplitIsFirst | SingleCourseWebApp/course/static/course/js/manage-settings.js:118 | any fitting split puts the registry's end at the first `/` and the tag's start at the first `:` after it |
| SiteSettings.ImagesAccepted | SingleCourseWebApp/course/static/course/js/manage-settings.js:118 | "a/b:c" and "ubuntu" are accepted |
| SiteSettings.DoubleSeparatorRefused | SingleCourseWebApp/course/static/course/js/manage-settings.js:118 | two separators in a row are refused |
| SiteSettings.SecondSlashRefused | SingleCourseWebApp/course/static/course/js/manage-settings.js:118 | a second `/` is refused |
| SiteSettings.UpperCaseAndEmptyRefused | SingleCourseWebApp/course/static/course/js/manage-settings.js:118 | the empty name and an upper-case name are refused |
| SiteSettings.SubmitGuard | SingleCourseWebApp/course/static/course/js/manage-settings.js:16-26 | the form is posted exactly when each non-blank trimmed field passes its check; a bad image is reported before a bad domain |
| SiteSettings.SubmittedDomainIsStored | SingleCourseWebApp/course/views.py:424-435 | a form the page posts is never refused by the server for its domain, and a non-blank domain is stored as the page trimmed it, the server's wider white space removing nothing more |
| SiteSettings.ImageOfParts | SingleCourseWebApp/course/static/course/js/manage-settings.js:117-118 | any `registry/name:tag` built from three valid names is accepted |
| SiteSettings.AlertExampleAccepted | SingleCourseWebApp/course/static/course/js/manage-settings.js:18 | the example the alert gives, "jupyter/datascience-notebook:latest", is accepted |
| Tickets.GetStatusValue | SingleCourseWebApp/course/static/course/js/admin/ticket-management.js:184-190 | the result is always one of the three status values, and "open" when no label matches |
| Tickets.StatusLabelRoundTrip | SingleCourseWebApp/course/static/course/js/admin/ticket-management.js:9-13 | turning a status's label back into a status gives that status |
| Tickets.UnknownLabelIsOpen | SingleCourseWebApp/course/static/course/js/admin/ticket-management.js:189 | a label gives "open" exactly when it is the label of "open" or is not in the map at all |
| Tickets.FilterTickets | SingleCourseWebApp/course/static/course/js/admin/ticket-management.js:93-103 | every listed ticket matches the status filter ("all" or equal status) and has a field whose lower-cased text contains the lower-cased query |
| Tickets.MatchesStatus | SingleCourseWebApp/course/static/course/js/admin/ticket-management.js:98 | a ticket passes exactly when the filter is "all" or equals its status |
| Tickets.MatchesSearch | SingleCourseWebApp/course/static/course/js/admin/ticket-management.js:99-101 | a ticket matches exactly when the lower-cased query occurs in the lower-cased status or in one of its other field values; the empty query matches every ticket |
| Tickets.FilterIsSubsequence | SingleCourseWebApp/course/static/course/js/admin/ticket-management.js:97 | the filter keeps the tickets' order |
| Tickets.FilterMembership | SingleCourseWebApp/course/static/course/js/admin/ticket-management.js:97-103 | a ticket is listed exactly when it is in the list and passes both tests |
| Tickets.EmptyQueryKeepsAll | SingleCourseWebApp/course/static/course/js/admin/ticket-management.js:94-103 | with "all" and an empty search every ticket is listed |
| Tickets.SearchIgnoresQueryCase | SingleCourseWebApp/course/static/course/js/admin/ticket-management.js:95-100 | the search gives the same answer for a query and its lower-cased form |
| Durations.ValueOfNatToString | SingleCourseWebApp/course/static/course/js/learn.js:51-54 | `parseInt` reads back the decimal text of any number as that number |
| Durations.DigitRunEndIs | SingleCourseWebApp/course/static/course/js/learn.js:48 | a run of digits ends at the first non-digit |
| Durations.Group | SingleCourseWebApp/course/static/course/js/learn.js:48 | an optional group `(\d+X)` that matches spans at least one digit and its unit letter |
| Durations.GroupAt | SingleCourseWebApp/course/static/course/js/learn.js:48-54 | a group found in place is read as the number its digits spell |
| Durations.Leftmost | SingleCourseWebApp/course/static/course/js/learn.js:48 | an unanchored match fails exactly when it fails at every position |
| Durations.LeftmostIs | SingleCourseWebApp/course/static/course/js/learn.js:48 | the match is the one at the first position where the pattern matches |
| Durations.MatchDuration | SingleCourseWebApp/course/static/course/js/learn.js:48 | the pattern fails exactly when it matches at no position of the text, and always fails on a text without `P` |
| Durations.DurationPartsSeconds | SingleCourseWebApp/course/static/course/js/learn.js:59-76 | the parts shown add up to the whole duration, except that seconds are dropped when days or hours are shown |
| Durations.DurationPartsSum | SingleCourseWebApp/course/static/course/js/learn.js:59-76 | the seconds the shown parts stand for, counted exactly |
| Durations.DurationPartsOrdered | SingleCourseWebApp/course/static/course/js/learn.js:59-76 | units appear in the order days, hours, minutes, seconds, so none appears twice |
| Durations.FormatDuration | SingleCourseWebApp/course/static/course/js/learn.js:44-79 | empty input gives the empty text, text the pattern does not match is returned unchanged, and a match is shown as its parts |
| Durations.ZeroDurationShowsMinutes | SingleCourseWebApp/course/static/course/js/learn.js:68-71 | a zero duration is shown as "0 Min" |
| Durations.DayLabels | SingleCourseWebApp/course/static/course/js/learn.js:59-66 | one day is shown as "1 Tag", two as "2 Tage", and with days or hours shown the seconds are dropped |
| Durations.MatchDesignated | SingleCourseWebApp/course/static/course/js/learn.js:48-54 | `P<d>DT<h>H<m>M<s>S` is matched and read as those four numbers |
| Durations.MatchLayout | SingleCourseWebApp/course/static/course/js/learn.js:48-54 | any text laid out as the designator form is read as its four numbers |
| Durations.FormatDesignated | SingleCourseWebApp/course/static/course/js/learn.js:44-79 | formatting the designator form of a duration shows that duration's parts |
| Durations.CeilDiv | SingleCourseWebApp/course/static/course/js/learn.js:140 | `Math.ceil(a / b)`: the least whole number whose multiple of b reaches a |
| Durations.DurationMinutes | SingleCourseWebApp/course/static/course/js/learn.js:140 | the minutes of a duration are the whole duration rounded up to a minute |
| Durations.NoPTCountsNothing | SingleCourseWebApp/course/static/course/js/learn.js:118-156 | without `debug_minutes`, a text in which `P` is never followed by `T` and which is not a number adds no minutes |
| Durations.LessonMinutes | SingleCourseWebApp/course/static/course/js/learn.js:112-156 | a lesson with `debug_minutes` adds exactly that number, and one with no duration text adds nothing |
| Durations.SimpleMinutes | SingleCourseWebApp/course/static/course/js/learn.js:123-129 | when the first `PT` of the text begins `PT<t>M`, the lesson adds the number `t` spells, in the page's reading and in the corrected one |
| Durations.FullMinutes | SingleCourseWebApp/course/static/course/js/learn.js:123-143 | when the text's only `PT` is followed by optional `<b>H`, `<c>M`, `<e>S` groups, a missing group counting 0, the lesson adds 60 times b plus c plus e seconds rounded up to whole minutes; when the hours group is missing and the minutes group present, the simple `PT<c>M` reading wins and the seconds are dropped |
| Durations.HoursAndMinutesExample | SingleCourseWebApp/course/static/course/js/learn.js:131-143 | "PT1H30M" counts 90 minutes |
| Durations.SecondsOnlyExample | SingleCourseWebApp/course/static/course/js/learn.js:131-143 | "PT45S" counts 1 minute: the seconds round up |
| Durations.HoursOnlyExample | SingleCourseWebApp/course/static/course/js/learn.js:131-143 | "PT2H" counts 120 minutes |
| Durations.NoGroupExample | SingleCourseWebApp/course/static/course/js/learn.js:131-143 | "PT" alone matches with every group missing and counts 0 minutes |
| Durations.MinutesFirstExample | SingleCourseWebApp/course/static/course/js/learn.js:123-129 | "PT30M15S" counts 30 minutes: the simple reading takes it first and ignores the seconds |
| Durations.SecondsMinutes | SingleCourseWebApp/course/static/course/js/learn.js:145-151 | a text of digits only is a number of seconds and adds them rounded up to whole minutes, in both readings |
| Durations.LessonMinutesCorrected | SingleCourseWebApp/course/static/course/js/learn.js:112-156 | the corrected reading keeps `debug_minutes`, and agrees with the page wherever `PT<m>M` matches or the day-aware pattern does not match |
| Durations.FullNeedsMatch | SingleCourseWebApp/course/static/course/js/learn.js:134 | wherever the page's full pattern matches, the day-aware pattern matches as well, so the correction only adds readings |
| Durations.ValueOfPad2 | SingleCourseWebApp/course/views.py:360 | two-digit padding does not change the number read back |
| Durations.EncodedDuration | SingleCourseWebApp/course/views.py:360 | the encoder's text starts with `P` and the day-aware pattern reads it back as the same duration |
| Durations.DesignatedHasNoPT | SingleCourseWebApp/course/views.py:360 | a `P<d>DT<h>H<m>M<s>S` text with a non-empty day count never holds `PT` and is not all digits |
| Durations.EncodedHasNoPT | SingleCourseWebApp/course/views.py:360 | the encoder's text `P<d>DT<hh>H<mm>M<ss>S` never holds `PT` and is not a plain number |
| Durations.EncodedDurationCountsNothing | SingleCourseWebApp/course/static/course/js/learn.js:112-156 | a lesson duration as the encoder sends it adds no minutes to its module |
| Durations.EncodedDurationCorrected | SingleCourseWebApp/course/static/course/js/learn.js:112-156 | read with the day-aware pattern, the same text adds the duration's minutes, seconds rounded up |
| Durations.CountCompleted | SingleCourseWebApp/course/static/course/js/learn.js:165-167 | no more lessons are completed than there are lessons |
| Durations.CountExercises | SingleCourseWebApp/course/static/course/js/learn.js:104-105 | no more lessons are exercises than there are lessons |
| Durations.CountCompletedExercises | SingleCourseWebApp/course/static/course/js/learn.js:104-108 | completed exercises are at most the exercises and at most the completed lessons |
| Durations.ModuleStatistics | SingleCourseWebApp/course/static/course/js/learn.js:85-168 | the loop's totals: minutes summed lesson by lesson, the number of lessons, completed lessons, exercises and completed exercises |
| Durations.SumMinutes | SingleCourseWebApp/course/static/course/js/learn.js:97-160 | the summed minutes are 0 exactly when every lesson adds 0 |
| Durations.EncodedModuleTotals | SingleCourseWebApp/course/static/course/js/learn.js:97-168 | when every lesson arrives in the encoder's form the module's total is 0, while the corrected total is the sum of the lessons' lengths |
| Durations.ClockParts | SingleCourseWebApp/course/static/course/js/learn.js:174-188 | a total always shows at least one part |
| Durations.ClockPartsMeaning | SingleCourseWebApp/course/static/course/js/learn.js:174-188 | the hours and minutes shown add up to the total, the minutes stay below an hour, and hours lead exactly from an hour on |
| Durations.ModuleDurationText | SingleCourseWebApp/course/static/course/js/learn.js:172-189 | the module text is always the rendered clock parts of a positive number of minutes: the fallback "10 Min" for a zero total is exactly how ten minutes render |
| Durations.DisplayedMinutes | SingleCourseWebApp/course/static/course/js/learn.js:198-220 | the card always shows a positive length: the total when there is one |
| Durations.DisplayedDurationText | SingleCourseWebApp/course/static/course/js/learn.js:198-220 | the card's text is the module text of the length shown; since that length is never 0, the fallback text used for a zero total is never shown |
| Durations.EncodedModuleShowsPlaceholder | SingleCourseWebApp/course/static/course/js/learn.js:198-217 | a module whose lessons all arrive in the encoder's form shows 15 minutes plus 15 per earlier module, whatever its lessons take |
| Durations.Percentage | SingleCourseWebApp/course/static/course/js/learn.js:194 | the completion is 0 without lessons, otherwise the nearest whole percentage, halves rounded up |
| Durations.PercentageBounded | SingleCourseWebApp/course/static/course/js/learn.js:194 | the completion never exceeds 100 and is 100 when all lessons are done |
| Durations.PercentageFull | SingleCourseWebApp/course/static/course/js/learn.js:194 | 100 is shown exactly when at least 99.5% of the lessons are done |
| Durations.PercentageNone | SingleCourseWebApp/course/static/course/js/learn.js:194 | 0 is shown exactly when less than half a percent is done |
| Durations.PercentageSmallModules | SingleCourseWebApp/course/static/course/js/learn.js:194 | below 200 lessons, 100 means all done and 0 means none done |
| Durations.PercentageLargeModule | SingleCourseWebApp/course/static/course/js/learn.js:194 | from 200 lessons on, one open lesson still shows 100 |
| Durations.StatusOfCounts | SingleCourseWebApp/course/static/course/js/learn.js:231-237 | the card is complete exactly when there are lessons and at least 99.5% are done, and not started exactly when there are none or less than half a percent is done |
| Durations.StatusClass | SingleCourseWebApp/course/static/course/js/learn.js:231-237 | the card is marked complete exactly at 100 percent and not started exactly at 0 |
| Cookies.FirstNamed | SingleCourseWebApp/course/static/course/js/home.js:73-79 | the loop's stopping point lies between its start and the number of pieces |
| Cookies.FirstNamedMeaning | SingleCourseWebApp/course/static/course/js/home.js:73-79 | no piece before the stopping point starts with `name=`, and the piece found does |
| Cookies.FirstNamedIs | SingleCourseWebApp/course/static/course/js/home.js:73-79 | the loop stops at the first piece that starts with `name=` |
| Cookies.FoundIsLonger | SingleCourseWebApp/course/static/course/js/home.js:75-76 | the piece found is longer than `name=`'s name part, so its value can be cut out |
| Cookies.GetCookie | SingleCourseWebApp/course/static/course/js/home.js:69-82 | an empty cookie string gives no value |
| Cookies.GetCookieMeaning | SingleCourseWebApp/course/static/course/js/home.js:69-82 | no value is found exactly when no trimmed piece starts with `name=`; otherwise the value is the rest of the first such piece |
| Cookies.EmptyCookieString | SingleCourseWebApp/course/static/course/js/home.js:71-72 | splitting the empty string gives one empty piece, which is no cookie |
| Cookies.NameSplit | SingleCourseWebApp/course/static/course/js/manage-modules.js:49-52 | a piece that starts with `name=` splits at `=` into the name and the pieces of its value |
| Cookies.SplitAfterPiece | SingleCourseWebApp/course/static/course/js/manage-modules.js:52 | splitting cuts at the first separator |
| Cookies.CsrfTokenFromCookie | SingleCourseWebApp/course/static/course/js/manage-modules.js:44-53 | with a `csrftoken` cookie the token is its value up to the first `=` |
| Cookies.CsrfTokenFromForm | SingleCourseWebApp/course/static/course/js/manage-modules.js:55-62 | without the cookie the token is the form's, or empty when the page has none |
| Cookies.GetCsrfToken | SingleCourseWebApp/course/static/course/js/manage-modules.js:44-63 | with a `csrftoken` cookie the token is its value up to the first `=`; without one the token is the form's hidden field, or empty when the page has none |
| Cookies.CsrfTokenDiffersOnEquals | SingleCourseWebApp/course/static/course/js/manage-modules.js:44-53 | the editor's token equals the value `getCookie` reads exactly when that value holds no `=` |
| Cookies.SingleCookie | SingleCourseWebApp/course/static/course/js/home.js:72-74 | a trimmed text without `;` is a cookie string of one piece |
| Cookies.ValueKeepsEquals | SingleCourseWebApp/course/static/course/js/home.js:75-76 | `getCookie` reads "csrftoken=a=b" as "a=b" |
| Cookies.CsrfTokenCutsAtEquals | SingleCourseWebApp/course/static/course/js/manage-modules.js:52 | the editor reads the same cookie as "a" |
| Cookies.LongerNameDoesNotMatch | SingleCourseWebApp/course/static/course/js/home.js:75 | a cookie whose name only starts with the requested name is not found |
| Cookies.HeaderPieces | SingleCourseWebApp/course/static/course/js/home.js:72 | splitting a rendered header at `;` gives one piece per pair, all but the first led by a space |
| Cookies.PairTextTrimmed | SingleCourseWebApp/course/static/course/js/home.js:74 | a well-formed pair has no white space to trim |
| Cookies.PairTextHasNoSemicolon | SingleCourseWebApp/course/static/course/js/home.js:72 | a well-formed pair holds no `;` |
| Cookies.TrimLeadingSpace | SingleCourseWebApp/course/static/course/js/home.js:74 | trimming drops the space before a pair |
| Cookies.HeaderPiece | SingleCourseWebApp/course/static/course/js/home.js:72-74 | each piece of a well-formed header holds no `;` and trims to its pair |
| Cookies.NamesIffSameName | SingleCourseWebApp/course/static/course/js/home.js:75 | `n1=v` starts with `n2=` exactly when the names are equal, for names without `=` |
| Cookies.CookieHeaderRoundTrip | SingleCourseWebApp/course/static/course/js/home.js:69-82 | reading a cookie from a well-formed header gives the value of the first pair with that name |
| Cookies.HeaderTexts | SingleCourseWebApp/course/static/course/js/home.js:72-74 | the trimmed pieces of a well-formed header are exactly its pairs |
| Cookies.HeaderNotEmpty | SingleCourseWebApp/course/static/course/js/home.js:71 | a well-formed header is never empty, so the lookup is attempted |
| Forms.CleanNotebook | SingleCourseWebApp/course/forms.py:110-118 | an absent or nameless file passes unchanged; a name not ending in ".ipynb" is refused first, then a file above the limit; anything else passes unchanged |
| Forms.NotebookExtensionCaseSensitive | SingleCourseWebApp/course/forms.py:114 | "lab.IPYNB" is refused and "lab.ipynb" at the limit is accepted |
| Forms.DotRun | SingleCourseWebApp/course/forms.py:127 | the run of dots from a position: all dots, ended by the text's end or a non-dot |
| Forms.SplitExt | SingleCourseWebApp/course/forms.py:127 | the extension is part of the name, never longer than it |
| Forms.SplitExtShape | SingleCourseWebApp/course/forms.py:127 | an extension is empty or a dot followed by neither a slash nor another dot |
| Forms.SplitExtOfName | SingleCourseWebApp/course/forms.py:127 | `stem.e` with an ordinary stem has the extension `.e` |
| Forms.SplitExtOfHidden | SingleCourseWebApp/course/forms.py:127 | a hidden file `.e` has no extension |
| Forms.CheckMaterial | SingleCourseWebApp/course/forms.py:125-136 | a material passes unchanged exactly when its lower-cased extension is allowed and it is within the limit; the type is checked before the size |
| Forms.CleanMaterials | SingleCourseWebApp/course/forms.py:120-137 | the materials pass unchanged exactly when every one passes, and otherwise the error is that of the first failing one |
| Forms.FirstErrorIsFirstBad | SingleCourseWebApp/course/forms.py:125-136 | the first material whose check fails is the first bad material |
| Forms.UpperCaseExtensionAllowed | SingleCourseWebApp/course/forms.py:127-128 | "DATA.CSV" is allowed, the extension being lower-cased |
| Forms.NoExtensionRefused | SingleCourseWebApp/course/forms.py:127-128 | "Makefile" is refused for having no extension |
| Forms.CleanJupyterlabImage | SingleCourseWebApp/course/forms.py:139-153 | an absent image passes; otherwise a name ending in `.tar`, `.tar.gz` or `.tgz` within the limit passes unchanged, with the format refused before the size |
| Forms.CleanImagePairing | SingleCourseWebApp/course/forms.py:155-171 | the form passes exactly when an image comes with a version or neither is given, with the matching message for each missing half |
| Forms.CleanDescriptions | SingleCourseWebApp/course/forms.py:68-72 | blank text gives no descriptions; otherwise one stripped description per line of the stripped text |
| Forms.StripEach | SingleCourseWebApp/course/forms.py:71 | each line is stripped, none lost |
| Forms.DescriptionsRoundTrip | SingleCourseWebApp/course/forms.py:68-72 | stripped one-line descriptions, the first and last non-empty, joined by newlines are read back unchanged |
| Forms.JoinOfStripped | SingleCourseWebApp/course/forms.py:69 | joining lines whose ends carry no white space gives a text that needs no stripping |
| Forms.StripEachOfStripped | SingleCourseWebApp/course/forms.py:71 | stripping lines that need none changes nothing |
| Forms.JoinEnds | SingleCourseWebApp/course/forms.py:69-71 | a join starts with the first line's first character and ends with the last line's last character |
| Forms.CleanSubmission | SingleCourseWebApp/course/forms.py:74-85 | the form passes exactly when there are no descriptions or one per file, and fails with the count message otherwise |
| Forms.SubmissionFormLines | SingleCourseWebApp/course/forms.py:68-85 | with a description text the form passes exactly when the text is blank or has as many lines as files |
| Forms.CleanField | SingleCourseWebApp/course/forms.py:26-32 | a single value is cleaned as one file; a list passes exactly when each element passes, and then gives one cleaned value per element in order |
| Forms.CleanEachOfFilter | SingleCourseWebApp/course/forms.py:29 | a clean that passes exactly the good elements unchanged passes a list exactly when all its elements are good, and returns it unchanged |
| Forms.CleanEach | SingleCourseWebApp/course/forms.py:29 | the list passes exactly when every element does, with the elements' values in order; otherwise the error is that of the first failing element |
| ValidatedFields.SubmissionFilesChecked | SingleCourseWebApp/course/forms.py:57-61 | the submission's files pass exactly when each is at most 2 GiB and then come back unchanged; otherwise the error is the 2GB message |
| ValidatedFields.SubmissionFileClean | SingleCourseWebApp/course/forms.py:57-61 | one submitted file passes unchanged exactly when it is at most 2 GiB, and is refused with the 2GB message otherwise |
| ValidatedFields.NotebookField | SingleCourseWebApp/course/forms.py:88-91 | the notebook field runs `validate_file_size` before `clean_notebook` (lines 110-118): above 2 GiB the 2GB message wins whatever the name; otherwise the verdict and error are those of `clean_notebook`, and a passing file is unchanged |
| ValidatedFields.OversizedNotebookRefusedForSize | SingleCourseWebApp/course/forms.py:88-91 | a notebook above 2 GiB is refused for its size even when `clean_notebook` alone would refuse its name |
| FileNames.Basename | SingleCourseWebApp/course/templatetags/course_extras.py:6-11 | the result holds no slash, is a suffix of the value, is empty for a missing value and is the whole value when it has no slash |
| FileNames.BasenameOfJoin | SingleCourseWebApp/course/templatetags/course_extras.py:11 | the filter gives back the file name joined to any directory |
| FileNames.NotebookName | SingleCourseWebApp/course/views.py:825-829 | a name is given exactly for a Jupyter exercise with a file, and holds neither a slash nor a backslash |
| FileNames.CleanName | SingleCourseWebApp/course/views.py:827-829 | the cleaned name holds neither a slash nor a backslash |
| FileNames.NoBackslashLeft | SingleCourseWebApp/course/views.py:829 | once backslashes are replaced the last piece holds none |
| FileNames.CleanNameIsLastSegment | SingleCourseWebApp/course/views.py:827-829 | the cleaned name is the stored name's text after its last slash or backslash |
| FileNames.AfterSlashFacts | SingleCourseWebApp/course/views.py:827 | the base name is the text after the last slash |
| FileNames.ReplacedFacts | SingleCourseWebApp/course/views.py:829 | the replacement turns exactly the backslashes into slashes |
| FileNames.CleanSteps | SingleCourseWebApp/course/views.py:827-829 | the two cuts together cut after the last slash or backslash |
| FileNames.NotebookNameWithoutBackslash | SingleCourseWebApp/course/views.py:825-829 | for a name without backslashes the notebook name is the plain base name |
| FileNames.SuffixOfReplaced | SingleCourseWebApp/course/views.py:829 | the last piece after the replacement is a suffix of the base name cut after a slash or a backslash |
| FileNames.SuffixOfSuffix | SingleCourseWebApp/course/views.py:827-829 | a suffix cut after a slash or backslash of the base name is one of the stored name too |
| FileNames.UnchangedWithoutBackslash | SingleCourseWebApp/course/views.py:829 | without backslashes the replacement changes nothing |
| Text.Lower | SingleCourseWebApp/course/static/course/js/admin/ticket-management.js:95-100 | lower-casing keeps the length and maps each character on its own |
| Text.LowerAppend | SingleCourseWebApp/course/static/course/js/admin/ticket-management.js:100 | lower-casing splits over concatenation |
| Text.TrimIn | SingleCourseWebApp/course/forms.py:69-71 | Python `strip()` and JavaScript `trim()` (home.js 74, manage-settings.js 17-23): the result is a slice of the text with only white space before and after it, has no white space at either end, and is the text itself when that needs no trimming; Python's white space also counts the separators U+001C to U+001F |
| Text.TrimOfUnique | SingleCourseWebApp/course/views.py:425 | any slice with only white space around it and none at its own ends is the trim, so the trim is exactly the text minus its outer white space |
| Text.StripAgreesWithTrim | SingleCourseWebApp/course/views.py:425 | the server's `strip()` gives what the page's `trim()` gives whenever the trimmed text is empty or has no separator control at its ends |
| Text.StripRemovesSeparators | SingleCourseWebApp/course/views.py:425 | the two differ: U+001C survives `trim()` and is removed by `strip()` |
| Text.ReplaceChar | SingleCourseWebApp/course/views.py:829 | replacing one character keeps the length and changes exactly the occurrences of that character |
| Text.Split | SingleCourseWebApp/course/forms.py:71 | splitting gives at least one piece and no piece holds the separator |
| Text.SplitJoin | SingleCourseWebApp/course/forms.py:71 | joining the pieces of a split with the separator gives the text back |
| Text.SplitCount | SingleCourseWebApp/course/forms.py:71 | a split gives one piece more than there are separators |
| Text.SplitOfJoin | SingleCourseWebApp/course/forms.py:71 | splitting a join of pieces without the separator gives the pieces back |
| Text.SplitOfPiece | SingleCourseWebApp/course/static/course/js/home.js:72 | a text without the separator splits into itself |
| Text.AfterLast | SingleCourseWebApp/course/views.py:829 | the text after the last separator holds none, is a suffix, is the whole text without a separator and is preceded by the separator otherwise |
| Text.AfterLastIsLastPiece | SingleCourseWebApp/course/static/course/js/manage-modules.js:1370 | the text after the last separator is the last piece of the split |
| Text.AfterLastOfSuffix | SingleCourseWebApp/course/static/course/js/manage-modules.js:1370 | after a separator, a text without it is what remains after the last separator |
| Text.NatToString | SingleCourseWebApp/course/models.py:63 | a number is printed as at least one decimal digit |
| Text.NatToStringInjective | SingleCourseWebApp/course/models.py:92 | distinct numbers print differently, so names built from ids never clash |

## Left out

- Concurrency: `start_group_copies` submits its jobs to a thread pool. The model returns the list of jobs, and running them in order is modelled.
- Settings roots (`EXERCISE_FILES_ROOT`, `USER_FILES_ROOT`, the submissions root, `MEDIA_ROOT`) are distinct fixed top-level path segments, not configurable directories.
- Lesson titles are single path segments. A title holding `/` would nest directories, and that case is not modelled.
- FileSystem.Move: a directory move whose target parent is missing is an error in the model, while `shutil.move` would create the parents in its `copytree` fallback; the rename always runs `os.makedirs` on the parent first (views.py 139-140 and 152-153), so it never reaches that case.
- NotebookDiff.DisplayNotebookDiff: `JSON.parse` is not modelled; a text it refuses is given as `None`, and other JSON shapes (a `cells` value that is not a list, a `null` cell) are not modelled.
- The `shutil` fallbacks and error details: a failing operation is an error result, without the exception's text. Errors swallowed by `copy_exercise_files` become a no-op.
- `os.walk` order and database order (ties in `order`, `submitted_at` and `order_by(...).first()`) are parameters or the list order of the input.
- Floating point: scores are reals. `Math.round` and `float(score)` are exact over the rationals. This changes what the page shows: for 23 of 40 lessons done, learn.js:193 computes `(23/40)*100` as 57.49999999999999 in doubles and shows 57, while Durations.Percentage gives 58; the 99.5% and 0.5% boundaries of Durations.PercentageFull, Durations.PercentageNone and Durations.StatusOfCounts hold over the rationals only.
- Grading.Statistics: the rounding of the average score to two places is not modelled. The contract bounds the unrounded average.
- JavaScript number precision and `parseInt` of text with trailing garbage: numbers read from the points fields are given as `Option<int>`.
- Durations.LessonMinutes: the seconds fallback (`!isNaN` then `parseInt`, learn.js 146-147) is taken only for a text of decimal digits; texts JavaScript also reads as numbers, such as " 90", "-60", "1e3" or "0x10", add nothing in the model.
- `decodeURIComponent`: Cookies.GetCookie returns the raw value after `name=`, without percent-decoding.
- Cookies.GetCsrfToken: the empty token returned when the page has no CSRF form field is modelled. The error logged alongside it is not.
- `FILE_UPLOAD_MAX_MEMORY_SIZE` is a parameter, and the size messages printing it as a float of megabytes carry the limit as a number.
- Django's own checks before the `clean_*` methods (required fields, empty files, `CharField` stripping) are not modelled. The descriptions field is taken as the raw text.
- Unicode: case mapping and digits are ASCII only. White space is the ASCII set, plus U+001C to U+001F for Python's `strip()`; non-ASCII white space such as U+00A0 or U+2028 is not modelled.
- Durations: negative durations and microseconds, which Django's encoder writes as `-P…` and `.ffffffS`, are not modelled.
- HTML generation (`generateCellHtml`, the diff's markup, toasts and alerts) and all DOM handling: the model keeps the rows, verdicts and field values the markup is built from.
- Tickets: `String()` of field values that are not text. Each ticket's field values are given as text.
- Durations.DisplayedDurationText: the module card's text is stated through the module text of the minutes shown. The fallback text for a zero total is computed but never displayed, as DisplayedMinutes shows; a real total of ten minutes is still shown as "10 Min".
- The learning page's modal, progress bars and console logging.
- Shibboleth login, the upload progress middleware and the stale test files are outside the core.

## Findings

| source | as written | input that shows it | evidently intended | confidence | as-written member | corrected member |
|---|---|---|---|---|---|---|
| SingleCourseWebApp/course/views.py:1769-1778 | `join_group` checks only that the user is in no group of the course and that the group has room, then adds the user | a student not enrolled in the course joins a group with room, although `Group.can_add_member` refuses exactly that student | the enrollment check of `can_add_member` also applies when joining | not executed | Roster.JoinGroupSkipsEnrollment | Roster.JoinGroupCheckedPreserves |
| SingleCourseWebApp/course/static/course/js/learn.js:112-156 | the lesson minutes are read only from texts holding `PT`, but the lesson duration reaches the page through Django's JSON encoder as `P<d>DT<hh>H<mm>M<ss>S` (views.py 360 and 387) | a lesson of 30 minutes arrives as "P0DT00H30M00S"; no pattern matches, so the module total is 0 and the card shows 15 plus 15 per earlier module | the lesson's length, read with the day-aware pattern `formatDuration` already uses | not executed | Durations.EncodedModuleShowsPlaceholder | Durations.EncodedDurationCorrected |
| SingleCourseWebApp/course/static/course/js/manage-modules.js:1339-1355 | each points check compares the values read before any correction, so a pass mark above a maximum below 1 is reset to that old maximum | maximum -5 and pass mark 0: the maximum becomes 1 and the pass mark -5 | the pass mark is clamped into 0 .. the corrected maximum | not executed | Points.CheckPointsLeavesNegativePass | Points.CorrectedPointsConsistent |
