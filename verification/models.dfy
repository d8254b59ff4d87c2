/** Model-layer rules: the upload size limit, where uploaded files are
    stored, one course per instructor, who may edit a module, the consistency
    checks of an exercise, how a submission's pass flag follows its score,
    and the administrator's role switch. */
module Models {
  import opened Wrappers
  import opened Text
  import opened FileSystem
  import opened Provisioning
  import opened Collector

  // ---------------------------------------------------------------------
  // validate_file_size

  /** 2 GiB, the largest accepted upload. */
  const MaxUploadBytes: nat := 2 * 1024 * 1024 * 1024

  function ValidateFileSize(size: nat): (r: Outcome<string>)
    ensures r.Pass? <==> size <= 2147483648
    ensures r.Fail? ==> r.error == "The maximum file size that can be uploaded is 2GB"
  {
    if size > MaxUploadBytes then Fail("The maximum file size that can be uploaded is 2GB") else Pass
  }

  /** The size check is a threshold: anything smaller than an accepted size
      is accepted, anything larger than a rejected one rejected. */
  lemma FileSizeThreshold(small: nat, large: nat)
    requires small <= large
    ensures ValidateFileSize(large).Pass? ==> ValidateFileSize(small).Pass?
    ensures ValidateFileSize(small).Fail? ==> ValidateFileSize(large).Fail?
  {
  }

  // ---------------------------------------------------------------------
  // upload_to path builders (relative to the media root)

  function JupyterlabImagePath(filename: string): (p: Path)
    ensures |p| == 2 && p[1] == filename
  {
    ["jupyterlab_images"] + [filename]
  }

  /** An exercise's main file: `exercise_files/<lesson title>/<name>`. */
  function ExerciseFilePath(lessonTitle: string, filename: string): (p: Path)
    ensures |p| == 3 && p[2] == filename
  {
    ["exercise_files", lessonTitle, filename]
  }

  /** A material of an exercise: stored next to the exercise's main file. */
  function MaterialFilePath(lessonTitle: string, filename: string): (p: Path)
    ensures |p| == 3 && p[2] == filename
  {
    ["exercise_files", lessonTitle, filename]
  }

  /** An exercise's files and materials land directly in the canonical
      exercise directory that is copied into the group workspaces. */
  lemma UploadsLandInExerciseDir(lessonTitle: string, filename: string)
    ensures ExerciseFilePath(lessonTitle, filename) == ExerciseDir(lessonTitle) + [filename]
    ensures MaterialFilePath(lessonTitle, filename) == ExerciseFilePath(lessonTitle, filename)
  {
  }

  /** A submitted file: `exercise_submissions/group_<id>/<lesson title>/<name>`,
      for the submitting student's first group of the course; a student
      without a group cannot upload. No timestamp segment. */
  function SubmissionFilePath(group: Option<nat>, lessonTitle: string, filename: string): (r: Result<Path, string>)
    ensures group.None? <==> r == Err("Student must be in a group to submit")
    ensures r.Ok? ==> |r.value| == 4 && r.value[3] == filename
  {
    match group
    case None => Err("Student must be in a group to submit")
    case Some(g) => Ok(["exercise_submissions", "group_" + NatToString(g), lessonTitle, filename])
  }

  /** An uploaded submission file goes where `submit_exercise` copies a
      top-level workspace file. */
  lemma SubmissionPathMatchesCollector(g: nat, lessonTitle: string, filename: string)
    ensures SubmissionFilePath(Some(g), lessonTitle, filename)
      == Ok(SubmissionDir(g, lessonTitle) + [filename])
    ensures SubmissionFilePath(Some(g), lessonTitle, filename).value
      == RowFor(SubmissionDir(g, lessonTitle), [filename]).file
  {
    assert SubmissionDir(g, lessonTitle) + [filename]
      == ["exercise_submissions", "group_" + NatToString(g), lessonTitle, filename];
  }

  function ReferenceSolutionPath(filename: string): (p: Path)
    ensures |p| == 2 && p[1] == filename
  {
    ["reference_solution"] + [filename]
  }

  /** Each kind of upload has its own top-level directory, so files of
      different kinds never share a path. */
  lemma StorageAreasApart(a: string, b: string, title: string, g: nat, t: Option<nat>)
    ensures var firsts := [JupyterlabImagePath(a)[0], ExerciseFilePath(title, a)[0],
        SubmissionFilePath(Some(g), title, a).value[0], ReferenceSolutionPath(a)[0], TicketImagePath(t, a)[0]];
      forall i, j :: 0 <= i < j < |firsts| ==> firsts[i] != firsts[j]
  {
  }

  /** A ticket image: `ticket_images/ticket_<id>_<name>`; a ticket that is
      not saved yet has no id, which Python prints as `None`. */
  function TicketImagePath(ticketId: Option<nat>, filename: string): (p: Path)
    ensures |p| == 2 && p[0] == "ticket_images"
    ensures StartsWith(p[1], "ticket_") && EndsWith(p[1], "_" + filename)
  {
    var id := match ticketId case Some(n) => NatToString(n) case None => "None";
    var name := "ticket_" + id + "_" + filename;
    assert name[..7] == "ticket_";
    assert name[|name| - |"_" + filename|..] == "_" + filename;
    ["ticket_images", name]
  }

  /** Images of two saved tickets never share a path, whatever their names. */
  lemma TicketImagePathsDistinct(a: nat, b: nat, fa: string, fb: string)
    requires a != b
    ensures TicketImagePath(Some(a), fa) != TicketImagePath(Some(b), fb)
  {
    var sa, sb := NatToString(a), NatToString(b);
    var na, nb := "ticket_" + sa + "_" + fa, "ticket_" + sb + "_" + fb;
    if |sa| == |sb| {
      if sa == sb {
        NatToStringInjective(a, b);
      } else {
        assert na[7..7 + |sa|] == sa && nb[7..7 + |sb|] == sb;
      }
    } else if |sa| < |sb| {
      assert na[7 + |sa|] == '_';
      assert nb[7 + |sa|] == sb[|sa|];
      assert IsDigit(sb[|sa|]);
    } else {
      assert nb[7 + |sb|] == '_';
      assert na[7 + |sb|] == sa[|sb|];
      assert IsDigit(sa[|sb|]);
    }
  }

  // ---------------------------------------------------------------------
  // Course.save: one course per instructor

  /** The course table: each course's instructor, if any. */
  type CourseTable = map<nat, Option<nat>>

  ghost predicate OneCoursePerInstructor(t: CourseTable)
  {
    forall a, b :: a in t && b in t && a != b && t[a].Some? ==> t[a] != t[b]
  }

  datatype CourseSaveError = InstructorHasCourse | UniqueViolation

  /** `Course.save`: a new course whose instructor already has a course is
      refused by the method itself; the database's unique constraint on the
      instructor refuses the same for an existing course that is given
      another course's instructor. */
  function SaveCourse(t: CourseTable, id: nat, instructor: Option<nat>): (r: Result<CourseTable, CourseSaveError>)
    ensures id !in t && instructor.Some? && (exists c :: c in t && t[c] == instructor) ==>
      r == Err(InstructorHasCourse)
    ensures r.Ok? <==> instructor.None? || forall c :: c in t && c != id ==> t[c] != instructor
    ensures r.Ok? ==> r.value == t[id := instructor]
  {
    if id !in t && instructor.Some? && exists c :: c in t && t[c] == instructor then Err(InstructorHasCourse)
    else if instructor.Some? && exists c :: c in t && c != id && t[c] == instructor then Err(UniqueViolation)
    else Ok(t[id := instructor])
  }

  lemma SaveCoursePreserves(t: CourseTable, id: nat, instructor: Option<nat>)
    requires OneCoursePerInstructor(t) && SaveCourse(t, id, instructor).Ok?
    ensures OneCoursePerInstructor(SaveCourse(t, id, instructor).value)
  {
  }

  // ---------------------------------------------------------------------
  // Module.can_edit

  datatype User = User(id: nat, isSuperuser: bool, isInstructor: bool, isStudent: bool)

  predicate CanEdit(user: User, moduleInstructor: nat)
  {
    user.isSuperuser || user.id == moduleInstructor
  }

  /** The modules (by id, with their instructors) a user may edit. */
  function EditableModules(user: User, modules: map<nat, nat>): (r: set<nat>)
    ensures forall m :: m in r <==> m in modules && CanEdit(user, modules[m])
  {
    set m | m in modules && CanEdit(user, modules[m])
  }

  /** A superuser may edit every module; anyone else exactly the modules
      they are responsible for, whatever their role flags say. */
  lemma EditRights(user: User, modules: map<nat, nat>)
    ensures user.isSuperuser ==> EditableModules(user, modules) == modules.Keys
    ensures !user.isSuperuser ==>
      EditableModules(user, modules) == set m | m in modules && modules[m] == user.id
    ensures forall other: User :: other.id == user.id && other.isSuperuser == user.isSuperuser ==>
      EditableModules(other, modules) == EditableModules(user, modules)
  {
  }

  // ---------------------------------------------------------------------
  // Exercise.clean

  datatype ExerciseType = Traditional | Jupyter

  /** The fields `clean` reads. The exercise file is nullable: a row
      without one has no file name at all (`None`). A missing reference
      solution has the empty name, which is false in Python just as `None`
      is. */
  datatype ExerciseFields = ExerciseFields(
    exerciseType: ExerciseType,
    fileName: Option<string>,
    referenceSolution: string,
    maximumPoints: nat,
    passPoints: nat)

  /** What `clean` does: it passes, raises a validation error with its
      message, or fails with an exception that is not a validation error. */
  datatype CleanResult = Valid | Invalid(message: string) | Crash(exception: string)

  /** The first failing rule: a notebook exercise's file, then the reference
      solution (when there is one), then the points. A notebook exercise
      without a file reaches `.endswith` on `None` and raises
      `AttributeError`. */
  function ExerciseClean(e: ExerciseFields): (r: CleanResult)
    ensures r.Crash? <==> e.exerciseType == Jupyter && e.fileName.None?
    ensures r.Crash? ==> r.exception == "AttributeError"
    ensures r.Valid? <==>
      (e.exerciseType == Jupyter ==> e.fileName.Some? && EndsWith(e.fileName.value, ".ipynb"))
      && (e.referenceSolution != "" ==> EndsWith(e.referenceSolution, ".ipynb"))
      && e.passPoints <= e.maximumPoints
    ensures e.exerciseType == Jupyter && e.fileName.Some? && !EndsWith(e.fileName.value, ".ipynb") ==>
      r == Invalid("Jupyter notebook exercises must use .ipynb files")
  {
    if e.exerciseType == Jupyter && e.fileName.None? then Crash("AttributeError")
    else if e.exerciseType == Jupyter && !EndsWith(e.fileName.value, ".ipynb") then
      Invalid("Jupyter notebook exercises must use .ipynb files")
    else if e.referenceSolution != "" && !EndsWith(e.referenceSolution, ".ipynb") then
      Invalid("Reference solution must be a Jupyter notebook (.ipynb) file")
    else if e.maximumPoints < e.passPoints then
      Invalid("Maximum points must be greater than or equal to pass points")
    else Valid
  }

  // ---------------------------------------------------------------------
  // Submission.save

  /** `passed` follows `score` whenever there is a score and is left alone
      otherwise. Scores are stored floats; their values are modelled
      exactly, and Python compares a float with an integer exactly. */
  function SubmissionSave(score: Option<real>, passed: Option<bool>, passPoints: nat): (r: Option<bool>)
    ensures score.Some? ==> (r == Some(true) <==> score.value >= passPoints as real)
    ensures score.Some? ==> r.Some?
    ensures score.None? ==> r == passed
  {
    if score.Some? then Some(score.value >= passPoints as real) else passed
  }

  /** Saving twice changes nothing more, a higher score never turns a pass
      into a fail, and on an exercise that passes `clean` the full score
      always passes. */
  lemma SubmissionSaveProperties(score: Option<real>, passed: Option<bool>, e: ExerciseFields)
    ensures var once := SubmissionSave(score, passed, e.passPoints);
      SubmissionSave(score, once, e.passPoints) == once
    ensures forall low: real, high: real :: low <= high && SubmissionSave(Some(low), passed, e.passPoints) == Some(true) ==>
      SubmissionSave(Some(high), passed, e.passPoints) == Some(true)
    ensures ExerciseClean(e).Valid? ==>
      SubmissionSave(Some(e.maximumPoints as real), passed, e.passPoints) == Some(true)
  {
  }

  // ---------------------------------------------------------------------
  // admin_change_role

  /** The role flags after the administrator's switch: "instructor" and
      "student" set the two flags to opposite values; any other role leaves
      them as they were (the user is saved and success reported anyway). */
  function ChangeRole(user: User, newRole: string): (r: User)
    ensures r.id == user.id && r.isSuperuser == user.isSuperuser
    ensures newRole == "instructor" ==> r.isInstructor && !r.isStudent
    ensures newRole == "student" ==> !r.isInstructor && r.isStudent
    ensures newRole != "instructor" && newRole != "student" ==> r == user
  {
    if newRole == "instructor" then user.(isInstructor := true, isStudent := false)
    else if newRole == "student" then user.(isInstructor := false, isStudent := true)
    else user
  }

  /** A known role makes the two flags exclusive, and switching is
      idempotent: only the last switch counts. */
  lemma ChangeRoleProperties(user: User, first: string, second: string)
    ensures second == "instructor" || second == "student" ==>
      ChangeRole(ChangeRole(user, first), second) == ChangeRole(user, second)
    ensures first == "instructor" || first == "student" ==>
      ChangeRole(user, first).isInstructor != ChangeRole(user, first).isStudent
    ensures ChangeRole(ChangeRole(user, first), first) == ChangeRole(user, first)
  {
  }

  /** `admin_change_role`: only a superuser may call it (others get
      `PermissionDenied`), only by POST, and only for an existing user. */
  datatype RoleResponse = Forbidden | WrongMethod | UnknownUser | RoleChanged(user: User)

  function AdminChangeRole(caller: User, isPost: bool, users: map<nat, User>, userId: nat, newRole: string): (r: RoleResponse)
    ensures !caller.isSuperuser ==> r == Forbidden
    ensures r.RoleChanged? <==> caller.isSuperuser && isPost && userId in users
    ensures r.RoleChanged? ==> r.user == ChangeRole(users[userId], newRole)
  {
    if !caller.isSuperuser then Forbidden
    else if !isPost then WrongMethod
    else if userId !in users then UnknownUser
    else RoleChanged(ChangeRole(users[userId], newRole))
  }
}
