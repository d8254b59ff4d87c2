/** The lesson editor's checks before an exercise upload is sent
    (`validateFiles`) and the listeners that keep the pass mark within the
    maximum points. Field values are what `parseInt` reads from them:
    `None` for a value that is not a number. */
module Points {
  import opened Wrappers
  import opened Text
  import Forms

  /** The two points fields as parsed numbers. */
  datatype PointsFields = PointsFields(max: Option<int>, pass: Option<int>)

  /** `a < b` on two parsed values: false as soon as one is not a number. */
  predicate Less(a: Option<int>, b: Option<int>)
  {
    a.Some? && b.Some? && a.value < b.value
  }

  /** The three points checks of `validateFiles`, as written: each compares
      the values read before any correction, and each failing check writes
      its replacement into the field. */
  function CheckPoints(f: PointsFields): (r: (bool, PointsFields))
    ensures r.0 <==> !Less(f.max, Some(1)) && !Less(f.pass, Some(0)) && !Less(f.max, f.pass)
    ensures r.0 ==> r.1 == f
    ensures Less(f.max, Some(1)) ==> r.1.max == Some(1)
    ensures !Less(f.max, Some(1)) ==> r.1.max == f.max
    ensures Less(f.max, f.pass) ==> r.1.pass == f.max
    ensures !Less(f.max, f.pass) && Less(f.pass, Some(0)) ==> r.1.pass == Some(0)
    ensures !Less(f.max, f.pass) && !Less(f.pass, Some(0)) ==> r.1.pass == f.pass
  {
    var maxField := if Less(f.max, Some(1)) then Some(1) else f.max;
    var pass1 := if Less(f.pass, Some(0)) then Some(0) else f.pass;
    var passField := if Less(f.max, f.pass) then f.max else pass1;
    (!Less(f.max, Some(1)) && !Less(f.pass, Some(0)) && !Less(f.max, f.pass), PointsFields(maxField, passField))
  }

  /** With a maximum below 1 the pass mark is reset to that old maximum,
      so the corrected form holds a negative pass mark. */
  lemma CheckPointsLeavesNegativePass()
    ensures CheckPoints(PointsFields(Some(-5), Some(0))).1 == PointsFields(Some(1), Some(-5))
  {
  }

  /** The intended correction: the maximum is raised to at least 1 first,
      and the pass mark is clamped into 0 .. that corrected maximum. */
  function CheckPointsCorrected(f: PointsFields): (r: (bool, PointsFields))
    ensures r.0 <==> !Less(f.max, Some(1)) && !Less(f.pass, Some(0)) && !Less(f.max, f.pass)
    ensures r.0 ==> r.1 == f
    ensures Less(f.max, Some(1)) ==> r.1.max == Some(1)
    ensures !Less(f.max, Some(1)) ==> r.1.max == f.max
    ensures !Less(r.1.max, r.1.pass) && !Less(r.1.pass, Some(0))
  {
    var maxField := if Less(f.max, Some(1)) then Some(1) else f.max;
    var pass1 := if Less(f.pass, Some(0)) then Some(0) else f.pass;
    var passField := if Less(maxField, pass1) then maxField else pass1;
    (!Less(f.max, Some(1)) && !Less(f.pass, Some(0)) && !Less(f.max, f.pass), PointsFields(maxField, passField))
  }

  /** After the corrected checks two numbers always satisfy
      0 <= pass <= max and 1 <= max, and a second run accepts them. */
  lemma CorrectedPointsConsistent(f: PointsFields)
    requires f.max.Some? && f.pass.Some?
    ensures var g := CheckPointsCorrected(f).1;
      && g.max.Some? && g.pass.Some?
      && 1 <= g.max.value && 0 <= g.pass.value <= g.max.value
      && CheckPointsCorrected(g) == (true, g)
  {
  }

  /** The correction changes nothing while the maximum is at least 1. */
  lemma CorrectedAgreesFromOne(f: PointsFields)
    requires !Less(f.max, Some(1))
    ensures CheckPointsCorrected(f) == CheckPoints(f)
  {
  }

  /** The two differ on the example above. */
  lemma CorrectedDiffers()
    ensures CheckPointsCorrected(PointsFields(Some(-5), Some(0))).1 == PointsFields(Some(1), Some(0))
    ensures CheckPoints(PointsFields(Some(-5), Some(0))) != CheckPointsCorrected(PointsFields(Some(-5), Some(0)))
  {
  }

  // ---------------------------------------------------------------------
  // File checks

  const AllowedExtensions: seq<string> := [".py", ".csv", ".json", ".txt", ".dat", ".npy", ".h5", ".pkl"]

  /** The page's idea of a file's extension: a dot and the lower-cased
      text after the last dot, or the whole name when there is none. */
  function ClientExtension(name: string): (ext: string)
    ensures |ext| >= 1 && ext[0] == '.'
    ensures '.' !in ext[1..]
  {
    "." + Lower(AfterLast(name, '.'))
  }

  predicate ClientMaterialOk(name: string)
  {
    ClientExtension(name) in AllowedExtensions
  }

  predicate ClientNotebookOk(name: string)
  {
    EndsWith(name, ".ipynb")
  }

  /** What the form holds when the upload button is pressed. `points` is
      `None` when either points field is missing from the page. */
  datatype UploadForm = UploadForm(
    isExercise: bool,
    points: Option<PointsFields>,
    notebook: Option<string>,
    materials: seq<string>)

  /** The verdict and what the checks leave behind in the form. */
  datatype Validation = Validation(valid: bool, points: Option<PointsFields>, notebookCleared: bool, materialsCleared: bool)

  /** `validateFiles`: the points checks (exercises only), the notebook
      name and every material's extension. A failing file check empties its
      file input. */
  function ValidateFiles(form: UploadForm, check: PointsFields -> (bool, PointsFields)): (v: Validation)
    ensures v.valid <==> (form.isExercise && form.points.Some? ==> check(form.points.value).0) && !v.notebookCleared && !v.materialsCleared
    ensures v.notebookCleared <==> form.notebook.Some? && !ClientNotebookOk(form.notebook.value)
    ensures !v.materialsCleared <==> forall i :: 0 <= i < |form.materials| ==> ClientMaterialOk(form.materials[i])
    ensures !(form.isExercise && form.points.Some?) ==> v.points == form.points
  {
    var pointsChecked := form.isExercise && form.points.Some?;
    var pr := if pointsChecked then check(form.points.value) else (true, PointsFields(None, None));
    var notebookBad := form.notebook.Some? && !ClientNotebookOk(form.notebook.value);
    var materialsBad := exists i :: 0 <= i < |form.materials| && !ClientMaterialOk(form.materials[i]);
    Validation(
      pr.0 && !notebookBad && !materialsBad,
      if pointsChecked then Some(pr.1) else form.points,
      notebookBad,
      materialsBad)
  }

  /** The upload goes ahead exactly when every check passes, and a valid
      form is left as it was. */
  lemma ValidateFilesMeaning(form: UploadForm)
    ensures ValidateFiles(form, CheckPoints).valid <==>
      (&& (form.isExercise && form.points.Some? ==> CheckPoints(form.points.value).0)
       && (form.notebook.Some? ==> EndsWith(form.notebook.value, ".ipynb"))
       && (forall i :: 0 <= i < |form.materials| ==> ClientExtension(form.materials[i]) in AllowedExtensions))
    ensures ValidateFiles(form, CheckPoints).valid ==> ValidateFiles(form, CheckPoints).points == form.points
    ensures !form.isExercise ==> ValidateFiles(form, CheckPoints).points == form.points
  {
  }

  /** For an ordinary name `stem.e` the page and the server agree on the
      material's type. */
  lemma MaterialChecksAgree(stem: string, e: string, size: nat)
    requires stem != [] && stem[0] != '.' && '/' !in stem
    requires '/' !in e && '.' !in e
    ensures ClientMaterialOk(stem + "." + e) <==> Forms.MaterialTypeAllowed(Forms.Upload(stem + "." + e, size))
  {
    Forms.SplitExtOfName(stem, e);
    AfterLastOfSuffix(stem + ".", e, '.');
    assert stem + "." + e == (stem + ".") + e;
    LowerAppend(".", e);
  }

  /** A hidden file such as ".py" passes the page's check, and the server
      refuses it because it has no extension there. */
  lemma HiddenMaterialChecksDisagree()
    ensures ClientMaterialOk(".py")
    ensures !Forms.MaterialTypeAllowed(Forms.Upload(".py", 0))
  {
    AfterLastOfSuffix(".", "py", '.');
    assert ".py" == "." + "py";
    assert Lower("py") == "py";
    assert ClientExtension(".py") == ".py";
    Forms.SplitExtOfHidden("py");
  }

  /** The page and the server use the same notebook name test. */
  lemma NotebookChecksAgree(name: string, size: nat, limit: nat)
    requires size <= limit && name != []
    ensures ClientNotebookOk(name) <==> Forms.CleanNotebook(Some(Forms.Upload(name, size)), limit).Ok?
  {
  }

  // ---------------------------------------------------------------------
  // Listeners on the points fields

  /** `change` on either field: a pass mark above the maximum is lowered
      to it. Both fields' listeners do the same. */
  function OnChange(f: PointsFields): (g: PointsFields)
    ensures g.max == f.max
    ensures !Less(g.max, g.pass)
    ensures !Less(f.max, f.pass) ==> g == f
    ensures g.pass.None? <==> f.pass.None?
  {
    if Less(f.max, f.pass) then f.(pass := f.max) else f
  }

  /** `input` on the maximum: a value below 1 becomes 1. */
  function OnMaxInput(f: PointsFields): (g: PointsFields)
    ensures g.pass == f.pass
    ensures !Less(g.max, Some(1))
    ensures g.max.None? <==> f.max.None?
    ensures !Less(f.max, Some(1)) ==> g == f
  {
    if Less(f.max, Some(1)) then f.(max := Some(1)) else f
  }

  /** `input` on the pass mark: a negative value becomes 0, and then one
      above the maximum becomes the maximum. */
  function OnPassInput(f: PointsFields): (g: PointsFields)
    ensures g.max == f.max
    ensures !Less(g.max, g.pass)
  {
    var p := if Less(f.pass, Some(0)) then f.(pass := Some(0)) else f;
    if Less(p.max, p.pass) then p.(pass := p.max) else p
  }

  /** After the listeners, two numbers pass the `validateFiles` checks
      whenever the maximum is at least 1 — what the input listener on the
      maximum guarantees. */
  lemma ListenersSatisfyChecks(f: PointsFields)
    requires f.max.Some? && f.pass.Some?
    ensures CheckPoints(OnPassInput(OnMaxInput(f))) == (true, OnPassInput(OnMaxInput(f)))
  {
  }
}
