/** Form validation: the checks of the Jupyter exercise upload form, the
    descriptions of the submission form and the multiple-file field. The
    upload size limit of the settings (`FILE_UPLOAD_MAX_MEMORY_SIZE`) is a
    parameter. */
module Forms {
  import opened Wrappers
  import opened Text

  /** An uploaded file: its name and its size in bytes. */
  datatype Upload = Upload(name: string, size: nat)

  datatype FormError =
    | NotNotebook
    | TooLarge(limit: nat)
    | InvalidMaterialType(name: string)
    | InvalidImageFormat
    | VersionMissing
    | ImageMissing
    | DescriptionCountMismatch
    | FileError(message: string)

  /** The messages that do not print a number or a file name. */
  function FixedMessage(e: FormError): Option<string>
  {
    match e
    case NotNotebook => Some("Only Jupyter notebook files (.ipynb) are allowed.")
    case InvalidImageFormat => Some("Invalid file format. Please upload a tar or tar.gz file.")
    case VersionMissing => Some("Please provide a version number for the JupyterLab image.")
    case ImageMissing => Some("Please upload a JupyterLab image file.")
    case DescriptionCountMismatch => Some("Number of descriptions must match number of files")
    case FileError(m) => Some(m)
    case _ => None
  }

  /** A file object is truthy when it has a name. */
  predicate Present(f: Option<Upload>)
  {
    f.Some? && f.value.name != []
  }

  // ---------------------------------------------------------------------
  // JupyterExerciseUploadForm.clean_notebook

  /** Only names ending in ".ipynb" (case matters) within the size limit;
      an absent file passes unchanged. */
  function CleanNotebook(notebook: Option<Upload>, limit: nat): (r: Result<Option<Upload>, FormError>)
    ensures r.Ok? <==> (!Present(notebook)
      || (EndsWith(notebook.value.name, ".ipynb") && notebook.value.size <= limit))
    ensures r.Ok? ==> r.value == notebook
    ensures Present(notebook) && !EndsWith(notebook.value.name, ".ipynb") ==> r == Err(NotNotebook)
    ensures Present(notebook) && EndsWith(notebook.value.name, ".ipynb") && notebook.value.size > limit ==>
      r == Err(TooLarge(limit))
  {
    if !Present(notebook) then Ok(notebook)
    else if !EndsWith(notebook.value.name, ".ipynb") then Err(NotNotebook)
    else if notebook.value.size > limit then Err(TooLarge(limit))
    else Ok(notebook)
  }

  /** Upper-case extensions are refused: the check is case-sensitive. */
  lemma NotebookExtensionCaseSensitive(limit: nat)
    ensures CleanNotebook(Some(Upload("lab.IPYNB", 1)), limit) == Err(NotNotebook)
    ensures CleanNotebook(Some(Upload("lab.ipynb", limit)), limit).Ok?
  {
    assert "lab.IPYNB"[3..] != ".ipynb" by {
      assert "lab.IPYNB"[3..][1] == 'I';
    }
    assert "lab.ipynb"[3..] == ".ipynb";
  }

  // ---------------------------------------------------------------------
  // JupyterExerciseUploadForm.clean_materials

  /** The number of dots in a row from position `start`. */
  function DotRun(s: string, start: nat): (n: nat)
    requires start <= |s|
    ensures start + n <= |s|
    ensures forall i :: start <= i < start + n ==> s[i] == '.'
    ensures start + n < |s| ==> s[start + n] != '.'
    decreases |s| - start
  {
    if start < |s| && s[start] == '.' then 1 + DotRun(s, start + 1) else 0
  }

  /** `os.path.splitext(name)[1]`: the text from the last dot of the last
      path component, provided that component has a character other than a
      dot before that dot; otherwise the empty text (so ".bashrc" has none). */
  function SplitExt(name: string): (ext: string)
    ensures |ext| <= |name|
  {
    var afterSep := LastCut(name, '/');
    var afterDot := LastCut(name, '.');
    if afterSep + DotRun(name, afterSep) + 1 < afterDot then name[afterDot - 1..] else []
  }

  /** An extension is empty or a dot followed by neither a slash nor
      another dot. */
  lemma SplitExtShape(name: string)
    ensures var ext := SplitExt(name);
      ext == [] || (ext[0] == '.' && '/' !in ext && '.' !in ext[1..])
  {
    var afterSep := LastCut(name, '/');
    var afterDot := LastCut(name, '.');
    if afterSep + DotRun(name, afterSep) + 1 < afterDot {
      var ext := name[afterDot - 1..];
      forall i | 0 <= i < |ext|
        ensures ext[i] == name[afterDot - 1 + i]
      {
      }
    }
  }

  /** A name whose stem is non-empty and does not start with a dot has the
      extension after its last dot. */
  lemma SplitExtOfName(stem: string, e: string)
    requires stem != [] && stem[0] != '.' && '/' !in stem
    requires '/' !in e && '.' !in e
    ensures SplitExt(stem + "." + e) == "." + e
  {
    var name := stem + "." + e;
    var dot := |stem| + 1;
    forall i | 0 <= i < |name|
      ensures name[i] != '/'
    {
      if i < |stem| {
        assert name[i] == stem[i];
      } else if i >= dot {
        assert name[i] == e[i - dot];
      }
    }
    LastCutBeforeIs(name, '/', |name|, 0);
    forall i | dot <= i < |name|
      ensures name[i] != '.'
    {
      assert name[i] == e[i - dot];
    }
    LastCutBeforeIs(name, '.', |name|, dot);
    assert name[0] == stem[0];
    assert name[dot - 1..] == "." + e;
  }

  /** A hidden file without a further dot has no extension. */
  lemma SplitExtOfHidden(e: string)
    requires '/' !in e && '.' !in e
    ensures SplitExt("." + e) == []
  {
    var name := "." + e;
    forall i | 1 <= i < |name|
      ensures name[i] != '.' && name[i] != '/'
    {
      assert name[i] == e[i - 1];
    }
    LastCutBeforeIs(name, '/', |name|, 0);
    LastCutBeforeIs(name, '.', |name|, 1);
  }

  const AllowedMaterialExtensions: seq<string> := [".py", ".csv", ".json", ".txt", ".dat", ".npy", ".h5", ".pkl"]

  predicate MaterialTypeAllowed(m: Upload)
  {
    Lower(SplitExt(m.name)) in AllowedMaterialExtensions
  }

  predicate MaterialOk(m: Upload, limit: nat)
  {
    MaterialTypeAllowed(m) && m.size <= limit
  }

  /** Material `i` is the first one that fails its checks. */
  predicate FirstBadMaterial(materials: seq<Upload>, limit: nat, i: int)
  {
    0 <= i < |materials| && !MaterialOk(materials[i], limit)
    && forall j :: 0 <= j < i ==> MaterialOk(materials[j], limit)
  }

  /** The check of one material: its extension first, then its size. */
  function CheckMaterial(m: Upload, limit: nat): (r: Result<Upload, FormError>)
    ensures r.Ok? <==> MaterialOk(m, limit)
    ensures r.Ok? ==> r.value == m
    ensures !MaterialTypeAllowed(m) ==> r == Err(InvalidMaterialType(m.name))
    ensures MaterialTypeAllowed(m) && m.size > limit ==> r == Err(TooLarge(limit))
  {
    if !MaterialTypeAllowed(m) then Err(InvalidMaterialType(m.name))
    else if m.size > limit then Err(TooLarge(limit))
    else Ok(m)
  }

  /** Every material must have an allowed extension (compared in lower
      case) and fit the limit; the first offending material decides the
      error. */
  function CleanMaterials(materials: seq<Upload>, limit: nat): (r: Result<seq<Upload>, FormError>)
    ensures r.Ok? <==> forall i :: 0 <= i < |materials| ==> MaterialOk(materials[i], limit)
    ensures r.Ok? ==> r.value == materials
    ensures r.Err? ==> exists i :: FirstBadMaterial(materials, limit, i) && CheckMaterial(materials[i], limit) == Err(r.error)
  {
    var check := m => CheckMaterial(m, limit);
    var ok := m => MaterialOk(m, limit);
    CleanEachOfFilter(materials, check, ok);
    var r := CleanEach(materials, check);
    if r.Err? then
      var i :| FirstErrorAt(materials, check, i) && check(materials[i]) == Err(r.error);
      FirstErrorIsFirstBad(materials, limit, i);
      r
    else
      r
  }

  lemma FirstErrorIsFirstBad(materials: seq<Upload>, limit: nat, i: int)
    requires FirstErrorAt(materials, m => CheckMaterial(m, limit), i)
    ensures FirstBadMaterial(materials, limit, i)
  {
    forall j | 0 <= j < i
      ensures MaterialOk(materials[j], limit)
    {
      assert (m => CheckMaterial(m, limit))(materials[j]).Ok?;
    }
  }

  /** Extensions are compared case-insensitively. */
  lemma UpperCaseExtensionAllowed(limit: nat)
    ensures MaterialTypeAllowed(Upload("DATA.CSV", limit))
  {
    SplitExtOfName("DATA", "CSV");
    assert "DATA.CSV" == "DATA" + "." + "CSV";
    assert Lower(".CSV") == ".csv";
  }

  /** A name without an extension is refused. */
  lemma NoExtensionRefused(limit: nat)
    ensures !MaterialTypeAllowed(Upload("Makefile", limit))
  {
    var name := "Makefile";
    forall i | 0 <= i < |name|
      ensures name[i] != '/' && name[i] != '.'
    {
    }
    LastCutBeforeIs(name, '/', |name|, 0);
    LastCutBeforeIs(name, '.', |name|, 0);
    assert SplitExt(name) == [];
  }

  // ---------------------------------------------------------------------
  // JupyterExerciseUploadForm.clean_jupyterlab_image and clean

  predicate ImageNameOk(name: string)
  {
    EndsWith(name, ".tar") || EndsWith(name, ".tar.gz") || EndsWith(name, ".tgz")
  }

  function CleanJupyterlabImage(image: Option<Upload>, limit: nat): (r: Result<Option<Upload>, FormError>)
    ensures r.Ok? <==> !Present(image) || (ImageNameOk(image.value.name) && image.value.size <= limit)
    ensures r.Ok? ==> r.value == image
    ensures Present(image) && !ImageNameOk(image.value.name) ==> r == Err(InvalidImageFormat)
    ensures Present(image) && ImageNameOk(image.value.name) && image.value.size > limit ==>
      r == Err(TooLarge(limit))
  {
    if !Present(image) then Ok(image)
    else if !ImageNameOk(image.value.name) then Err(InvalidImageFormat)
    else if image.value.size > limit then Err(TooLarge(limit))
    else Ok(image)
  }

  /** The form-wide check: an image needs a version and a version needs an
      image. `version` is the cleaned text of the field. */
  function CleanImagePairing(image: Option<Upload>, version: string): (r: Outcome<FormError>)
    ensures r.Pass? <==> (Present(image) <==> version != [])
    ensures Present(image) && version == [] ==> r == Fail(VersionMissing)
    ensures !Present(image) && version != [] ==> r == Fail(ImageMissing)
  {
    if Present(image) && version == [] then Fail(VersionMissing)
    else if version != [] && !Present(image) then Fail(ImageMissing)
    else Pass
  }

  // ---------------------------------------------------------------------
  // SubmissionForm.clean_descriptions and clean

  /** Blank input gives no descriptions; otherwise one stripped description
      per line of the stripped text. */
  function CleanDescriptions(raw: string): (r: seq<string>)
    ensures Strip(raw) == [] <==> r == []
    ensures Strip(raw) != [] ==> |r| == Count(Strip(raw), '\n') + 1
    ensures forall i :: 0 <= i < |r| ==> Stripped(r[i])
  {
    var text := Strip(raw);
    if text == [] then []
    else
      var lines := Split(text, '\n');
      SplitCount(text, '\n');
      StripEach(lines)
  }

  function StripEach(lines: seq<string>): (r: seq<string>)
    ensures |r| == |lines|
    ensures forall i :: 0 <= i < |r| ==> r[i] == Strip(lines[i])
  {
    if lines == [] then [] else [Strip(lines[0])] + StripEach(lines[1..])
  }

  /** Descriptions typed one per line come back as typed: joining stripped,
      newline-free descriptions (the first and last non-empty) and cleaning
      the text gives the same list. */
  lemma DescriptionsRoundTrip(ds: seq<string>)
    requires |ds| >= 1 && ds[0] != [] && ds[|ds| - 1] != []
    requires forall i :: 0 <= i < |ds| ==> '\n' !in ds[i] && Stripped(ds[i])
    ensures CleanDescriptions(Join(ds, '\n')) == ds
  {
    var text := Join(ds, '\n');
    JoinOfStripped(ds, '\n');
    assert Strip(text) == text;
    SplitOfJoin(ds, '\n');
    StripEachOfStripped(ds);
  }

  lemma JoinOfStripped(ds: seq<string>, sep: char)
    requires |ds| >= 1 && ds[0] != [] && ds[|ds| - 1] != []
    requires Stripped(ds[0]) && Stripped(ds[|ds| - 1])
    ensures Join(ds, sep) != [] && Stripped(Join(ds, sep))
  {
    JoinEnds(ds, sep);
  }

  lemma StripEachOfStripped(lines: seq<string>)
    requires forall i :: 0 <= i < |lines| ==> Stripped(lines[i])
    ensures StripEach(lines) == lines
  {
    var r := StripEach(lines);
    forall i | 0 <= i < |lines|
      ensures r[i] == lines[i]
    {
    }
  }

  /** The joined text starts with the first piece's first character and
      ends with the last piece's last character. */
  lemma JoinEnds(parts: seq<string>, sep: char)
    requires |parts| >= 1 && parts[0] != [] && parts[|parts| - 1] != []
    ensures Join(parts, sep) != []
    ensures Join(parts, sep)[0] == parts[0][0]
    ensures JoinLast(parts, sep)
  {
    if |parts| > 1 {
      JoinEndsLast(parts[1..], sep);
      assert parts[1..][|parts[1..]| - 1] == parts[|parts| - 1];
    }
  }

  /** The joined text ends with the last piece's last character. */
  predicate JoinLast(parts: seq<string>, sep: char)
    requires |parts| >= 1 && parts[|parts| - 1] != []
  {
    var s := Join(parts, sep);
    s != [] && s[|s| - 1] == parts[|parts| - 1][|parts[|parts| - 1]| - 1]
  }

  /** Only the last character matters here, so the first piece may be empty. */
  lemma {:induction false} JoinEndsLast(parts: seq<string>, sep: char)
    requires |parts| >= 1 && parts[|parts| - 1] != []
    ensures JoinLast(parts, sep)
  {
    if |parts| > 1 {
      JoinEndsLast(parts[1..], sep);
      assert parts[1..][|parts[1..]| - 1] == parts[|parts| - 1];
    }
  }

  /** Descriptions, when given, must be as many as the files. */
  function CleanSubmission(fileCount: nat, descriptions: seq<string>): (r: Outcome<FormError>)
    ensures r.Pass? <==> descriptions == [] || |descriptions| == fileCount
    ensures r.Fail? ==> r.error == DescriptionCountMismatch
  {
    if descriptions != [] && |descriptions| != fileCount then Fail(DescriptionCountMismatch) else Pass
  }

  /** The form with a description text: accepted exactly when the text is
      blank or has one line per file. */
  lemma SubmissionFormLines(raw: string, fileCount: nat)
    ensures CleanSubmission(fileCount, CleanDescriptions(raw)).Pass? <==>
      (Strip(raw) == [] || Count(Strip(raw), '\n') + 1 == fileCount)
  {
  }

  // ---------------------------------------------------------------------
  // MultipleFileField.clean

  /** What the widget delivers: a list of files or a single value. */
  datatype FieldData<X> = Many(items: seq<X>) | One(item: X)

  datatype Cleaned<Y> = CleanedMany(values: seq<Y>) | CleanedOne(value: Y)

  /** A list is cleaned element by element with the single-file clean (the
      first failure propagates); anything else is cleaned as one file. */
  function CleanField<X, Y(==), E(==)>(data: FieldData<X>, single: X -> Result<Y, E>): (r: Result<Cleaned<Y>, E>)
    ensures data.One? ==> (r.Ok? <==> single(data.item).Ok?)
    ensures data.One? && r.Ok? ==> r.value == CleanedOne(single(data.item).value)
    ensures data.Many? && r.Ok? ==> (r.value.CleanedMany? && |r.value.values| == |data.items|
      && forall i :: 0 <= i < |data.items| ==> single(data.items[i]) == Ok(r.value.values[i]))
    ensures data.Many? ==> (r.Ok? <==> forall i :: 0 <= i < |data.items| ==> single(data.items[i]).Ok?)
  {
    match data
    case One(x) =>
      var y :- single(x);
      Ok(CleanedOne(y))
    case Many(xs) =>
      var ys :- CleanEach(xs, single);
      Ok(CleanedMany(ys))
  }

  /** Element `i` is the first whose clean fails. */
  predicate FirstErrorAt<X, Y, E>(xs: seq<X>, single: X -> Result<Y, E>, i: int)
  {
    0 <= i < |xs| && single(xs[i]).Err? && forall j :: 0 <= j < i ==> single(xs[j]).Ok?
  }

  /** A clean that passes exactly the elements satisfying `ok`, returning
      them unchanged, accepts a list exactly when every element does. */
  lemma CleanEachOfFilter<X, E>(xs: seq<X>, check: X -> Result<X, E>, ok: X -> bool)
    requires forall x :: check(x).Ok? <==> ok(x)
    requires forall x :: check(x).Ok? ==> check(x).value == x
    ensures CleanEach(xs, check).Ok? <==> forall i :: 0 <= i < |xs| ==> ok(xs[i])
    ensures CleanEach(xs, check).Ok? ==> CleanEach(xs, check).value == xs
  {
    var r := CleanEach(xs, check);
    if r.Ok? {
      assert forall i :: 0 <= i < |xs| ==> r.value[i] == xs[i];
    }
  }

  function CleanEach<X, Y(==), E(==)>(xs: seq<X>, single: X -> Result<Y, E>): (r: Result<seq<Y>, E>)
    ensures r.Ok? <==> forall i :: 0 <= i < |xs| ==> single(xs[i]).Ok?
    ensures r.Ok? ==> |r.value| == |xs| && forall i :: 0 <= i < |xs| ==> single(xs[i]) == Ok(r.value[i])
    ensures r.Err? ==> exists i :: FirstErrorAt(xs, single, i) && single(xs[i]) == Err(r.error)
  {
    if xs == [] then Ok([])
    else
      var y :- single(xs[0]);
      var rest := CleanEach(xs[1..], single);
      if rest.Err? then
        var i :| FirstErrorAt(xs[1..], single, i) && single(xs[1..][i]) == Err(rest.error);
        assert xs[i + 1] == xs[1..][i];
        assert FirstErrorAt(xs, single, i + 1) by {
          forall j | 0 <= j < i + 1
            ensures single(xs[j]).Ok?
          {
            if j > 0 {
              assert xs[j] == xs[1..][j - 1];
            }
          }
        }
        Err(rest.error)
      else
        assert forall i :: 1 <= i < |xs| ==> xs[i] == xs[1..][i - 1];
        Ok([y] + rest.value)
  }
}

/** The form fields that carry the size validator of the models: the
    submission form's files and the exercise upload form's notebook. Django
    runs a field's validators before the form's `clean_<field>` method and
    skips that method when they fail. */
module ValidatedFields {
  import opened Wrappers
  import opened Text
  import opened Models
  import opened Forms

  /** The single-file clean of the submission form runs the size
      validator on each file. */
  function SubmissionFileClean(f: Upload): (r: Result<Upload, FormError>)
    ensures r.Ok? <==> f.size <= MaxUploadBytes
    ensures r.Ok? ==> r.value == f
    ensures r.Err? ==> r.error == FileError("The maximum file size that can be uploaded is 2GB")
  {
    match ValidateFileSize(f.size)
    case Pass => Ok(f)
    case Fail(m) => Err(FileError(m))
  }

  /** The submission's files are accepted exactly when each is at most
      2 GiB, and then come back unchanged and in order. */
  lemma SubmissionFilesChecked(files: seq<Upload>)
    ensures var r := CleanField(Many(files), SubmissionFileClean);
      && (r.Ok? <==> forall i :: 0 <= i < |files| ==> files[i].size <= MaxUploadBytes)
      && (r.Ok? ==> r.value == CleanedMany(files))
      && (r.Err? ==> r.error == FileError("The maximum file size that can be uploaded is 2GB"))
  {
    var r := CleanField(Many(files), SubmissionFileClean);
    if r.Ok? {
      assert r.value.values == files;
    }
  }

  /** The exercise upload form's notebook field: the size validator first,
      then `clean_notebook` on a notebook that passed it. */
  function NotebookField(notebook: Upload, limit: nat): (r: Result<Upload, FormError>)
    ensures r.Ok? <==> notebook.size <= MaxUploadBytes && CleanNotebook(Some(notebook), limit).Ok?
    ensures r.Ok? ==> r.value == notebook
    ensures notebook.size > MaxUploadBytes ==> r == Err(FileError("The maximum file size that can be uploaded is 2GB"))
    ensures notebook.size <= MaxUploadBytes && CleanNotebook(Some(notebook), limit).Err? ==>
      r == Err(CleanNotebook(Some(notebook), limit).error)
  {
    match ValidateFileSize(notebook.size)
    case Fail(m) => Err(FileError(m))
    case Pass =>
      match CleanNotebook(Some(notebook), limit)
      case Ok(_) => Ok(notebook)
      case Err(e) => Err(e)
  }

  /** A notebook over 2 GiB is refused for its size whatever its name,
      although `clean_notebook` alone would object to the name first. */
  lemma OversizedNotebookRefusedForSize(name: string, size: nat, limit: nat)
    requires size > MaxUploadBytes
    ensures NotebookField(Upload(name, size), limit) == Err(FileError("The maximum file size that can be uploaded is 2GB"))
    ensures name != [] && !EndsWith(name, ".ipynb") ==> CleanNotebook(Some(Upload(name, size)), limit) == Err(NotNotebook)
  {
  }
}
