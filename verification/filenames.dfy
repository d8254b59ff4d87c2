/** The file names shown for uploaded files: the `basename` template filter
    and the notebook name `lesson_detail` passes to the exercise page. */
module FileNames {
  import opened Wrappers
  import opened Text

  /** The `basename` template filter: empty for a missing or empty value,
      otherwise `os.path.basename`. */
  function Basename(value: Option<string>): (r: string)
    ensures '/' !in r
    ensures value.Some? ==> |r| <= |value.value| && r == value.value[|value.value| - |r|..]
    ensures value.Some? && '/' !in value.value ==> r == value.value
  {
    if value.None? || value.value == [] then "" else AfterLast(value.value, '/')
  }

  /** The filter inverts joining a directory with a file name. */
  lemma BasenameOfJoin(dir: string, name: string)
    requires '/' !in name
    ensures Basename(Some(dir + "/" + name)) == name
  {
    assert dir + "/" + name == (dir + "/") + name;
    AfterLastOfSuffix(dir + "/", name, '/');
  }

  /** The notebook name in `lesson_detail`: only for a Jupyter exercise with
      a file; the base name with backslashes turned into slashes, and the
      last slash-separated piece of that (`AfterLast`, which is the last
      piece of `Split` by `AfterLastIsLastPiece`). */
  function NotebookName(isJupyter: bool, fileName: string): (r: Option<string>)
    ensures r.Some? <==> isJupyter && fileName != []
    ensures r.Some? ==> '/' !in r.value && '\\' !in r.value
  {
    if isJupyter && fileName != [] then Some(CleanName(fileName)) else None
  }

  /** The stored name cut after its last slash, backslashes then made
      slashes, and cut again after the last slash. */
  function CleanName(fileName: string): (r: string)
    ensures '/' !in r && '\\' !in r
  {
    var t := ReplaceChar(AfterLast(fileName, '/'), '\\', '/');
    NoBackslashLeft(t);
    AfterLast(t, '/')
  }

  /** After the replacement no backslash is left, in particular not in the
      last piece. */
  lemma NoBackslashLeft(t: string)
    requires forall i :: 0 <= i < |t| ==> t[i] != '\\'
    ensures '\\' !in AfterLast(t, '/')
  {
    var r := AfterLast(t, '/');
    assert |r| <= |t| && r == t[|t| - |r|..];
    forall i | 0 <= i < |r|
      ensures r[i] != '\\'
    {
      assert r[i] == t[|t| - |r| + i];
    }
  }

  /** `r` is the last `|r|` characters of `s`. */
  predicate SuffixOf(s: string, r: string)
  {
    |r| <= |s| && forall i :: 0 <= i < |r| ==> r[i] == s[|s| - |r| + i]
  }

  /** The character before the suffix `r` of `s`, if any, is in `seps`. */
  predicate CutAfter(s: string, r: string, seps: string)
    requires |r| <= |s|
  {
    |r| < |s| ==> s[|s| - |r| - 1] in seps
  }

  /** The cleaned name is the text after the last slash or backslash of the
      stored name. */
  lemma CleanNameIsLastSegment(fileName: string)
    ensures SuffixOf(fileName, CleanName(fileName)) && CutAfter(fileName, CleanName(fileName), "/\\")
  {
    var base := AfterLast(fileName, '/');
    AfterSlashFacts(fileName, base);
    var t := ReplaceChar(base, '\\', '/');
    ReplacedFacts(base, t);
    var r := AfterLast(t, '/');
    AfterSlashFacts(t, r);
    CleanSteps(fileName, base, t, r);
    assert CleanName(fileName) == r;
  }

  lemma AfterSlashFacts(s: string, r: string)
    requires r == AfterLast(s, '/')
    ensures '/' !in r && SuffixOf(s, r) && CutAfter(s, r, "/")
  {
  }

  /** `t` is `base` with every backslash turned into a slash. */
  predicate Replaced(base: string, t: string)
  {
    |t| == |base| && forall i :: 0 <= i < |base| ==> t[i] == (if base[i] == '\\' then '/' else base[i])
  }

  lemma ReplacedFacts(base: string, t: string)
    requires t == ReplaceChar(base, '\\', '/')
    ensures Replaced(base, t)
  {
  }

  lemma CleanSteps(fileName: string, base: string, t: string, r: string)
    requires SuffixOf(fileName, base) && CutAfter(fileName, base, "/")
    requires Replaced(base, t)
    requires '/' !in r && SuffixOf(t, r) && CutAfter(t, r, "/")
    ensures SuffixOf(fileName, r) && CutAfter(fileName, r, "/\\")
  {
    SuffixOfReplaced(base, t, r);
    SuffixOfSuffix(fileName, base, r);
  }

  /** For names without backslashes the cleanup changes nothing: the
      notebook name is the plain base name. */
  lemma NotebookNameWithoutBackslash(fileName: string)
    requires fileName != [] && '\\' !in fileName
    ensures NotebookName(true, fileName) == Some(Basename(Some(fileName)))
  {
    var base := AfterLast(fileName, '/');
    assert '\\' !in base;
    UnchangedWithoutBackslash(base, ReplaceChar(base, '\\', '/'));
    assert AfterLast(base, '/') == base;
  }

  /** The last piece after replacing backslashes is a suffix of the text
      before the replacement, preceded there by a slash or a backslash. */
  lemma SuffixOfReplaced(base: string, t: string, r: string)
    requires Replaced(base, t)
    requires '/' !in r && SuffixOf(t, r) && CutAfter(t, r, "/")
    ensures SuffixOf(base, r) && CutAfter(base, r, "/\\")
  {
    var off := |base| - |r|;
    forall i | 0 <= i < |r|
      ensures r[i] == base[off + i]
    {
      assert r[i] == t[off + i];
    }
  }

  /** A suffix of the base name is a suffix of the stored name, and the
      character before it is either inside the base name or the slash that
      precedes the base name. */
  lemma SuffixOfSuffix(fileName: string, base: string, r: string)
    requires SuffixOf(fileName, base) && CutAfter(fileName, base, "/")
    requires SuffixOf(base, r) && CutAfter(base, r, "/\\")
    ensures SuffixOf(fileName, r) && CutAfter(fileName, r, "/\\")
  {
    forall i | 0 <= i < |r|
      ensures r[i] == fileName[|fileName| - |r| + i]
    {
      assert r[i] == base[|base| - |r| + i];
    }
    if |r| < |base| {
      assert fileName[|fileName| - |r| - 1] == base[|base| - |r| - 1];
    }
  }

  lemma UnchangedWithoutBackslash(base: string, t: string)
    requires '\\' !in base
    requires t == ReplaceChar(base, '\\', '/')
    ensures t == base
  {
  }
}
