/** The course settings page: the page's checks on the JupyterLab image
    name and the domain name before it submits, and the server's handling
    of the domain field. */
module SiteSettings {
  import opened Wrappers
  import opened Text

  // ---------------------------------------------------------------------
  // Domain names

  predicate IsAsciiAlnum(c: char)
  {
    ('a' <= c <= 'z') || ('A' <= c <= 'Z') || ('0' <= c <= '9')
  }

  predicate IsDomainChar(c: char)
  {
    IsAsciiAlnum(c) || c == '-' || c == '_' || c == '.'
  }

  /** `^[a-zA-Z0-9][a-zA-Z0-9-_.]+[a-zA-Z0-9]$`, the pattern both the page
      and the server use: an alphanumeric first and last character around
      at least one letter, digit, `-`, `_` or `.`. */
  predicate DomainPattern(s: string)
  {
    && |s| >= 3
    && IsAsciiAlnum(s[0]) && IsAsciiAlnum(s[|s| - 1])
    && forall i :: 1 <= i < |s| - 1 ==> IsDomainChar(s[i])
  }

  /** The page also wants a dot somewhere. */
  predicate ClientDomainOk(s: string)
  {
    DomainPattern(s) && '.' in s
  }

  /** The page refuses a name without a dot that the server would store. */
  lemma DomainExamples()
    ensures DomainPattern("abc") && !ClientDomainOk("abc")
    ensures ClientDomainOk("a.de")
    ensures !DomainPattern("-a.de") && !DomainPattern("a.") && !DomainPattern("a.d-")
  {
    assert "a.de"[1] == '.';
  }

  /** The server's handling of the submitted domain: surrounding white
      space is stripped, an empty value clears the stored domain, and any
      other value must match the pattern. */
  function SaveDomain(raw: string): (r: Result<Option<string>, string>)
    ensures r == Ok(None) <==> Strip(raw) == []
    ensures r.Ok? && r.value.Some? <==> Strip(raw) != [] && DomainPattern(Strip(raw))
    ensures r.Ok? && r.value.Some? ==> r.value.value == Strip(raw)
    ensures r.Err? ==> r.error == "Invalid domain name format"
  {
    var d := Strip(raw);
    if d == [] then Ok(None)
    else if !DomainPattern(d) then Err("Invalid domain name format")
    else Ok(Some(d))
  }

  // ---------------------------------------------------------------------
  // Docker image names

  predicate IsNameChar(c: char)
  {
    ('a' <= c <= 'z') || ('0' <= c <= '9')
  }

  predicate IsSeparator(c: char)
  {
    c == '.' || c == '_' || c == '-'
  }

  /** `[a-z0-9]+(?:[._-][a-z0-9]+)*` spanning `s[a..b]`: lower-case
      alphanumeric runs joined by single separators. */
  predicate NameRange(s: string, a: nat, b: nat)
  {
    && a < b <= |s|
    && IsNameChar(s[a]) && IsNameChar(s[b - 1])
    && (forall i :: a <= i < b ==> IsNameChar(s[i]) || IsSeparator(s[i]))
    && (forall i :: a <= i < b - 1 ==> IsSeparator(s[i]) ==> IsNameChar(s[i + 1]))
  }

  predicate IsName(t: string)
  {
    NameRange(t, 0, |t|)
  }

  /** A name check in one left-to-right pass, remembering only whether the
      previous character was a separator. */
  method ScanName(t: string) returns (ok: bool)
    ensures ok <==> IsName(t)
  {
    if |t| == 0 || !IsNameChar(t[0]) {
      return false;
    }
    var i := 1;
    while i < |t|
      invariant 1 <= i <= |t|
      invariant forall j :: 0 <= j < i ==> IsNameChar(t[j]) || IsSeparator(t[j])
      invariant forall j :: 0 <= j < i - 1 ==> IsSeparator(t[j]) ==> IsNameChar(t[j + 1])
    {
      if !IsNameChar(t[i]) && !IsSeparator(t[i]) {
        return false;
      }
      if IsSeparator(t[i]) && IsSeparator(t[i - 1]) {
        return false;
      }
      i := i + 1;
    }
    ok := IsNameChar(t[|t| - 1]);
  }

  /** The first position at or after `i` holding `c`, or the length. */
  function FirstFrom(s: string, c: char, i: nat): (k: nat)
    requires i <= |s|
    ensures i <= k <= |s|
    ensures forall j :: i <= j < k ==> s[j] != c
    ensures k < |s| ==> s[k] == c
    decreases |s| - i
  {
    if i == |s| || s[i] == c then i else FirstFrom(s, c, i + 1)
  }

  lemma {:induction false} FirstFromIs(s: string, c: char, i: nat, k: nat)
    requires i <= k <= |s|
    requires forall j :: i <= j < k ==> s[j] != c
    requires k < |s| ==> s[k] == c
    ensures FirstFrom(s, c, i) == k
    decreases k - i
  {
    if i < k {
      FirstFromIs(s, c, i + 1, k);
    }
  }

  /** `s` split as registry `s[..k-1]` and `/` (when `k > 0`), name
      `s[k..m]`, and `:` and tag `s[m+1..]` (when `m < |s|`). */
  predicate ImageAt(s: string, k: nat, m: nat)
  {
    && k <= m <= |s|
    && (k == 0 || (s[k - 1] == '/' && NameRange(s, 0, k - 1)))
    && NameRange(s, k, m)
    && (m == |s| || (s[m] == ':' && NameRange(s, m + 1, |s|)))
  }

  /** `^(name/)?(name)(:name)?$`: some split fits. */
  predicate ImagePattern(s: string)
  {
    exists k: nat, m: nat :: k <= m <= |s| && ImageAt(s, k, m)
  }

  /** The image check done deterministically: the registry ends at the
      first `/`, the tag starts at the first `:` after it. */
  function IsValidDockerImage(s: string): (ok: bool)
    ensures ok ==> ImagePattern(s)
  {
    var slash := FirstFrom(s, '/', 0);
    var k := if slash < |s| then slash + 1 else 0;
    var m := FirstFrom(s, ':', k);
    ImageAt(s, k, m)
  }

  /** No name holds a `/` or a `:`. */
  lemma NameHasNoDelimiters(s: string, a: nat, b: nat, j: nat)
    requires NameRange(s, a, b) && a <= j < b
    ensures s[j] != '/' && s[j] != ':'
  {
  }

  /** Since names hold no `/` and no `:`, the split is unique, so the
      deterministic check accepts every image the pattern accepts. */
  lemma ImagePatternDeterministic(s: string)
    ensures IsValidDockerImage(s) <==> ImagePattern(s)
  {
    if ImagePattern(s) {
      var k: nat, m: nat :| ImageAt(s, k, m);
      SplitIsFirst(s, k, m);
    }
  }

  lemma SplitIsFirst(s: string, k: nat, m: nat)
    requires ImageAt(s, k, m)
    ensures (if FirstFrom(s, '/', 0) < |s| then FirstFrom(s, '/', 0) + 1 else 0) == k
    ensures FirstFrom(s, ':', k) == m
  {
    forall j | k <= j < m
      ensures s[j] != ':' && s[j] != '/'
    {
      NameHasNoDelimiters(s, k, m, j);
    }
    FirstFromIs(s, ':', k, m);
    if k == 0 {
      forall j | 0 <= j < |s|
        ensures s[j] != '/'
      {
        if j > m {
          NameHasNoDelimiters(s, m + 1, |s|, j);
        }
      }
      FirstFromIs(s, '/', 0, |s|);
    } else {
      forall j | 0 <= j < k - 1
        ensures s[j] != '/'
      {
        NameHasNoDelimiters(s, 0, k - 1, j);
      }
      FirstFromIs(s, '/', 0, k - 1);
    }
  }

  lemma ImagesAccepted()
    ensures IsValidDockerImage("a/b:c")
    ensures IsValidDockerImage("ubuntu")
  {
    assert ImageAt("a/b:c", 2, 3);
    assert ImageAt("ubuntu", 0, 6);
    ImagePatternDeterministic("a/b:c");
    ImagePatternDeterministic("ubuntu");
  }

  /** A name placed at offset `k` keeps its name shape. */
  lemma NameShifted(pre: string, t: string, post: string)
    requires IsName(t)
    ensures NameRange(pre + t + post, |pre|, |pre| + |t|)
  {
    var s := pre + t + post;
    forall i | |pre| <= i < |pre| + |t|
      ensures s[i] == t[i - |pre|]
    {
    }
  }

  /** `registry/name:tag` built from three names passes the check. */
  lemma ImageOfParts(a: string, b: string, c: string)
    requires IsName(a) && IsName(b) && IsName(c)
    ensures IsValidDockerImage(a + "/" + b + ":" + c)
  {
    var s := a + "/" + b + ":" + c;
    NameShifted([], a, "/" + b + ":" + c);
    assert [] + a + ("/" + b + ":" + c) == s;
    NameShifted(a + "/", b, ":" + c);
    assert (a + "/") + b + (":" + c) == s;
    NameShifted(a + "/" + b + ":", c, []);
    assert (a + "/" + b + ":") + c + [] == s;
    assert ImageAt(s, |a| + 1, |a| + 1 + |b|);
    ImagePatternDeterministic(s);
  }

  /** A name of lower-case letters only. */
  lemma LetterName(t: string)
    requires t != [] && forall i :: 0 <= i < |t| ==> 'a' <= t[i] <= 'z'
    ensures IsName(t)
  {
  }

  /** Two names joined by `-` form a name. */
  lemma HyphenName(x: string, y: string)
    requires IsName(x) && IsName(y)
    ensures IsName(x + "-" + y)
  {
    var s := x + "-" + y;
    forall i | 0 <= i < |s|
      ensures s[i] == (if i < |x| then x[i] else if i == |x| then '-' else y[i - |x| - 1])
    {
    }
  }

  /** The example the page's alert offers,
      "jupyter/datascience-notebook:latest", passes its own check. */
  lemma AlertExampleAccepted()
    ensures IsValidDockerImage("jupyter" + "/" + ("datascience" + "-" + "notebook") + ":" + "latest")
  {
    LetterName("jupyter");
    LetterName("datascience");
    LetterName("notebook");
    LetterName("latest");
    HyphenName("datascience", "notebook");
    ImageOfParts("jupyter", "datascience" + "-" + "notebook", "latest");
  }

  lemma DoubleSeparatorRefused()
    ensures !IsValidDockerImage("a..b")
  {
    var s := "a..b";
    FirstFromIs(s, '/', 0, 4);
    FirstFromIs(s, ':', 0, 4);
    assert IsSeparator(s[1]) && !IsNameChar(s[2]);
  }

  lemma SecondSlashRefused()
    ensures !IsValidDockerImage("a/b/c")
  {
    var s := "a/b/c";
    FirstFromIs(s, '/', 0, 1);
    FirstFromIs(s, ':', 2, 5);
    assert !IsNameChar(s[3]) && !IsSeparator(s[3]);
  }

  lemma UpperCaseAndEmptyRefused()
    ensures !IsValidDockerImage("")
    ensures !IsValidDockerImage("A")
  {
  }

  // ---------------------------------------------------------------------
  // Submitting the form

  datatype Alert = ImageAlert | DomainAlert

  /** The page's checks before it posts the settings: each field is
      checked only when it holds more than white space, the image first. */
  function SubmitGuard(image: string, domain: string): (r: Outcome<Alert>)
    ensures r.Pass? <==> (Trim(image) == [] || IsValidDockerImage(Trim(image))) && (Trim(domain) == [] || ClientDomainOk(Trim(domain)))
    ensures r == Fail(ImageAlert) <==> Trim(image) != [] && !IsValidDockerImage(Trim(image))
  {
    var img := Trim(image);
    var dom := Trim(domain);
    if img != [] && !IsValidDockerImage(img) then Fail(ImageAlert)
    else if dom != [] && !ClientDomainOk(dom) then Fail(DomainAlert)
    else Pass
  }

  /** A form the page lets through is never refused by the server for its
      domain, and the server stores the value the page checked: where the
      page's trim leaves a name, its alphanumeric ends are not white space
      to Python either. */
  lemma SubmittedDomainIsStored(image: string, domain: string)
    requires SubmitGuard(image, domain).Pass?
    ensures SaveDomain(domain).Ok?
    ensures Trim(domain) != [] ==> SaveDomain(domain) == Ok(Some(Trim(domain)))
  {
    var t := Trim(domain);
    assert t == [] || DomainPattern(t);
    if t != [] {
      PatternIsStripped(t);
    }
    StripAgreesWithTrim(domain);
  }

  /** A name matching the pattern has alphanumeric ends, which are white
      space to neither runtime. */
  lemma PatternIsStripped(t: string)
    requires DomainPattern(t)
    ensures Stripped(t)
  {
  }
}
