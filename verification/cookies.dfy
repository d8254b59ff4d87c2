/** Reading cookies in the browser: the enrolment page's `getCookie`, the
    lesson editor's `getCsrfToken`, and the `Cookie` header rendering of
    section 4.2.1 of RFC 6265 that both read back. */
module Cookies {
  import opened Wrappers
  import opened Text

  /** A trimmed cookie text `t` is the cookie `name`: it starts with
      `name=`. Both page scripts use this test. */
  predicate Names(t: string, name: string)
  {
    && |name| < |t| && t[|name|] == '='
    && forall i :: 0 <= i < |name| ==> t[i] == name[i]
  }

  /** The `;`-separated pieces of a cookie string, each trimmed. */
  function CookieTexts(cookies: string): (texts: seq<string>)
  {
    var pieces := Split(cookies, ';');
    seq(|pieces|, j requires 0 <= j < |pieces| => Trim(pieces[j]))
  }

  /** The first of `texts[i..]` that is the cookie `name`, or `|texts|`
      when there is none. */
  function FirstNamed(texts: seq<string>, name: string, i: nat): (k: nat)
    requires i <= |texts|
    ensures i <= k <= |texts|
    decreases |texts| - i
  {
    if i == |texts| || Names(texts[i], name) then i else FirstNamed(texts, name, i + 1)
  }

  /** No text before the one found is the cookie, and the one found is. */
  lemma {:induction false} FirstNamedMeaning(texts: seq<string>, name: string, i: nat)
    requires i <= |texts|
    ensures forall j :: i <= j < FirstNamed(texts, name, i) ==> !Names(texts[j], name)
    ensures FirstNamed(texts, name, i) < |texts| ==> Names(texts[FirstNamed(texts, name, i)], name)
    decreases |texts| - i
  {
    if i < |texts| && !Names(texts[i], name) {
      FirstNamedMeaning(texts, name, i + 1);
    }
  }

  lemma {:induction false} FirstNamedIs(texts: seq<string>, name: string, i: nat, k: nat)
    requires i <= k <= |texts|
    requires forall j :: i <= j < k ==> !Names(texts[j], name)
    requires k < |texts| ==> Names(texts[k], name)
    ensures FirstNamed(texts, name, i) == k
    decreases k - i
  {
    if i < k {
      FirstNamedIs(texts, name, i + 1, k);
    }
  }

  /** The text found is longer than `name=`. */
  lemma FoundIsLonger(texts: seq<string>, name: string)
    ensures FirstNamed(texts, name, 0) < |texts| ==> |name| < |texts[FirstNamed(texts, name, 0)]|
  {
    FirstNamedMeaning(texts, name, 0);
  }

  /** The text after `name=` in the first text that is the cookie
      `name`. */
  function CookieIn(texts: seq<string>, name: string): (r: Option<string>)
  {
    var k := FirstNamed(texts, name, 0);
    if k < |texts| then
      FoundIsLonger(texts, name);
      Some(texts[k][|name| + 1..])
    else None
  }

  /** `getCookie`: the value in the first `;`-separated, trimmed piece of
      the cookie string that starts with `name=`; `None` for an empty
      cookie string. */
  function GetCookie(cookies: string, name: string): (r: Option<string>)
    ensures cookies == [] ==> r == None
  {
    if cookies == [] then None else CookieIn(CookieTexts(cookies), name)
  }

  /** `getCookie` finds nothing exactly when no trimmed piece is the
      cookie `name`; otherwise its value is everything after the first
      `name=` of the first such piece. */
  lemma GetCookieMeaning(cookies: string, name: string)
    ensures var texts := CookieTexts(cookies);
      GetCookie(cookies, name) == None <==> forall j :: 0 <= j < |texts| ==> !Names(texts[j], name)
    ensures var texts := CookieTexts(cookies);
      GetCookie(cookies, name).Some? ==>
        (exists k :: 0 <= k < |texts| && Names(texts[k], name)
          && GetCookie(cookies, name).value == texts[k][|name| + 1..]
          && forall j :: 0 <= j < k ==> !Names(texts[j], name))
  {
    FirstNamedMeaning(CookieTexts(cookies), name, 0);
    if cookies == [] {
      EmptyCookieString(name);
    }
  }

  /** The empty cookie string is one empty piece, which is no cookie. */
  lemma EmptyCookieString(name: string)
    ensures CookieTexts([]) == [[]]
    ensures !Names([], name)
    ensures FirstNamed([[]], name, 0) == 1
  {
    assert Split([], ';') == [[]];
  }

  /** A text that is the cookie `name` splits at `=` into `name` and the
      pieces of its value. */
  lemma NameSplit(t: string, name: string)
    requires Names(t, name) && '=' !in name
    ensures Split(t, '=') == [name] + Split(t[|name| + 1..], '=')
  {
    assert t == name + "=" + t[|name| + 1..];
    SplitAfterPiece(name, t[|name| + 1..], '=');
  }

  /** `Split` cuts at the first separator. */
  lemma {:induction false} SplitAfterPiece(a: string, b: string, sep: char)
    requires sep !in a
    ensures Split(a + [sep] + b, sep) == [a] + Split(b, sep)
  {
    var s := a + [sep] + b;
    if a == [] {
      assert s[1..] == b;
    } else {
      SplitAfterPiece(a[1..], b, sep);
      assert s[1..] == a[1..] + [sep] + b;
      assert [a[0]] + a[1..] == a;
    }
  }

  /** `getCsrfToken`: the `csrftoken` cookie cut at its `=` signs, keeping
      the second piece; without the cookie, the token of the page's form
      when there is one, and otherwise the empty text. */
  function GetCsrfToken(cookies: string, formToken: Option<string>): (token: string)
    ensures CookieIn(CookieTexts(cookies), "csrftoken").None? ==> token == (if formToken.Some? then formToken.value else "")
    ensures CookieIn(CookieTexts(cookies), "csrftoken").Some? ==>
      token == Split(CookieIn(CookieTexts(cookies), "csrftoken").value, '=')[0]
  {
    var texts := CookieTexts(cookies);
    if CookieIn(texts, "csrftoken").Some? then
      CsrfTokenOfTexts(texts, formToken);
      CsrfTokenIn(texts, formToken)
    else
      CsrfTokenIn(texts, formToken)
  }

  /** `getCsrfToken` on the trimmed pieces. */
  function CsrfTokenIn(texts: seq<string>, formToken: Option<string>): string
  {
    var k := FirstNamed(texts, "csrftoken", 0);
    if k < |texts| then
      var parts := Split(texts[k], '=');
      if |parts| >= 2 then parts[1] else ""
    else if formToken.Some? then formToken.value
    else ""
  }

  /** The CSRF token is the cookie's value up to its first `=`. */
  lemma CsrfTokenFromCookie(cookies: string, formToken: Option<string>)
    requires GetCookie(cookies, "csrftoken").Some?
    ensures GetCsrfToken(cookies, formToken) == Split(GetCookie(cookies, "csrftoken").value, '=')[0]
  {
    CsrfTokenOfTexts(CookieTexts(cookies), formToken);
  }

  lemma CsrfTokenOfTexts(texts: seq<string>, formToken: Option<string>)
    requires CookieIn(texts, "csrftoken").Some?
    ensures CsrfTokenIn(texts, formToken) == Split(CookieIn(texts, "csrftoken").value, '=')[0]
  {
    FirstNamedMeaning(texts, "csrftoken", 0);
    NameSplit(texts[FirstNamed(texts, "csrftoken", 0)], "csrftoken");
  }

  /** Without the cookie the token comes from the page's form, if any. */
  lemma CsrfTokenFromForm(cookies: string, formToken: Option<string>)
    requires GetCookie(cookies, "csrftoken").None?
    ensures GetCsrfToken(cookies, formToken) == (if formToken.Some? then formToken.value else "")
  {
    if cookies == [] {
      EmptyCookieString("csrftoken");
    }
  }

  /** The two readers agree on the CSRF cookie exactly when its value holds
      no `=`. */
  lemma CsrfTokenDiffersOnEquals(cookies: string, formToken: Option<string>, v: string)
    requires GetCookie(cookies, "csrftoken") == Some(v)
    ensures GetCsrfToken(cookies, formToken) == v <==> '=' !in v
  {
    CsrfTokenFromCookie(cookies, formToken);
    if '=' !in v {
      SplitOfPiece(v, '=');
    } else {
      assert '=' !in Split(v, '=')[0];
    }
  }

  /** A trimmed text without `;` is a cookie string of one piece. */
  lemma SingleCookie(s: string)
    requires ';' !in s && Trimmed(s)
    ensures CookieTexts(s) == [s]
  {
    SplitOfPiece(s, ';');
  }

  lemma ValueKeepsEquals()
    ensures GetCookie("csrftoken=a=b", "csrftoken") == Some("a=b")
  {
    var s := "csrftoken=a=b";
    SingleCookie(s);
    FirstNamedIs([s], "csrftoken", 0, 0);
  }

  lemma CsrfTokenCutsAtEquals()
    ensures GetCsrfToken("csrftoken=a=b", None) == "a"
  {
    ValueKeepsEquals();
    CsrfTokenFromCookie("csrftoken=a=b", None);
    FirstPieceOfValue();
  }

  lemma FirstPieceOfValue()
    ensures Split("a=b", '=')[0] == "a"
  {
    assert "a=b" == "a" + "=" + "b";
    SplitAfterPiece("a", "b", '=');
  }

  /** A cookie whose name merely starts with the requested name is not
      that cookie. */
  lemma LongerNameDoesNotMatch()
    ensures GetCookie("csrftoken2=x", "csrftoken") == None
  {
    var s := "csrftoken2=x";
    SingleCookie(s);
    assert s[9] != '=';
    FirstNamedIs([s], "csrftoken", 0, 1);
  }

  // ---------------------------------------------------------------------
  // The Cookie header of RFC 6265

  /** A cookie name: a non-empty token, so no `=`, no `;` and no white
      space. */
  predicate IsCookieName(n: string)
  {
    n != [] && forall i :: 0 <= i < |n| ==> n[i] != '=' && n[i] != ';' && !IsSpace(n[i])
  }

  /** A cookie value: no `;` and no white space; `=` is allowed. */
  predicate IsCookieValue(v: string)
  {
    forall i :: 0 <= i < |v| ==> v[i] != ';' && !IsSpace(v[i])
  }

  datatype CookiePair = CookiePair(name: string, value: string)

  predicate WellFormed(ps: seq<CookiePair>)
  {
    forall j :: 0 <= j < |ps| ==> IsCookieName(ps[j].name) && IsCookieValue(ps[j].value)
  }

  function PairText(p: CookiePair): string
  {
    p.name + "=" + p.value
  }

  /** The pieces between the `;` separators of the rendered header: every
      pair after the first follows a space. */
  function HeaderPieces(ps: seq<CookiePair>): (pieces: seq<string>)
    ensures |pieces| == |ps|
    ensures forall j :: 0 <= j < |ps| ==> pieces[j] == (if j == 0 then [] else " ") + PairText(ps[j])
  {
    seq(|ps|, j requires 0 <= j < |ps| => (if j == 0 then [] else " ") + PairText(ps[j]))
  }

  /** `name=value; name=value; …` */
  function CookieHeader(ps: seq<CookiePair>): string
    requires |ps| >= 1
  {
    Join(HeaderPieces(ps), ';')
  }

  lemma PairTextTrimmed(p: CookiePair)
    requires IsCookieName(p.name) && IsCookieValue(p.value)
    ensures Trimmed(PairText(p))
  {
    var t := PairText(p);
    assert t[0] == p.name[0];
    if p.value != [] {
      assert t[|t| - 1] == p.value[|p.value| - 1];
    }
  }

  lemma PairTextHasNoSemicolon(p: CookiePair)
    requires IsCookieName(p.name) && IsCookieValue(p.value)
    ensures ';' !in PairText(p)
  {
    var t := PairText(p);
    forall i | 0 <= i < |t|
      ensures t[i] != ';'
    {
      if i > |p.name| {
        assert t[i] == p.value[i - |p.name| - 1];
      } else if i < |p.name| {
        assert t[i] == p.name[i];
      }
    }
  }

  /** Trimming drops the space before a pair. */
  lemma TrimLeadingSpace(t: string)
    requires t != [] && Trimmed(t)
    ensures Trim(" " + t) == t
  {
    assert (" " + t)[1..] == t;
    assert TrimStartIn(JavaScript, " " + t) == TrimStartIn(JavaScript, t);
  }

  lemma SpaceAddsNoSemicolon(t: string)
    requires ';' !in t
    ensures ';' !in " " + t
  {
    forall i | 0 <= i < |" " + t|
      ensures (" " + t)[i] != ';'
    {
      if i > 0 {
        assert (" " + t)[i] == t[i - 1];
      }
    }
  }

  lemma HeaderPiece(ps: seq<CookiePair>, j: nat)
    requires WellFormed(ps) && j < |ps|
    ensures ';' !in HeaderPieces(ps)[j]
    ensures Trim(HeaderPieces(ps)[j]) == PairText(ps[j])
  {
    var t := PairText(ps[j]);
    PairTextTrimmed(ps[j]);
    PairTextHasNoSemicolon(ps[j]);
    if j > 0 {
      TrimLeadingSpace(t);
      SpaceAddsNoSemicolon(t);
    } else {
      assert HeaderPieces(ps)[j] == t;
    }
  }

  /** `n1=v` is the cookie `n2` exactly when the names are equal, for names
      without `=`. */
  lemma NamesIffSameName(n1: string, v: string, n2: string)
    requires '=' !in n1 && '=' !in n2
    ensures Names(n1 + "=" + v, n2) <==> n1 == n2
  {
    var t := n1 + "=" + v;
    if |n2| < |n1| {
      assert t[|n2|] == n1[|n2|] != '=';
    } else if |n2| > |n1| {
      assert t[|n1|] == '=' != n2[|n1|];
    }
  }

  /** Reading a cookie back from a well-formed header gives the value of
      the first pair with that name. */
  lemma CookieHeaderRoundTrip(ps: seq<CookiePair>, k: nat)
    requires |ps| >= 1 && WellFormed(ps) && k < |ps|
    requires forall j :: 0 <= j < k ==> ps[j].name != ps[k].name
    ensures GetCookie(CookieHeader(ps), ps[k].name) == Some(ps[k].value)
  {
    var s := CookieHeader(ps);
    var name := ps[k].name;
    HeaderTexts(ps);
    var texts := CookieTexts(s);
    forall j | 0 <= j <= k
      ensures Names(texts[j], name) <==> j == k
    {
      NamesIffSameName(ps[j].name, ps[j].value, name);
    }
    FirstNamedIs(texts, name, 0, k);
    HeaderNotEmpty(ps);
    assert texts[k] == name + "=" + ps[k].value;
    assert texts[k][|name| + 1..] == ps[k].value;
  }

  /** The trimmed pieces of a well-formed header are its pairs. */
  lemma HeaderTexts(ps: seq<CookiePair>)
    requires |ps| >= 1 && WellFormed(ps)
    ensures |CookieTexts(CookieHeader(ps))| == |ps|
    ensures forall j :: 0 <= j < |ps| ==> CookieTexts(CookieHeader(ps))[j] == PairText(ps[j])
  {
    var pieces := HeaderPieces(ps);
    forall j | 0 <= j < |ps|
      ensures ';' !in pieces[j]
    {
      HeaderPiece(ps, j);
    }
    SplitOfJoin(pieces, ';');
    TextsOfPieces(CookieHeader(ps), pieces);
    forall j | 0 <= j < |ps|
      ensures Trim(pieces[j]) == PairText(ps[j])
    {
      HeaderPiece(ps, j);
    }
  }

  /** A cookie string that splits into `pieces` has their trims as texts. */
  lemma TextsOfPieces(cookies: string, pieces: seq<string>)
    requires Split(cookies, ';') == pieces
    ensures |CookieTexts(cookies)| == |pieces|
    ensures forall j :: 0 <= j < |pieces| ==> CookieTexts(cookies)[j] == Trim(pieces[j])
  {
  }

  lemma HeaderNotEmpty(ps: seq<CookiePair>)
    requires |ps| >= 1 && WellFormed(ps)
    ensures CookieHeader(ps) != []
  {
    var pieces := HeaderPieces(ps);
    assert pieces[0] == PairText(ps[0]);
    if |pieces| > 1 {
      assert CookieHeader(ps) == pieces[0] + [';'] + Join(pieces[1..], ';');
    }
  }
}
