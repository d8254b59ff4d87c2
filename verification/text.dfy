/** String primitives shared by the Python and JavaScript parts of the model.
    Strings are sequences of characters; case mapping and white space are the
    ASCII subsets of what Python's `str` and JavaScript's `String` do. */
module Text {

  /** JavaScript's `trim()` set, restricted to ASCII: space, tab, line
      feed, vertical tab, form feed and carriage return. */
  predicate IsSpace(c: char)
  {
    c == ' ' || c == '\t' || c == '\n' || c == '\r' || c == '\U{000B}' || c == '\U{000C}'
  }

  /** Which language's notion of white space a trim uses. */
  datatype Runtime = JavaScript | Python

  /** Python's `str.isspace` on ASCII also holds for the four separator
      controls 0x1C to 0x1F, which JavaScript's `trim()` keeps. */
  predicate IsSpaceIn(rt: Runtime, c: char)
  {
    IsSpace(c) || (rt == Python && '\U{001C}' <= c <= '\U{001F}')
  }

  predicate StartsWith(s: string, prefix: string)
  {
    |prefix| <= |s| && s[..|prefix|] == prefix
  }

  predicate EndsWith(s: string, suffix: string)
  {
    |suffix| <= |s| && s[|s| - |suffix|..] == suffix
  }

  /** `sub` occurs somewhere in `s` (JavaScript `includes`, Python `in`). */
  predicate Contains(s: string, sub: string)
  {
    exists i :: 0 <= i <= |s| - |sub| && OccursAt(s, sub, i)
  }

  predicate OccursAt(s: string, sub: string, i: int)
  {
    0 <= i <= |s| - |sub| && s[i..i + |sub|] == sub
  }

  predicate IsUpper(c: char)
  {
    'A' <= c <= 'Z'
  }

  predicate IsLower(c: char)
  {
    'a' <= c <= 'z'
  }

  predicate IsDigit(c: char)
  {
    '0' <= c <= '9'
  }

  function LowerChar(c: char): (r: char)
    ensures !IsUpper(r)
    ensures !IsUpper(c) ==> r == c
  {
    if IsUpper(c) then (c as int + 32) as char else c
  }

  /** `toLowerCase()` / `lower()` on the ASCII letters. */
  function Lower(s: string): (r: string)
    ensures |r| == |s|
    ensures forall i :: 0 <= i < |s| ==> r[i] == LowerChar(s[i])
  {
    if s == [] then [] else [LowerChar(s[0])] + Lower(s[1..])
  }

  lemma LowerAppend(a: string, b: string)
    ensures Lower(a + b) == Lower(a) + Lower(b)
  {
  }

  /** Drop leading white space. */
  function TrimStartIn(rt: Runtime, s: string): (r: string)
    ensures |r| <= |s| && r == s[|s| - |r|..]
    ensures r != [] ==> !IsSpaceIn(rt, r[0])
    ensures forall i :: 0 <= i < |s| - |r| ==> IsSpaceIn(rt, s[i])
  {
    if s != [] && IsSpaceIn(rt, s[0]) then TrimStartIn(rt, s[1..]) else s
  }

  /** Drop trailing white space. */
  function TrimEndIn(rt: Runtime, s: string): (r: string)
    ensures |r| <= |s| && r == s[..|r|]
    ensures r != [] ==> !IsSpaceIn(rt, r[|r| - 1])
    ensures forall i :: |r| <= i < |s| ==> IsSpaceIn(rt, s[i])
  {
    if s != [] && IsSpaceIn(rt, s[|s| - 1]) then TrimEndIn(rt, s[..|s| - 1]) else s
  }

  /** No white space at either end. */
  predicate TrimmedIn(rt: Runtime, s: string)
  {
    s == [] || (!IsSpaceIn(rt, s[0]) && !IsSpaceIn(rt, s[|s| - 1]))
  }

  predicate AllSpaceIn(rt: Runtime, t: string)
  {
    forall k :: 0 <= k < |t| ==> IsSpaceIn(rt, t[k])
  }

  /** `r` is `s` with white space cut from its ends and nowhere else: the
      slice of `s` from some `i`, with only white space before and after
      it. */
  predicate TrimOf(rt: Runtime, s: string, r: string)
  {
    exists i :: 0 <= i <= |s| && TrimAt(rt, s, r, i)
  }

  /** `r` is `s[i..i + |r|]`, with only white space before and after. */
  predicate TrimAt(rt: Runtime, s: string, r: string, i: int)
  {
    0 <= i <= |s| - |r| && r == s[i..i + |r|] && AllSpaceIn(rt, s[..i]) && AllSpaceIn(rt, s[i + |r|..])
  }

  /** Python `str.strip()` (for `Python`) and JavaScript `trim()` (for
      `JavaScript`): the slice of `s` left after cutting white space from
      both ends. */
  function TrimIn(rt: Runtime, s: string): (r: string)
    ensures |r| <= |s|
    ensures TrimmedIn(rt, r)
    ensures TrimOf(rt, s, r)
    ensures TrimmedIn(rt, s) ==> r == s
  {
    TrimIsTrimOf(rt, s);
    TrimEndIn(rt, TrimStartIn(rt, s))
  }

  lemma TrimIsTrimOf(rt: Runtime, s: string)
    ensures TrimAt(rt, s, TrimEndIn(rt, TrimStartIn(rt, s)), |s| - |TrimStartIn(rt, s)|)
  {
    var t := TrimStartIn(rt, s);
    var r := TrimEndIn(rt, t);
    var i := |s| - |t|;
    assert r == s[i..i + |r|];
    assert AllSpaceIn(rt, s[..i]);
    var tail := s[i + |r|..];
    forall k | 0 <= k < |tail|
      ensures IsSpaceIn(rt, tail[k])
    {
      assert tail[k] == t[|r| + k];
    }
    assert TrimAt(rt, s, r, i);
  }

  /** The trim is the only slice of its kind: a trimmed `r` that is `s`
      with white space cut from its ends is the trim of `s`. */
  lemma TrimOfUnique(rt: Runtime, s: string, r: string)
    requires TrimOf(rt, s, r) && TrimmedIn(rt, r)
    ensures r == TrimIn(rt, s)
  {
    TrimIsTrimOf(rt, s);
    var i :| 0 <= i <= |s| && TrimAt(rt, s, r, i);
    TrimAtUnique(rt, s, r, i, TrimIn(rt, s), |s| - |TrimStartIn(rt, s)|);
  }

  lemma TrimAtUnique(rt: Runtime, s: string, r: string, i: int, t: string, j: int)
    requires TrimAt(rt, s, r, i) && TrimmedIn(rt, r)
    requires TrimAt(rt, s, t, j) && TrimmedIn(rt, t)
    ensures r == t
  {
    SpaceOutside(rt, s, i, |r|);
    SpaceOutside(rt, s, j, |t|);
    SlicesAgree(rt, s, i, r, j, t);
  }

  /** Two trimmed slices of `s` with only white space around each are the
      same slice. */
  lemma SlicesAgree(rt: Runtime, s: string, i: nat, r: string, j: nat, t: string)
    requires i + |r| <= |s| && r == s[i..i + |r|] && TrimmedIn(rt, r)
    requires j + |t| <= |s| && t == s[j..j + |t|] && TrimmedIn(rt, t)
    requires forall k :: 0 <= k < |s| && !(i <= k < i + |r|) ==> IsSpaceIn(rt, s[k])
    requires forall k :: 0 <= k < |s| && !(j <= k < j + |t|) ==> IsSpaceIn(rt, s[k])
    ensures r == t
  {
    EmptyIffAllSpace(rt, s, i, r);
    EmptyIffAllSpace(rt, s, j, t);
    if r != [] {
      assert !IsSpaceIn(rt, s[i]) by {
        assert s[i] == r[0];
      }
      assert !IsSpaceIn(rt, s[j]) by {
        assert s[j] == t[0];
      }
      assert !IsSpaceIn(rt, s[i + |r| - 1]) by {
        assert s[i + |r| - 1] == r[|r| - 1];
      }
      assert !IsSpaceIn(rt, s[j + |t| - 1]) by {
        assert s[j + |t| - 1] == t[|t| - 1];
      }
      assert i == j && |r| == |t|;
    }
  }

  /** Such a slice is empty exactly when `s` is all white space. */
  lemma EmptyIffAllSpace(rt: Runtime, s: string, i: nat, r: string)
    requires i + |r| <= |s| && r == s[i..i + |r|] && TrimmedIn(rt, r)
    requires forall k :: 0 <= k < |s| && !(i <= k < i + |r|) ==> IsSpaceIn(rt, s[k])
    ensures r == [] <==> AllSpaceIn(rt, s)
  {
    if r != [] {
      assert s[i] == r[0];
    }
  }

  /** Every position outside `s[i..i + n]` is white space when both sides
      of the slice are. */
  lemma SpaceOutside(rt: Runtime, s: string, i: nat, n: nat)
    requires i + n <= |s|
    requires AllSpaceIn(rt, s[..i]) && AllSpaceIn(rt, s[i + n..])
    ensures forall k :: 0 <= k < |s| && !(i <= k < i + n) ==> IsSpaceIn(rt, s[k])
  {
    forall k | 0 <= k < |s| && !(i <= k < i + n)
      ensures IsSpaceIn(rt, s[k])
    {
      if k < i {
        assert s[k] == s[..i][k];
      } else {
        assert s[k] == s[i + n..][k - i - n];
      }
    }
  }

  /** JavaScript `trim()`. */
  function Trim(s: string): string
  {
    TrimIn(JavaScript, s)
  }

  predicate Trimmed(s: string)
  {
    TrimmedIn(JavaScript, s)
  }

  /** Python `str.strip()`. */
  function Strip(s: string): string
  {
    TrimIn(Python, s)
  }

  predicate Stripped(s: string)
  {
    TrimmedIn(Python, s)
  }

  /** Python's strip removes more than JavaScript's trim, but where the
      trimmed text is empty or keeps its ends under Python's rule too, the
      two agree. */
  lemma StripAgreesWithTrim(s: string)
    requires Trim(s) == [] || Stripped(Trim(s))
    ensures Strip(s) == Trim(s)
  {
    var t := Trim(s);
    var i :| 0 <= i <= |s| && TrimAt(JavaScript, s, t, i);
    assert TrimAt(Python, s, t, i);
    TrimOfUnique(Python, s, t);
  }

  /** The separator controls are where the two differ. */
  lemma StripRemovesSeparators()
    ensures Trim("\U{001C}") == "\U{001C}"
    ensures Strip("\U{001C}") == []
  {
    assert TrimmedIn(JavaScript, "\U{001C}");
    assert TrimAt(Python, "\U{001C}", [], 0);
    TrimOfUnique(Python, "\U{001C}", []);
  }

  /** `s.replace(a, b)` for single characters: every `a` becomes `b`. */
  function ReplaceChar(s: string, a: char, b: char): (r: string)
    ensures |r| == |s|
    ensures forall i :: 0 <= i < |s| ==> r[i] == (if s[i] == a then b else s[i])
  {
    if s == [] then [] else [if s[0] == a then b else s[0]] + ReplaceChar(s[1..], a, b)
  }

  /** JavaScript `s.split(c)` / Python `s.split(c)` for a one-character
      separator: the pieces between separators, empty pieces kept. */
  function Split(s: string, sep: char): (parts: seq<string>)
    ensures |parts| >= 1
    ensures forall k :: 0 <= k < |parts| ==> sep !in parts[k]
  {
    if s == [] then [[]]
    else if s[0] == sep then [[]] + Split(s[1..], sep)
    else
      var rest := Split(s[1..], sep);
      [[s[0]] + rest[0]] + rest[1..]
  }

  /** Inverse of `Split`: the pieces glued back with the separator. */
  function Join(parts: seq<string>, sep: char): string
    requires |parts| >= 1
  {
    if |parts| == 1 then parts[0] else parts[0] + [sep] + Join(parts[1..], sep)
  }

  lemma {:induction false} SplitJoin(s: string, sep: char)
    ensures Join(Split(s, sep), sep) == s
  {
    if s == [] {
    } else if s[0] == sep {
      SplitJoin(s[1..], sep);
      assert s == [sep] + s[1..];
    } else {
      SplitJoin(s[1..], sep);
      var rest := Split(s[1..], sep);
      if |rest| == 1 {
      } else {
        calc {
          Join(Split(s, sep), sep);
          [s[0]] + rest[0] + [sep] + Join(rest[1..], sep);
          { assert Join(rest, sep) == rest[0] + [sep] + Join(rest[1..], sep); }
          [s[0]] + Join(rest, sep);
          s;
        }
      }
    }
  }

  /** The number of occurrences of `c` in `s`. */
  function Count(s: string, c: char): nat
  {
    if s == [] then 0 else (if s[0] == c then 1 else 0) + Count(s[1..], c)
  }

  /** `Split` yields one piece more than there are separators. */
  lemma {:induction false} SplitCount(s: string, sep: char)
    ensures |Split(s, sep)| == Count(s, sep) + 1
  {
    if s != [] {
      SplitCount(s[1..], sep);
    }
  }

  /** `Split` undoes `Join` when no piece holds the separator. */
  lemma {:induction false} SplitOfJoin(parts: seq<string>, sep: char)
    requires |parts| >= 1
    requires forall k :: 0 <= k < |parts| ==> sep !in parts[k]
    ensures Split(Join(parts, sep), sep) == parts
    decreases |parts|, |parts[0]|
  {
    var p := parts[0];
    if |parts| == 1 {
      SplitOfPiece(p, sep);
    } else if p == [] {
      var s := Join(parts, sep);
      assert s == [sep] + Join(parts[1..], sep);
      assert s[1..] == Join(parts[1..], sep);
      SplitOfJoin(parts[1..], sep);
      assert parts == [[]] + parts[1..];
    } else {
      var s := Join(parts, sep);
      var shorter := [p[1..]] + parts[1..];
      assert Join(shorter, sep) == p[1..] + [sep] + Join(parts[1..], sep);
      assert s == [p[0]] + Join(shorter, sep);
      assert s[1..] == Join(shorter, sep);
      SplitOfJoin(shorter, sep);
      assert p == [p[0]] + shorter[0];
      assert shorter[1..] == parts[1..];
      assert parts == [p] + parts[1..];
    }
  }

  /** A text without the separator splits into itself. */
  lemma {:induction false} SplitOfPiece(s: string, sep: char)
    requires sep !in s
    ensures Split(s, sep) == [s]
  {
    if s != [] {
      assert sep !in s[1..] by {
        forall i | 0 <= i < |s[1..]|
          ensures s[1..][i] != sep
        {
          assert s[1..][i] == s[i + 1];
        }
      }
      SplitOfPiece(s[1..], sep);
      assert s == [s[0]] + s[1..];
    }
  }

  /** The text after the last occurrence of `c` (all of `s` when `c` does not
      occur): `os.path.basename` for `c == '/'`, `split(c).pop()`. */
  function AfterLast(s: string, c: char): (r: string)
    ensures c !in r
    ensures |r| <= |s| && forall i :: 0 <= i < |r| ==> r[i] == s[|s| - |r| + i]
    ensures c !in s ==> r == s
    ensures c in s ==> |r| < |s|
    ensures |r| < |s| ==> s[|s| - |r| - 1] == c
  {
    var k := LastCut(s, c);
    assert c in s ==> k > 0;
    s[k..]
  }

  /** Where the text after the last `c` starts: just past the last `c`,
      or 0 when there is none. */
  function LastCut(s: string, c: char): (k: nat)
    ensures k <= |s|
    ensures forall i :: k <= i < |s| ==> s[i] != c
    ensures k > 0 ==> s[k - 1] == c
  {
    LastCutBefore(s, c, |s|)
  }

  /** `LastCut` of the first `n` characters, counted by position. */
  function LastCutBefore(s: string, c: char, n: nat): (k: nat)
    requires n <= |s|
    ensures k <= n
    ensures forall i :: k <= i < n ==> s[i] != c
    ensures k > 0 ==> s[k - 1] == c
  {
    if n == 0 then 0 else if s[n - 1] == c then n else LastCutBefore(s, c, n - 1)
  }

  /** The position just past the last `c` is determined by those two facts. */
  lemma {:induction false} LastCutBeforeIs(s: string, c: char, n: nat, k: nat)
    requires k <= n <= |s|
    requires forall i :: k <= i < n ==> s[i] != c
    requires k > 0 ==> s[k - 1] == c
    ensures LastCutBefore(s, c, n) == k
    decreases n
  {
    if n > k {
      LastCutBeforeIs(s, c, n - 1, k);
    }
  }

  /** `AfterLast` is the last piece of `Split`: `s.split(c).pop()`. */
  lemma {:induction false} AfterLastIsLastPiece(s: string, c: char)
    ensures AfterLast(s, c) == Split(s, c)[|Split(s, c)| - 1]
  {
    var parts := Split(s, c);
    SplitJoin(s, c);
    JoinLastPiece(parts, c);
    var last := parts[|parts| - 1];
    var pre := JoinPrefix(parts, c);
    assert s == pre + last;
    assert c !in last;
    if |parts| == 1 {
      assert s == last;
    } else {
      assert pre != [] && pre[|pre| - 1] == c;
      AfterLastOfSuffix(pre, last, c);
    }
  }

  /** Everything `Join` puts before the last piece: each earlier piece
      followed by its separator. */
  function JoinPrefix(parts: seq<string>, sep: char): (r: string)
    requires |parts| >= 1
    ensures |parts| > 1 ==> r != [] && r[|r| - 1] == sep
  {
    if |parts| == 1 then [] else parts[0] + [sep] + JoinPrefix(parts[1..], sep)
  }

  lemma {:induction false} JoinLastPiece(parts: seq<string>, sep: char)
    requires |parts| >= 1
    ensures Join(parts, sep) == JoinPrefix(parts, sep) + parts[|parts| - 1]
  {
    if |parts| > 1 {
      JoinLastPiece(parts[1..], sep);
    }
  }

  /** After a `c`, a text without `c` is what `AfterLast` gives back. */
  lemma AfterLastOfSuffix(pre: string, last: string, c: char)
    requires pre != [] && pre[|pre| - 1] == c
    requires c !in last
    ensures AfterLast(pre + last, c) == last
  {
    var s := pre + last;
    forall i | |pre| <= i < |s|
      ensures s[i] != c
    {
      assert s[i] == last[i - |pre|];
    }
    LastCutBeforeIs(s, c, |s|, |pre|);
    assert s[|pre|..] == last;
  }

  function DigitChar(d: nat): (c: char)
    requires d < 10
    ensures IsDigit(c)
  {
    "0123456789"[d]
  }

  /** Python's `str(n)` / JavaScript's `String(n)` for a non-negative integer. */
  function NatToString(n: nat): (r: string)
    ensures |r| >= 1
    ensures n >= 10 ==> |r| >= 2
    ensures forall i :: 0 <= i < |r| ==> IsDigit(r[i])
    decreases n
  {
    if n < 10 then [DigitChar(n)] else NatToString(n / 10) + [DigitChar(n % 10)]
  }

  /** Distinct numbers print differently, so names built from ids never clash. */
  lemma {:induction false} NatToStringInjective(a: nat, b: nat)
    requires NatToString(a) == NatToString(b)
    ensures a == b
    decreases a
  {
    if a < 10 && b < 10 {
      assert DigitChar(a) == NatToString(a)[0] == NatToString(b)[0] == DigitChar(b);
    } else if a < 10 || b < 10 {
      assert false;
    } else {
      var sa, sb := NatToString(a), NatToString(b);
      assert sa[|sa| - 1] == DigitChar(a % 10);
      assert sb[|sb| - 1] == DigitChar(b % 10);
      assert a % 10 == b % 10;
      assert sa[..|sa| - 1] == NatToString(a / 10);
      assert sb[..|sb| - 1] == NatToString(b / 10);
      NatToStringInjective(a / 10, b / 10);
    }
  }
}
