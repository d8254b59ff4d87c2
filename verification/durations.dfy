/** The learning page's durations and progress: the ISO 8601 duration
    display (`formatDuration`), the minutes a lesson contributes to its
    module, the module total's display and the completion percentage with
    its status class. */
module Durations {
  import opened Wrappers
  import opened Text

  // ---------------------------------------------------------------------
  // Digit runs

  function DigitValue(c: char): nat
  {
    if IsDigit(c) then c as int - '0' as int else 0
  }

  predicate AllDigits(t: string)
  {
    forall i :: 0 <= i < |t| ==> IsDigit(t[i])
  }

  /** The number a string of decimal digits spells (`parseInt` on digits). */
  function Value(t: string): nat
  {
    if t == [] then 0 else Value(t[..|t| - 1]) * 10 + DigitValue(t[|t| - 1])
  }

  /** Reading a printed number gives the number back. */
  lemma {:induction false} ValueOfNatToString(n: nat)
    ensures Value(NatToString(n)) == n
    decreases n
  {
    var t := NatToString(n);
    if n >= 10 {
      ValueOfNatToString(n / 10);
      assert t[..|t| - 1] == NatToString(n / 10);
      DigitCharValue(n % 10);
    } else {
      assert t[..|t| - 1] == [];
      DigitCharValue(n);
    }
  }

  lemma DigitCharValue(d: nat)
    requires d < 10
    ensures DigitValue(DigitChar(d)) == d
  {
  }

  /** Where the run of digits starting at `i` ends. */
  function DigitRunEnd(s: string, i: nat): (k: nat)
    requires i <= |s|
    ensures i <= k <= |s|
    decreases |s| - i
  {
    if i < |s| && IsDigit(s[i]) then DigitRunEnd(s, i + 1) else i
  }

  lemma {:induction false} DigitRunEndIs(s: string, i: nat, k: nat)
    requires i <= k <= |s|
    requires forall j :: i <= j < k ==> IsDigit(s[j])
    requires k < |s| ==> !IsDigit(s[k])
    ensures DigitRunEnd(s, i) == k
    decreases k - i
  {
    if i < k {
      DigitRunEndIs(s, i + 1, k);
    }
  }

  /** A regular-expression group `(\d+u)` tried at position `i`: the
      number and the position after the unit letter, or nothing. Because
      the unit is not a digit, the longest run is the only candidate. */
  function Group(s: string, i: nat, unit: char): (r: Option<(nat, nat)>)
    requires i <= |s|
    ensures r.Some? ==> i < r.value.1 <= |s|
  {
    var k := DigitRunEnd(s, i);
    if i < k < |s| && s[k] == unit then
      Some((Value(s[i..k]), k + 1))
    else None
  }

  /** The group's value, 0 when it does not take part, and where matching
      continues. */
  function Take(s: string, i: nat, unit: char): (r: (nat, nat))
    requires i <= |s|
    ensures i <= r.1 <= |s|
  {
    match Group(s, i, unit)
    case Some(g) => g
    case None => (0, i)
  }

  /** The digits `t` sit at position `i` of `s`, followed by the unit
      letter. */
  predicate GroupIn(s: string, i: nat, t: string, unit: char)
  {
    && t != [] && AllDigits(t) && !IsDigit(unit)
    && i + |t| < |s| && s[i + |t|] == unit
    && forall j :: 0 <= j < |t| ==> s[i + j] == t[j]
  }

  /** A group found in place is read as its digits. */
  lemma GroupAt(s: string, i: nat, t: string, unit: char)
    requires GroupIn(s, i, t, unit)
    ensures Take(s, i, unit) == (Value(t), i + |t| + 1)
  {
    var k := i + |t|;
    forall j | i <= j < k
      ensures IsDigit(s[j])
    {
      assert s[j] == s[i + (j - i)] == t[j - i];
    }
    DigitRunEndIs(s, i, k);
    assert s[i..k] == t;
  }

  // ---------------------------------------------------------------------
  // formatDuration

  datatype Duration = Duration(days: nat, hours: nat, minutes: nat, seconds: nat)

  /** `P(\d+D)?T(\d+H)?(\d+M)?(\d+S)?` tried at position `i`. The optional
      groups never have to give way: after `P` a digit can only belong to
      the day group, and nothing follows the last three groups. */
  function MatchAt(s: string, i: nat): (r: Option<Duration>)
    requires i <= |s|
  {
    if i < |s| && s[i] == 'P' then
      var d := Take(s, i + 1, 'D');
      if d.1 < |s| && s[d.1] == 'T' then
        var h := Take(s, d.1 + 1, 'H');
        var m := Take(s, h.1, 'M');
        var sec := Take(s, m.1, 'S');
        Some(Duration(d.0, h.0, m.0, sec.0))
      else None
    else None
  }

  /** The leftmost position at or after `i` (up to `n`) where `at` finds
      something, as a regular-expression search reports it. */
  function Leftmost<T>(n: nat, i: nat, at: nat -> Option<T>): (r: Option<T>)
    requires i <= n
    ensures r.None? <==> forall j :: i <= j <= n ==> at(j).None?
    decreases n - i
  {
    if at(i).Some? then at(i)
    else if i == n then None
    else Leftmost(n, i + 1, at)
  }

  /** The search reports the first position that matches. */
  lemma {:induction false} LeftmostIs<T>(n: nat, i: nat, j: nat, at: nat -> Option<T>)
    requires i <= j <= n && at(j).Some?
    requires forall k :: i <= k < j ==> at(k).None?
    ensures Leftmost(n, i, at) == at(j)
    decreases j - i
  {
    if i < j {
      LeftmostIs(n, i + 1, j, at);
    }
  }

  /** The search for the pattern anywhere in `s`: nothing exactly when it
      matches at no position, so never without a `P`. */
  function MatchDuration(s: string): (r: Option<Duration>)
    ensures r.None? <==> forall j :: 0 <= j < |s| ==> MatchAt(s, j).None?
    ensures 'P' !in s ==> r.None?
  {
    var at := (j: nat) => if j <= |s| then MatchAt(s, j) else None;
    assert forall j :: 0 <= j <= |s| ==> at(j) == MatchAt(s, j);
    assert MatchAt(s, |s|).None?;
    Leftmost(|s|, 0, at)
  }

  datatype Unit = Tag | Tage | Std | Min | Sek

  function UnitText(u: Unit): string
  {
    match u
    case Tag => " Tag"
    case Tage => " Tage"
    case Std => " Std"
    case Min => " Min"
    case Sek => " Sek"
  }

  /** Seconds per unit, to give a displayed part its meaning. */
  function UnitSeconds(u: Unit): nat
  {
    match u
    case Tag => 86400
    case Tage => 86400
    case Std => 3600
    case Min => 60
    case Sek => 1
  }

  /** Position of a unit in the display order. */
  function Rank(u: Unit): nat
  {
    match u
    case Tag => 0
    case Tage => 0
    case Std => 1
    case Min => 2
    case Sek => 3
  }

  datatype Part = Part(n: nat, unit: Unit)

  function PartText(p: Part): string
  {
    NatToString(p.n) + UnitText(p.unit)
  }

  /** The parts in display order: days ("Tag" for one, else "Tage"),
      hours, minutes (also when nothing else would be shown) and seconds
      (only without days and hours). */
  function DurationParts(d: Duration): (ps: seq<Part>)
    ensures |ps| >= 1
  {
    Optional(d.days > 0, Part(d.days, if d.days == 1 then Tag else Tage))
    + Optional(d.hours > 0, Part(d.hours, Std))
    + Optional(d.minutes > 0 || (d.days == 0 && d.hours == 0 && d.seconds == 0), Part(d.minutes, Min))
    + Optional(d.seconds > 0 && d.days == 0 && d.hours == 0, Part(d.seconds, Sek))
  }

  /** A part that is shown only when `present` holds. */
  function Optional(present: bool, p: Part): seq<Part>
  {
    if present then [p] else []
  }

  function PartsSeconds(ps: seq<Part>): nat
  {
    if ps == [] then 0 else ps[0].n * UnitSeconds(ps[0].unit) + PartsSeconds(ps[1..])
  }

  function TotalSeconds(d: Duration): nat
  {
    d.days * 86400 + d.hours * 3600 + d.minutes * 60 + d.seconds
  }

  lemma {:induction false} PartsSecondsAppend(a: seq<Part>, b: seq<Part>)
    ensures PartsSeconds(a + b) == PartsSeconds(a) + PartsSeconds(b)
  {
    if a != [] {
      assert (a + b)[1..] == a[1..] + b;
      PartsSecondsAppend(a[1..], b);
    } else {
      assert a + b == b;
    }
  }

  /** What the display means: the parts add up to the duration, except
      that seconds are dropped when days or hours are shown. */
  lemma DurationPartsSeconds(d: Duration)
    ensures d.seconds == 0 || (d.days == 0 && d.hours == 0) ==> PartsSeconds(DurationParts(d)) == TotalSeconds(d)
    ensures d.seconds > 0 && (d.days > 0 || d.hours > 0) ==> PartsSeconds(DurationParts(d)) + d.seconds == TotalSeconds(d)
  {
    DurationPartsSum(d);
  }

  lemma DurationPartsSum(d: Duration)
    ensures PartsSeconds(DurationParts(d)) ==
      d.days * 86400 + d.hours * 3600 + d.minutes * 60 + (if d.seconds > 0 && d.days == 0 && d.hours == 0 then d.seconds else 0)
  {
    var a := Optional(d.days > 0, Part(d.days, if d.days == 1 then Tag else Tage));
    var b := Optional(d.hours > 0, Part(d.hours, Std));
    var c := Optional(d.minutes > 0 || (d.days == 0 && d.hours == 0 && d.seconds == 0), Part(d.minutes, Min));
    var e := Optional(d.seconds > 0 && d.days == 0 && d.hours == 0, Part(d.seconds, Sek));
    PartsSecondsAppend(a, b);
    PartsSecondsAppend(a + b, c);
    PartsSecondsAppend(a + b + c, e);
    PartsSecondsOptional(d.days > 0, Part(d.days, if d.days == 1 then Tag else Tage));
    PartsSecondsOptional(d.hours > 0, Part(d.hours, Std));
    PartsSecondsOptional(d.minutes > 0 || (d.days == 0 && d.hours == 0 && d.seconds == 0), Part(d.minutes, Min));
    PartsSecondsOptional(d.seconds > 0 && d.days == 0 && d.hours == 0, Part(d.seconds, Sek));
  }

  lemma PartsSecondsOptional(present: bool, p: Part)
    ensures PartsSeconds(Optional(present, p)) == if present then p.n * UnitSeconds(p.unit) else 0
  {
    if present {
      assert [p][1..] == [];
    }
  }

  /** Units appear in display order, so none is shown twice. */
  lemma DurationPartsOrdered(d: Duration)
    ensures forall i, j :: 0 <= i < j < |DurationParts(d)| ==> Rank(DurationParts(d)[i].unit) < Rank(DurationParts(d)[j].unit)
  {
  }

  /** The parts joined by single spaces, as the page concatenates them. */
  function RenderParts(ps: seq<Part>): string
  {
    if ps == [] then "" else if |ps| == 1 then PartText(ps[0]) else PartText(ps[0]) + " " + RenderParts(ps[1..])
  }

  /** Empty input gives the empty text, input the pattern does not match is
      shown unchanged, and a match is shown as its parts. */
  function FormatDuration(iso: string): (r: string)
    ensures iso == [] ==> r == []
    ensures iso != [] && MatchDuration(iso).None? ==> r == iso
    ensures iso != [] && MatchDuration(iso).Some? ==> r == RenderParts(DurationParts(MatchDuration(iso).value))
  {
    if iso == [] then []
    else
      match MatchDuration(iso)
      case None => iso
      case Some(d) => RenderParts(DurationParts(d))
  }

  /** A zero duration is shown as "0 Min". */
  lemma ZeroDurationShowsMinutes()
    ensures RenderParts(DurationParts(Duration(0, 0, 0, 0))) == "0 Min"
  {
    assert DurationParts(Duration(0, 0, 0, 0)) == [Part(0, Min)];
    assert NatToString(0) == "0";
  }

  /** One day is a "Tag", two are "Tage"; days and hours hide the seconds. */
  lemma DayLabels()
    ensures RenderParts(DurationParts(Duration(1, 0, 0, 0))) == "1 Tag"
    ensures RenderParts(DurationParts(Duration(2, 1, 0, 5))) == "2 Tage 1 Std"
  {
    assert DurationParts(Duration(1, 0, 0, 0)) == [Part(1, Tag)];
    assert DurationParts(Duration(2, 1, 0, 5)) == [Part(2, Tage), Part(1, Std)];
    assert NatToString(1) == "1" && NatToString(2) == "2";
  }

  /** The designator form `P<d>DT<h>H<m>M<s>S`, with each number written in
      digits of any length (leading zeros allowed). */
  function Designated(a: string, b: string, c: string, e: string): string
  {
    "P" + a + "D" + "T" + b + "H" + c + "M" + e + "S"
  }

  /** Where the pieces of the designator form sit. */
  predicate Layout(s: string, a: string, b: string, c: string, e: string)
  {
    && |s| == |a| + |b| + |c| + |e| + 6
    && s[0] == 'P' && s[|a| + 2] == 'T'
    && GroupIn(s, 1, a, 'D')
    && GroupIn(s, |a| + 3, b, 'H')
    && GroupIn(s, |a| + |b| + 4, c, 'M')
    && GroupIn(s, |a| + |b| + |c| + 5, e, 'S')
  }

  lemma DesignatedLayout(a: string, b: string, c: string, e: string)
    requires a != [] && b != [] && c != [] && e != []
    requires AllDigits(a) && AllDigits(b) && AllDigits(c) && AllDigits(e)
    ensures Layout(Designated(a, b, c, e), a, b, c, e)
  {
    var s := Designated(a, b, c, e);
    forall j | 0 <= j < |a|
      ensures s[1 + j] == a[j]
    {
    }
    forall j | 0 <= j < |b|
      ensures s[|a| + 3 + j] == b[j]
    {
    }
    forall j | 0 <= j < |c|
      ensures s[|a| + |b| + 4 + j] == c[j]
    {
    }
    forall j | 0 <= j < |e|
      ensures s[|a| + |b| + |c| + 5 + j] == e[j]
    {
    }
  }

  /** The pattern reads every component of the designator form. */
  lemma MatchDesignated(a: string, b: string, c: string, e: string)
    requires a != [] && b != [] && c != [] && e != []
    requires AllDigits(a) && AllDigits(b) && AllDigits(c) && AllDigits(e)
    ensures MatchDuration(Designated(a, b, c, e)) == Some(Duration(Value(a), Value(b), Value(c), Value(e)))
  {
    DesignatedLayout(a, b, c, e);
    MatchLayout(Designated(a, b, c, e), a, b, c, e);
  }

  lemma MatchLayout(s: string, a: string, b: string, c: string, e: string)
    requires Layout(s, a, b, c, e)
    ensures MatchDuration(s) == Some(Duration(Value(a), Value(b), Value(c), Value(e)))
  {
    LayoutTakes(s, a, b, c, e);
    MatchAtDesignated(s, |a| + 3, |a| + |b| + 4, |a| + |b| + |c| + 5, Value(a), Value(b), Value(c), Value(e));
  }

  lemma LayoutTakes(s: string, a: string, b: string, c: string, e: string)
    requires Layout(s, a, b, c, e)
    ensures Takes(s, |a| + 3, |a| + |b| + 4, |a| + |b| + |c| + 5, Value(a), Value(b), Value(c), Value(e))
  {
    LayoutDays(s, a, b, c, e);
    LayoutHours(s, a, b, c, e);
    LayoutMinutes(s, a, b, c, e);
    LayoutSeconds(s, a, b, c, e);
  }

  lemma LayoutDays(s: string, a: string, b: string, c: string, e: string)
    requires Layout(s, a, b, c, e)
    ensures Take(s, 1, 'D') == (Value(a), |a| + 2)
  {
    GroupAt(s, 1, a, 'D');
  }

  lemma LayoutHours(s: string, a: string, b: string, c: string, e: string)
    requires Layout(s, a, b, c, e)
    ensures Take(s, |a| + 3, 'H') == (Value(b), |a| + |b| + 4)
  {
    GroupAt(s, |a| + 3, b, 'H');
  }

  lemma LayoutMinutes(s: string, a: string, b: string, c: string, e: string)
    requires Layout(s, a, b, c, e)
    ensures Take(s, |a| + |b| + 4, 'M') == (Value(c), |a| + |b| + |c| + 5)
  {
    GroupAt(s, |a| + |b| + 4, c, 'M');
  }

  lemma LayoutSeconds(s: string, a: string, b: string, c: string, e: string)
    requires Layout(s, a, b, c, e)
    ensures Take(s, |a| + |b| + |c| + 5, 'S').0 == Value(e)
  {
    GroupAt(s, |a| + |b| + |c| + 5, e, 'S');
  }

  /** The four groups of the pattern read `a`, `b`, `c`, `e`, with `T`
      just before position `i2`. */
  predicate Takes(s: string, i2: nat, i3: nat, i4: nat, a: nat, b: nat, c: nat, e: nat)
  {
    && 2 <= i2 <= |s| && s[0] == 'P' && s[i2 - 1] == 'T'
    && Take(s, 1, 'D') == (a, i2 - 1)
    && i3 <= |s| && i4 <= |s|
    && Take(s, i2, 'H') == (b, i3)
    && Take(s, i3, 'M') == (c, i4)
    && Take(s, i4, 'S').0 == e
  }

  lemma MatchAtDesignated(s: string, i2: nat, i3: nat, i4: nat, a: nat, b: nat, c: nat, e: nat)
    requires Takes(s, i2, i3, i4, a, b, c, e)
    ensures MatchDuration(s) == Some(Duration(a, b, c, e))
  {
    assert MatchAt(s, 0) == Some(Duration(a, b, c, e));
    LeftmostIs(|s|, 0, 0, (j: nat) => if j <= |s| then MatchAt(s, j) else None);
  }

  /** Printing a duration in the designator form and formatting it gives
      the display of that duration. */
  lemma FormatDesignated(d: Duration)
    ensures FormatDuration(Designated(NatToString(d.days), NatToString(d.hours), NatToString(d.minutes), NatToString(d.seconds)))
      == RenderParts(DurationParts(d))
  {
    ValueOfNatToString(d.days);
    ValueOfNatToString(d.hours);
    ValueOfNatToString(d.minutes);
    ValueOfNatToString(d.seconds);
    MatchDesignated(NatToString(d.days), NatToString(d.hours), NatToString(d.minutes), NatToString(d.seconds));
  }

  // ---------------------------------------------------------------------
  // Minutes of a lesson

  /** What the page receives for one lesson: the optional `debug_minutes`
      number and the `duration` text (empty when absent). */
  datatype LessonData = LessonData(debugMinutes: Option<nat>, duration: string, isExercise: bool, isCompleted: bool)

  predicate PTAt(s: string, i: nat)
  {
    i + 2 <= |s| && s[i] == 'P' && s[i + 1] == 'T'
  }

  /** `PT(\d+)M` at position `i`: the minutes. */
  function SimpleAt(s: string, i: nat): Option<nat>
    requires i <= |s|
  {
    if PTAt(s, i) then
      match Group(s, i + 2, 'M')
      case Some(g) => Some(g.0)
      case None => None
    else None
  }

  /** `PT(?:(\d+)H)?(?:(\d+)M)?(?:(\d+)S)?` at position `i`: hours,
      minutes, seconds. */
  function FullAt(s: string, i: nat): Option<Duration>
    requires i <= |s|
  {
    if PTAt(s, i) then
      var h := Take(s, i + 2, 'H');
      var m := Take(s, h.1, 'M');
      var sec := Take(s, m.1, 'S');
      Some(Duration(0, h.0, m.0, sec.0))
    else None
  }

  function SimpleMatch(s: string): Option<nat>
  {
    Leftmost(|s|, 0, (j: nat) => if j <= |s| then SimpleAt(s, j) else None)
  }

  function FullMatch(s: string): Option<Duration>
  {
    Leftmost(|s|, 0, (j: nat) => if j <= |s| then FullAt(s, j) else None)
  }

  function CeilDiv(a: nat, b: nat): (q: nat)
    requires b > 0
    ensures (q - 1) * b < a <= q * b || (a == 0 && q == 0)
  {
    (a + b - 1) / b
  }

  /** Whole minutes of a parsed duration, seconds rounded up. */
  function DurationMinutes(d: Duration): (t: nat)
    ensures t * 60 >= TotalSeconds(d) > (t - 1) * 60 || (TotalSeconds(d) == 0 && t == 0)
  {
    d.days * 1440 + d.hours * 60 + d.minutes + CeilDiv(d.seconds, 60)
  }

  /** The minutes a lesson adds to its module's total: `debug_minutes`
      when given; otherwise the first `PT<m>M`; otherwise the first
      `PT[<h>H][<m>M][<s>S]`; otherwise a plain count of seconds rounded up
      to minutes; otherwise nothing. */
  function LessonMinutes(l: LessonData): (r: nat)
    ensures l.debugMinutes.Some? ==> r == l.debugMinutes.value
    ensures l.debugMinutes.None? && l.duration == [] ==> r == 0
  {
    match l.debugMinutes
    case Some(m) => m
    case None =>
      if l.duration == [] then 0
      else if SimpleMatch(l.duration).Some? then SimpleMatch(l.duration).value
      else if FullMatch(l.duration).Some? then DurationMinutes(FullMatch(l.duration).value)
      else if AllDigits(l.duration) then CeilDiv(Value(l.duration), 60)
      else 0
  }

  /** Without `debug_minutes`, a duration text in which `P` is never
      directly followed by `T`, and which is not all digits, adds no
      minutes at all. */
  lemma NoPTCountsNothing(l: LessonData)
    requires l.debugMinutes.None?
    requires forall i :: 0 <= i < |l.duration| ==> !PTAt(l.duration, i)
    requires !AllDigits(l.duration)
    ensures LessonMinutes(l) == 0
  {
    var s := l.duration;
    assert forall j :: 0 <= j <= |s| ==> SimpleAt(s, j).None? by {
      forall j | 0 <= j <= |s|
        ensures SimpleAt(s, j).None?
      {
        assert j < |s| ==> !PTAt(s, j);
      }
    }
    assert forall j :: 0 <= j <= |s| ==> FullAt(s, j).None? by {
      forall j | 0 <= j <= |s|
        ensures FullAt(s, j).None?
      {
        assert j < |s| ==> !PTAt(s, j);
      }
    }
  }

  /** `PT<t>M` at position `i`. */
  predicate SimpleIn(s: string, i: nat, t: string)
  {
    PTAt(s, i) && GroupIn(s, i + 2, t, 'M')
  }

  lemma SimpleAtIn(s: string, i: nat, t: string)
    requires SimpleIn(s, i, t)
    ensures SimpleAt(s, i) == Some(Value(t))
  {
    GroupAt(s, i + 2, t, 'M');
  }

  /** A text whose first `PT` starts `PT<t>M` adds the minutes `t` spells,
      in both readings. */
  lemma SimpleMinutes(l: LessonData, i: nat, t: string)
    requires l.debugMinutes.None?
    requires SimpleIn(l.duration, i, t)
    requires forall j :: 0 <= j < i ==> !PTAt(l.duration, j)
    ensures LessonMinutes(l) == Value(t)
    ensures LessonMinutesCorrected(l) == Value(t)
  {
    var s := l.duration;
    SimpleAtIn(s, i, t);
    forall j | 0 <= j < i
      ensures SimpleAt(s, j).None?
    {
      assert !PTAt(s, j);
    }
    LeftmostIs(|s|, 0, i, (j: nat) => if j <= |s| then SimpleAt(s, j) else None);
  }

  /** An optional group `(?:(\d+)u)?` at position `p`: left out when `t`
      is empty, otherwise the digits `t` followed by the unit letter. */
  predicate OptGroupIn(s: string, p: nat, t: string, unit: char)
  {
    t == [] || GroupIn(s, p, t, unit)
  }

  /** The characters an optional group takes. */
  function OptLen(t: string): nat
  {
    if t == [] then 0 else |t| + 1
  }

  predicate NoDigitAt(s: string, p: nat)
  {
    p >= |s| || !IsDigit(s[p])
  }

  /** `PT` at position `i` followed by the optional groups `<b>H`, `<c>M`
      and `<e>S`, each left out when its digits are empty; when the seconds
      are left out, what follows is the end of the text or no digit, so no
      later group could have matched. */
  predicate FullIn(s: string, i: nat, b: string, c: string, e: string)
  {
    && PTAt(s, i)
    && OptGroupIn(s, i + 2, b, 'H')
    && OptGroupIn(s, i + 2 + OptLen(b), c, 'M')
    && OptGroupIn(s, i + 2 + OptLen(b) + OptLen(c), e, 'S')
    && (e == [] ==> NoDigitAt(s, i + 2 + OptLen(b) + OptLen(c)))
  }

  /** Without a digit at `p` no group starts there. */
  lemma NoDigitMisses(s: string, p: nat, unit: char)
    requires p <= |s| && NoDigitAt(s, p)
    ensures Group(s, p, unit).None?
  {
  }

  /** Digits followed by one unit letter are no group of another unit. */
  lemma OtherUnitMisses(s: string, i: nat, t: string, unit: char, other: char)
    requires GroupIn(s, i, t, unit) && unit != other
    ensures Group(s, i, other).None?
  {
    forall j | i <= j < i + |t|
      ensures IsDigit(s[j])
    {
      assert s[j] == s[i + (j - i)] == t[j - i];
    }
    DigitRunEndIs(s, i, i + |t|);
  }

  lemma FullHours(s: string, i: nat, b: string, c: string, e: string)
    requires FullIn(s, i, b, c, e)
    ensures Take(s, i + 2, 'H') == (Value(b), i + 2 + OptLen(b))
  {
    if b != [] {
      GroupAt(s, i + 2, b, 'H');
    } else if c != [] {
      OtherUnitMisses(s, i + 2, c, 'M', 'H');
    } else if e != [] {
      OtherUnitMisses(s, i + 2, e, 'S', 'H');
    } else {
      NoDigitMisses(s, i + 2, 'H');
    }
  }

  lemma FullMinutesTaken(s: string, i: nat, b: string, c: string, e: string)
    requires FullIn(s, i, b, c, e)
    ensures i + 2 + OptLen(b) <= |s|
    ensures Take(s, i + 2 + OptLen(b), 'M') == (Value(c), i + 2 + OptLen(b) + OptLen(c))
  {
    var p := i + 2 + OptLen(b);
    if c != [] {
      GroupAt(s, p, c, 'M');
    } else if e != [] {
      OtherUnitMisses(s, p, e, 'S', 'M');
    } else {
      NoDigitMisses(s, p, 'M');
    }
  }

  lemma FullSeconds(s: string, i: nat, b: string, c: string, e: string)
    requires FullIn(s, i, b, c, e)
    ensures i + 2 + OptLen(b) + OptLen(c) <= |s|
    ensures Take(s, i + 2 + OptLen(b) + OptLen(c), 'S').0 == Value(e)
  {
    var p := i + 2 + OptLen(b) + OptLen(c);
    FullMinutesTaken(s, i, b, c, e);
    if e != [] {
      GroupAt(s, p, e, 'S');
    } else {
      NoDigitMisses(s, p, 'S');
    }
  }

  /** The full pattern reads the three numbers there, a missing group
      counting 0. */
  lemma FullAtIn(s: string, i: nat, b: string, c: string, e: string)
    requires FullIn(s, i, b, c, e)
    ensures FullAt(s, i) == Some(Duration(0, Value(b), Value(c), Value(e)))
  {
    FullHours(s, i, b, c, e);
    FullMinutesTaken(s, i, b, c, e);
    FullSeconds(s, i, b, c, e);
  }

  /** Unless the minutes directly follow `PT`, the minutes-only pattern
      finds nothing there. */
  lemma SimpleMissesFull(s: string, i: nat, b: string, c: string, e: string)
    requires FullIn(s, i, b, c, e)
    requires b != [] || c == []
    ensures SimpleAt(s, i).None?
  {
    if b != [] {
      OtherUnitMisses(s, i + 2, b, 'H', 'M');
    } else if e != [] {
      OtherUnitMisses(s, i + 2, e, 'S', 'M');
    } else {
      NoDigitMisses(s, i + 2, 'M');
    }
  }

  /** With one `PT`, followed by the optional groups but not by the
      minutes alone, the minutes-only search finds nothing. */
  lemma SimpleMatchMissesFull(s: string, i: nat, b: string, c: string, e: string)
    requires FullIn(s, i, b, c, e)
    requires b != [] || c == []
    requires forall j :: 0 <= j < |s| && PTAt(s, j) ==> j == i
    ensures SimpleMatch(s).None?
  {
    SimpleMissesFull(s, i, b, c, e);
    forall j | 0 <= j <= |s|
      ensures SimpleAt(s, j).None?
    {
      if j != i {
        assert !PTAt(s, j);
      }
    }
  }

  /** With one `PT`, followed by the optional groups, the full search
      reports the three numbers there. */
  lemma FullMatchIs(s: string, i: nat, b: string, c: string, e: string)
    requires FullIn(s, i, b, c, e)
    requires forall j :: 0 <= j < |s| && PTAt(s, j) ==> j == i
    ensures FullMatch(s) == Some(Duration(0, Value(b), Value(c), Value(e)))
  {
    FullAtIn(s, i, b, c, e);
    forall j | 0 <= j < i
      ensures FullAt(s, j).None?
    {
      assert !PTAt(s, j);
    }
    LeftmostIs(|s|, 0, i, (j: nat) => if j <= |s| then FullAt(s, j) else None);
  }

  /** A text holding one `PT`, followed by the optional groups `<b>H`,
      `<c>M` and `<e>S`, adds the hours and minutes and the seconds rounded
      up to whole minutes, a missing group counting 0. The exception: when
      the minutes directly follow `PT`, the minutes-only pattern is tried
      first and wins, and the seconds are dropped. */
  lemma FullMinutes(l: LessonData, i: nat, b: string, c: string, e: string)
    requires l.debugMinutes.None?
    requires FullIn(l.duration, i, b, c, e)
    requires forall j :: 0 <= j < |l.duration| && PTAt(l.duration, j) ==> j == i
    ensures LessonMinutes(l) ==
      if b == [] && c != [] then Value(c) else 60 * Value(b) + Value(c) + CeilDiv(Value(e), 60)
  {
    if b == [] && c != [] {
      SimpleMinutes(l, i, c);
    } else {
      SimpleMatchMissesFull(l.duration, i, b, c, e);
      FullMatchIs(l.duration, i, b, c, e);
    }
  }

  /** Hours and minutes without seconds. */
  lemma HoursAndMinutesExample()
    ensures LessonMinutes(LessonData(None, "PT1H30M", false, false)) == 90
  {
    var l := LessonData(None, "PT1H30M", false, false);
    assert forall j :: 0 <= j < |l.duration| && PTAt(l.duration, j) ==> j == 0;
    assert Value("1") == 1 && Value("3") == 3 && Value("30") == 30;
    FullMinutes(l, 0, "1", "30", "");
  }

  /** Seconds alone are rounded up to a minute. */
  lemma SecondsOnlyExample()
    ensures LessonMinutes(LessonData(None, "PT45S", false, false)) == 1
  {
    var l := LessonData(None, "PT45S", false, false);
    assert forall j :: 0 <= j < |l.duration| && PTAt(l.duration, j) ==> j == 0;
    assert Value("4") == 4 && Value("45") == 45;
    FullMinutes(l, 0, "", "", "45");
  }

  /** Hours alone. */
  lemma HoursOnlyExample()
    ensures LessonMinutes(LessonData(None, "PT2H", false, false)) == 120
  {
    var l := LessonData(None, "PT2H", false, false);
    assert forall j :: 0 <= j < |l.duration| && PTAt(l.duration, j) ==> j == 0;
    assert Value("2") == 2;
    FullMinutes(l, 0, "2", "", "");
  }

  /** `PT` with no group at all adds nothing. */
  lemma NoGroupExample()
    ensures LessonMinutes(LessonData(None, "PT", false, false)) == 0
  {
    var l := LessonData(None, "PT", false, false);
    assert forall j :: 0 <= j < |l.duration| && PTAt(l.duration, j) ==> j == 0;
    assert Value([]) == 0;
    FullMinutes(l, 0, "", "", "");
  }

  /** Minutes directly after `PT` are taken by the minutes-only pattern,
      which drops the seconds. */
  lemma MinutesFirstExample()
    ensures LessonMinutes(LessonData(None, "PT30M15S", false, false)) == 30
  {
    var l := LessonData(None, "PT30M15S", false, false);
    assert forall j :: 0 <= j < |l.duration| && PTAt(l.duration, j) ==> j == 0;
    assert Value("3") == 3 && Value("30") == 30;
    FullMinutes(l, 0, "", "30", "15");
  }

  /** A text of digits only is a number of seconds, rounded up to whole
      minutes, in both readings. */
  lemma SecondsMinutes(l: LessonData)
    requires l.debugMinutes.None? && l.duration != [] && AllDigits(l.duration)
    ensures LessonMinutes(l) == CeilDiv(Value(l.duration), 60)
    ensures LessonMinutesCorrected(l) == CeilDiv(Value(l.duration), 60)
  {
    var s := l.duration;
    forall j | 0 <= j <= |s|
      ensures SimpleAt(s, j).None? && FullAt(s, j).None? && MatchAt(s, j).None?
    {
      if j < |s| {
        assert IsDigit(s[j]);
      }
    }
  }

  /** Zero padding to two digits, as Python's two-digit padded format writes hours,
      minutes and seconds. */
  function Pad2(n: nat): (t: string)
    ensures t != [] && AllDigits(t)
  {
    ValueOfNatToString(n);
    if n < 10 then "0" + NatToString(n) else NatToString(n)
  }

  lemma {:induction false} LeadingZero(t: string)
    ensures Value("0" + t) == Value(t)
    decreases |t|
  {
    var z := "0" + t;
    if t != [] {
      assert z[..|z| - 1] == "0" + t[..|t| - 1];
      LeadingZero(t[..|t| - 1]);
    } else {
      assert z[..|z| - 1] == [];
    }
  }

  lemma ValueOfPad2(n: nat)
    ensures Value(Pad2(n)) == n
  {
    ValueOfNatToString(n);
    if n < 10 {
      LeadingZero(NatToString(n));
    }
  }

  /** How a stored lesson duration of `d` days and `h:m:s` reaches the
      page: the ISO 8601 designator form of the JSON encoder, with the
      time fields padded to two digits. */
  function EncodedDuration(d: Duration): (r: string)
    ensures r != [] && r[0] == 'P'
    ensures MatchDuration(r) == Some(d)
  {
    ValueOfNatToString(d.days);
    ValueOfPad2(d.hours);
    ValueOfPad2(d.minutes);
    ValueOfPad2(d.seconds);
    MatchDesignated(NatToString(d.days), Pad2(d.hours), Pad2(d.minutes), Pad2(d.seconds));
    Designated(NatToString(d.days), Pad2(d.hours), Pad2(d.minutes), Pad2(d.seconds))
  }

  lemma EncodedHasNoPT(d: Duration)
    ensures forall i :: 0 <= i < |EncodedDuration(d)| ==> !PTAt(EncodedDuration(d), i)
    ensures !AllDigits(EncodedDuration(d))
  {
    ValueOfNatToString(d.days);
    DesignatedHasNoPT(NatToString(d.days), Pad2(d.hours), Pad2(d.minutes), Pad2(d.seconds));
  }

  /** The designator form with digits in its fields never has `T` right
      after `P`, and it is not a number. */
  lemma DesignatedHasNoPT(a: string, b: string, c: string, e: string)
    requires a != [] && AllDigits(a) && AllDigits(b) && AllDigits(c) && AllDigits(e)
    ensures forall i :: 0 <= i < |Designated(a, b, c, e)| ==> !PTAt(Designated(a, b, c, e), i)
    ensures !AllDigits(Designated(a, b, c, e))
  {
    var s := Designated(a, b, c, e);
    assert s[0] == 'P' && s[1] == a[0];
    DigitsHaveNoP(a);
    DigitsHaveNoP(b);
    DigitsHaveNoP(c);
    DigitsHaveNoP(e);
    forall i | 0 <= i < |s|
      ensures !PTAt(s, i)
    {
      if i > 0 {
        NoPInDesignated(a, b, c, e, i);
      }
    }
  }

  lemma DigitsHaveNoP(t: string)
    requires forall i :: 0 <= i < |t| ==> IsDigit(t[i])
    ensures 'P' !in t
  {
  }

  /** Only the first character of the designator form is a `P`. */
  lemma NoPInDesignated(a: string, b: string, c: string, e: string, i: nat)
    requires 'P' !in a && 'P' !in b && 'P' !in c && 'P' !in e
    requires 0 < i < |Designated(a, b, c, e)|
    ensures Designated(a, b, c, e)[i] != 'P'
  {
    var rest := a + "D" + "T" + b + "H" + c + "M" + e + "S";
    assert Designated(a, b, c, e) == "P" + rest;
    assert Designated(a, b, c, e)[i] == rest[i - 1];
    assert rest[i - 1] in rest;
  }

  /** As written, every encoded lesson duration adds 0 minutes: the
      encoder writes a day count between `P` and `T`, and neither minute
      pattern allows one. */
  lemma EncodedDurationCountsNothing(d: Duration, l: LessonData)
    requires l.debugMinutes.None? && l.duration == EncodedDuration(d)
    ensures LessonMinutes(l) == 0
  {
    EncodedHasNoPT(d);
    NoPTCountsNothing(l);
  }

  /** The minutes of a lesson read with the pattern `formatDuration` uses,
      which accepts the day count. */
  function LessonMinutesCorrected(l: LessonData): (r: nat)
    ensures l.debugMinutes.Some? ==> r == l.debugMinutes.value
    ensures SimpleMatch(l.duration).Some? || MatchDuration(l.duration).None? ==> r == LessonMinutes(l)
  {
    FullNeedsMatch(l.duration);
    match l.debugMinutes
    case Some(m) => m
    case None =>
      if l.duration == [] then 0
      else if SimpleMatch(l.duration).Some? then SimpleMatch(l.duration).value
      else if MatchDuration(l.duration).Some? then DurationMinutes(MatchDuration(l.duration).value)
      else if AllDigits(l.duration) then CeilDiv(Value(l.duration), 60)
      else 0
  }

  /** Wherever the page's full pattern matches, the day-aware pattern
      matches too: after `PT` there is no day group to skip. */
  lemma FullNeedsMatch(s: string)
    ensures MatchDuration(s).None? ==> FullMatch(s).None?
  {
    forall j | 0 <= j <= |s| && FullAt(s, j).Some?
      ensures MatchAt(s, j).Some?
    {
      assert DigitRunEnd(s, j + 1) == j + 1;
    }
  }

  /** Corrected, an encoded duration adds its length in minutes, seconds
      rounded up. */
  lemma EncodedDurationCorrected(d: Duration, l: LessonData)
    requires l.debugMinutes.None? && l.duration == EncodedDuration(d)
    ensures LessonMinutesCorrected(l) == DurationMinutes(d)
  {
    var s := l.duration;
    EncodedHasNoPT(d);
    forall j | 0 <= j <= |s|
      ensures SimpleAt(s, j).None?
    {
      assert j < |s| ==> !PTAt(s, j);
    }
  }

  // ---------------------------------------------------------------------
  // A module's statistics

  /** The sum of the lessons' minutes, with each lesson read by `minutes`
      (the page's reading, or the corrected one). */
  function SumMinutes(lessons: seq<LessonData>, minutes: LessonData -> nat): (r: nat)
    ensures r == 0 <==> forall i :: 0 <= i < |lessons| ==> minutes(lessons[i]) == 0
  {
    if lessons == [] then 0 else SumMinutes(lessons[..|lessons| - 1], minutes) + minutes(lessons[|lessons| - 1])
  }

  function CountCompleted(lessons: seq<LessonData>): (n: nat)
    ensures n <= |lessons|
  {
    if lessons == [] then 0
    else CountCompleted(lessons[..|lessons| - 1]) + (if lessons[|lessons| - 1].isCompleted then 1 else 0)
  }

  function CountExercises(lessons: seq<LessonData>): (n: nat)
    ensures n <= |lessons|
  {
    if lessons == [] then 0
    else CountExercises(lessons[..|lessons| - 1]) + (if lessons[|lessons| - 1].isExercise then 1 else 0)
  }

  function CountCompletedExercises(lessons: seq<LessonData>): (n: nat)
    ensures n <= CountExercises(lessons) && n <= CountCompleted(lessons)
  {
    if lessons == [] then 0
    else
      var last := lessons[|lessons| - 1];
      CountCompletedExercises(lessons[..|lessons| - 1]) + (if last.isExercise && last.isCompleted then 1 else 0)
  }

  datatype ModuleStats = ModuleStats(minutes: nat, lessons: nat, completed: nat, exercises: nat, completedExercises: nat)

  /** One pass over a module's lessons, in order, adding up minutes and
      counting completed lessons, exercises and completed exercises. */
  method ModuleStatistics(lessons: seq<LessonData>) returns (st: ModuleStats)
    ensures st.minutes == SumMinutes(lessons, LessonMinutes)
    ensures st.lessons == |lessons|
    ensures st.completed == CountCompleted(lessons) && st.completed <= st.lessons
    ensures st.exercises == CountExercises(lessons)
    ensures st.completedExercises == CountCompletedExercises(lessons) && st.completedExercises <= st.exercises
  {
    st := ModuleStats(0, |lessons|, 0, 0, 0);
    var i := 0;
    while i < |lessons|
      invariant 0 <= i <= |lessons|
      invariant st.lessons == |lessons|
      invariant st.minutes == SumMinutes(lessons[..i], LessonMinutes)
      invariant st.completed == CountCompleted(lessons[..i])
      invariant st.exercises == CountExercises(lessons[..i])
      invariant st.completedExercises == CountCompletedExercises(lessons[..i])
    {
      var l := lessons[i];
      assert lessons[..i + 1][..i] == lessons[..i];
      if l.isExercise {
        st := st.(exercises := st.exercises + 1);
        if l.isCompleted {
          st := st.(completedExercises := st.completedExercises + 1);
        }
      }
      st := st.(minutes := st.minutes + LessonMinutes(l));
      if l.isCompleted {
        st := st.(completed := st.completed + 1);
      }
      i := i + 1;
    }
    assert lessons[..|lessons|] == lessons;
  }

  /** When every lesson arrives in the encoder's form without
      `debug_minutes`, the page's total is 0 and the corrected total is
      the sum of the lengths. */
  lemma {:induction false} EncodedModuleTotals(lessons: seq<LessonData>, ds: seq<Duration>)
    requires |ds| == |lessons|
    requires forall i :: 0 <= i < |lessons| ==> lessons[i].debugMinutes.None? && lessons[i].duration == EncodedDuration(ds[i])
    ensures SumMinutes(lessons, LessonMinutes) == 0
    ensures SumMinutes(lessons, LessonMinutesCorrected) == SumDurations(ds)
    decreases |lessons|
  {
    if lessons != [] {
      var n := |lessons| - 1;
      EncodedModuleTotals(lessons[..n], ds[..n]);
      EncodedDurationCountsNothing(ds[n], lessons[n]);
      EncodedDurationCorrected(ds[n], lessons[n]);
    }
  }

  function SumDurations(ds: seq<Duration>): nat
  {
    if ds == [] then 0 else SumDurations(ds[..|ds| - 1]) + DurationMinutes(ds[|ds| - 1])
  }

  /** A total of minutes as hours (when there are any) and minutes (when
      there are any, or when there are no hours). */
  function ClockParts(total: nat): (ps: seq<Part>)
    ensures |ps| >= 1
  {
    var h := total / 60;
    var m := total % 60;
    (if h > 0 then [Part(h, Std)] else []) + (if m > 0 || h == 0 then [Part(m, Min)] else [])
  }

  /** The clock parts add up to the total, the minutes part is below an
      hour, and a total of at least an hour leads with its hours. */
  lemma ClockPartsMeaning(total: nat)
    ensures PartsSeconds(ClockParts(total)) == total * 60
    ensures forall i :: 0 <= i < |ClockParts(total)| && ClockParts(total)[i].unit == Min ==> ClockParts(total)[i].n < 60
    ensures total >= 60 <==> ClockParts(total)[0] == Part(total / 60, Std)
  {
    var h := total / 60;
    var m := total % 60;
    var a := if h > 0 then [Part(h, Std)] else [];
    var b := if m > 0 || h == 0 then [Part(m, Min)] else [];
    assert ClockParts(total) == a + b;
    PartsSecondsAppend(a, b);
    PartsSecondsOptional(h > 0, Part(h, Std));
    PartsSecondsOptional(m > 0 || h == 0, Part(m, Min));
  }

  /** The total as the module card text; a total of 0 is written as ten
      minutes. */
  function ModuleDurationText(total: nat): (r: string)
    ensures r == RenderParts(ClockParts(if total == 0 then 10 else total))
  {
    assert ClockParts(10) == [Part(10, Min)];
    assert NatToString(10) == "10";
    if total == 0 then "10 Min" else RenderParts(ClockParts(total))
  }

  /** The minutes the card actually shows: a total of 0 is replaced by
      15 minutes plus 15 per preceding module, so the "10 Min" text is
      never displayed. */
  function DisplayedMinutes(total: nat, index: nat): (t: nat)
    ensures t > 0
    ensures total > 0 ==> t == total
  {
    if total == 0 then 15 + 15 * index else total
  }

  function DisplayedDurationText(total: nat, index: nat): (r: string)
    ensures r == ModuleDurationText(DisplayedMinutes(total, index))
  {
    RenderParts(ClockParts(DisplayedMinutes(total, index)))
  }

  /** As written, a module whose lessons all arrive in the encoder's form
      shows the placeholder length of its position, whatever its lessons
      take. */
  lemma EncodedModuleShowsPlaceholder(lessons: seq<LessonData>, ds: seq<Duration>, index: nat)
    requires |ds| == |lessons|
    requires forall i :: 0 <= i < |lessons| ==> lessons[i].debugMinutes.None? && lessons[i].duration == EncodedDuration(ds[i])
    ensures DisplayedMinutes(SumMinutes(lessons, LessonMinutes), index) == 15 + 15 * index
  {
    EncodedModuleTotals(lessons, ds);
  }

  // ---------------------------------------------------------------------
  // Completion

  /** `Math.round(done / total * 100)` over exact rationals, 0 without
      lessons: the nearest whole percentage, halves rounded up. */
  function Percentage(done: nat, total: nat): (p: nat)
    ensures total == 0 ==> p == 0
    ensures total > 0 ==> 2 * total * p <= 200 * done + total < 2 * total * (p + 1)
  {
    if total > 0 then (200 * done + total) / (2 * total) else 0
  }

  lemma PercentageBounded(done: nat, total: nat)
    requires done <= total
    ensures Percentage(done, total) <= 100
    ensures done == total && total > 0 ==> Percentage(done, total) == 100
  {
    if total > 0 {
      var p := Percentage(done, total);
      var k := 2 * total;
      assert k * p < k * 101;
      MultiplyCancel(k, p, 101);
      if done == total {
        assert k * 100 < k * (p + 1);
        MultiplyCancel(k, 100, p + 1);
      }
    }
  }

  lemma MultiplyCancel(k: nat, a: nat, b: nat)
    requires k * a < k * b
    ensures a < b
  {
  }

  /** A module counts as complete exactly when at least 99.5% of its
      lessons are done. */
  lemma PercentageFull(done: nat, total: nat)
    requires done <= total && total > 0
    ensures Percentage(done, total) == 100 <==> 200 * done >= 199 * total
  {
    PercentageBounded(done, total);
    var p := Percentage(done, total);
    var k := 2 * total;
    if 200 * done >= 199 * total {
      assert k * 100 < k * (p + 1);
      MultiplyCancel(k, 100, p + 1);
    }
  }

  /** The percentage is 0 exactly when less than half a percent is done. */
  lemma PercentageNone(done: nat, total: nat)
    requires total > 0
    ensures Percentage(done, total) == 0 <==> 200 * done < total
  {
  }

  /** With fewer than 200 lessons, 100% means every lesson is done and 0%
      means none is; from 200 lessons on, one open lesson still shows
      100%. */
  lemma PercentageSmallModules(done: nat, total: nat)
    requires done <= total && 0 < total < 200
    ensures Percentage(done, total) == 100 <==> done == total
    ensures Percentage(done, total) == 0 <==> done == 0
  {
    PercentageFull(done, total);
    PercentageNone(done, total);
  }

  lemma PercentageLargeModule(total: nat)
    requires total >= 200
    ensures Percentage(total - 1, total) == 100
  {
    PercentageFull(total - 1, total);
  }

  datatype Status = Complete | InProgress | NotStarted

  /** The card's class: complete at 100, not started at 0, in progress in
      between. */
  function StatusClass(percentage: nat): (r: Status)
    ensures r == Complete <==> percentage == 100
    ensures r == NotStarted <==> percentage == 0
  {
    if percentage == 100 then Complete else if percentage > 0 then InProgress else NotStarted
  }

  /** The card's class from the lesson counts. */
  lemma StatusOfCounts(done: nat, total: nat)
    requires done <= total
    ensures StatusClass(Percentage(done, total)) == Complete <==> total > 0 && 200 * done >= 199 * total
    ensures StatusClass(Percentage(done, total)) == NotStarted <==> total == 0 || 200 * done < total
  {
    if total > 0 {
      PercentageFull(done, total);
      PercentageNone(done, total);
    }
  }
}
