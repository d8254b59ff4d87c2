/** The grading page's notebook comparison: clearing outputs, the text of
    a cell, the cell-by-cell diff of reference and submission, and the HTML
    escaping applied to cell text. */
module NotebookDiff {
  import opened Wrappers

  /** A cell's `source`: the notebook format allows a list of lines or one
      string. */
  datatype Source = Lines(lines: seq<string>) | Text(text: string)

  /** A notebook cell. Outputs are kept as opaque texts. */
  datatype Cell = Cell(cellType: string, source: Source, outputs: seq<string>, executionCount: Option<int>)

  /** A notebook whose `cells` key may be missing. */
  datatype Notebook = Notebook(cells: Option<seq<Cell>>)

  predicate IsCode(c: Cell)
  {
    c.cellType == "code"
  }

  // ---------------------------------------------------------------------
  // clearNotebookOutputs

  function ClearCell(c: Cell): (r: Cell)
    ensures IsCode(c) ==> r == c.(outputs := [], executionCount := None)
    ensures !IsCode(c) ==> r == c
  {
    if IsCode(c) then c.(outputs := [], executionCount := None) else c
  }

  /** Code cells lose their outputs and execution count; every other cell
      and a notebook without cells stay as they are. */
  function ClearNotebookOutputs(nb: Notebook): (r: Notebook)
    ensures nb.cells.None? ==> r == nb
    ensures nb.cells.Some? ==> r.cells.Some? && |r.cells.value| == |nb.cells.value|
    ensures nb.cells.Some? ==> forall i :: 0 <= i < |nb.cells.value| ==>
      (var c, d := nb.cells.value[i], r.cells.value[i];
       d.cellType == c.cellType && d.source == c.source
       && (IsCode(c) ==> d.outputs == [] && d.executionCount.None?)
       && (!IsCode(c) ==> d == c))
  {
    match nb.cells
    case None => nb
    case Some(cs) => Notebook(Some(ClearCells(cs)))
  }

  function ClearCells(cs: seq<Cell>): (r: seq<Cell>)
    ensures |r| == |cs|
    ensures forall i :: 0 <= i < |cs| ==> r[i] == ClearCell(cs[i])
  {
    if cs == [] then [] else [ClearCell(cs[0])] + ClearCells(cs[1..])
  }

  /** Clearing twice is clearing once. */
  lemma ClearIdempotent(nb: Notebook)
    ensures ClearNotebookOutputs(ClearNotebookOutputs(nb)) == ClearNotebookOutputs(nb)
  {
    if nb.cells.Some? {
      var once := ClearCells(nb.cells.value);
      var twice := ClearCells(once);
      assert forall i :: 0 <= i < |once| ==> twice[i] == once[i];
      assert twice == once;
    }
  }

  // ---------------------------------------------------------------------
  // getCellContent and generateNotebookDiff

  /** The source lines glued together (`source.join('')`), for every kind
      of cell; `None` when the source is one string, which has no `join`,
      so the call throws a `TypeError`. */
  function CellContent(c: Cell): (r: Option<string>)
    ensures r.Some? <==> c.source.Lines?
    ensures r.Some? ==> |r.value| == TotalLength(c.source.lines)
  {
    match c.source
    case Lines(lines) => Some(Concat(lines))
    case Text(_) => None
  }

  /** Every cell's source is a list of lines, so every `join` succeeds. */
  predicate AllJoinable(cells: seq<Cell>)
  {
    forall i :: 0 <= i < |cells| ==> cells[i].source.Lines?
  }

  function Concat(lines: seq<string>): (r: string)
    ensures |r| == TotalLength(lines)
  {
    if lines == [] then [] else lines[0] + Concat(lines[1..])
  }

  function TotalLength(lines: seq<string>): nat
  {
    if lines == [] then 0 else |lines[0]| + TotalLength(lines[1..])
  }

  /** Clearing outputs never changes what the diff compares. */
  lemma ClearKeepsContent(c: Cell)
    ensures CellContent(ClearCell(c)) == CellContent(c)
  {
  }

  /** One row of the comparison. A changed row is shown as a removed
      reference cell beside an added submission cell. */
  datatype Row =
    | Added(sub: Cell)
    | Removed(ref: Cell)
    | Unchanged(ref: Cell)
    | Changed(ref: Cell, sub: Cell)

  function CellsOf(nb: Notebook): seq<Cell>
  {
    nb.cells.GetOr([])
  }

  function Max(a: nat, b: nat): nat
  {
    if a >= b then a else b
  }

  /** Row `i` compares the cells at index `i`: no alignment is searched for. */
  function RowAt(refs: seq<Cell>, subs: seq<Cell>, i: nat): (r: Row)
    requires i < |refs| || i < |subs|
    ensures i >= |refs| ==> r == Added(subs[i])
    ensures i < |refs| && i >= |subs| ==> r == Removed(refs[i])
    ensures i < |refs| && i < |subs| && CellContent(refs[i]) == CellContent(subs[i]) ==> r == Unchanged(refs[i])
    ensures i < |refs| && i < |subs| && CellContent(refs[i]) != CellContent(subs[i]) ==> r == Changed(refs[i], subs[i])
  {
    if i >= |refs| then Added(subs[i])
    else if i >= |subs| then Removed(refs[i])
    else if CellContent(refs[i]) == CellContent(subs[i]) then Unchanged(refs[i])
    else Changed(refs[i], subs[i])
  }

  /** The rows of the diff, one per index up to the longer notebook. Every
      cell of either notebook has its source joined, by `getCellContent` or
      by `generateCellHtml`, so one cell whose source is a single string
      makes the whole comparison throw. */
  method GenerateNotebookDiff(reference: Notebook, submission: Notebook) returns (r: Result<seq<Row>, string>)
    ensures r.Err? <==> !AllJoinable(CellsOf(reference)) || !AllJoinable(CellsOf(submission))
    ensures r.Err? ==> r.error == "TypeError"
    ensures r.Ok? ==> |r.value| == Max(|CellsOf(reference)|, |CellsOf(submission)|)
    ensures r.Ok? ==> forall i :: 0 <= i < |r.value| ==> r.value[i] == RowAt(CellsOf(reference), CellsOf(submission), i)
  {
    var refs := CellsOf(reference);
    var subs := CellsOf(submission);
    var maxCells := Max(|refs|, |subs|);
    var rows := [];
    var i := 0;
    while i < maxCells
      invariant 0 <= i <= maxCells
      invariant |rows| == i
      invariant forall k :: 0 <= k < i ==> rows[k] == RowAt(refs, subs, k)
      invariant forall k :: 0 <= k < i && k < |refs| ==> refs[k].source.Lines?
      invariant forall k :: 0 <= k < i && k < |subs| ==> subs[k].source.Lines?
    {
      if i < |refs| && refs[i].source.Text? {
        return Err("TypeError");
      }
      if i < |subs| && subs[i].source.Text? {
        return Err("TypeError");
      }
      rows := rows + [RowAt(refs, subs, i)];
      i := i + 1;
    }
    return Ok(rows);
  }

  /** `displayNotebookDiff`: each text is parsed (`None` stands for text
      `JSON.parse` refuses), outputs are cleared and the notebooks compared;
      any exception on the way shows the one alert instead of the diff. */
  method DisplayNotebookDiff(reference: Option<Notebook>, submission: Option<Notebook>) returns (r: Result<seq<Row>, string>)
    ensures r.Err? <==>
      || reference.None? || submission.None?
      || !AllJoinable(CellsOf(reference.value)) || !AllJoinable(CellsOf(submission.value))
    ensures r.Err? ==> r.error == "Error comparing notebooks"
    ensures r.Ok? ==>
      r.value == DiffRows(ClearCells(CellsOf(reference.value)), ClearCells(CellsOf(submission.value)))
  {
    if reference.None? || submission.None? {
      return Err("Error comparing notebooks");
    }
    var cleared := ClearNotebookOutputs(reference.value);
    var clearedSub := ClearNotebookOutputs(submission.value);
    ClearKeepsJoinable(CellsOf(reference.value));
    ClearKeepsJoinable(CellsOf(submission.value));
    var rows := GenerateNotebookDiff(cleared, clearedSub);
    if rows.Err? {
      return Err("Error comparing notebooks");
    }
    r := rows;
  }

  /** Clearing outputs leaves every cell's source as it was. */
  lemma ClearKeepsJoinable(cells: seq<Cell>)
    ensures AllJoinable(ClearCells(cells)) <==> AllJoinable(cells)
  {
    var cleared := ClearCells(cells);
    assert forall i :: 0 <= i < |cells| ==> cleared[i].source == cells[i].source;
  }

  /** The functional description of the same rows. */
  function DiffRows(refs: seq<Cell>, subs: seq<Cell>): (rows: seq<Row>)
    ensures |rows| == Max(|refs|, |subs|)
    ensures forall i :: 0 <= i < |rows| ==> rows[i] == RowAt(refs, subs, i)
  {
    seq(Max(|refs|, |subs|), i requires 0 <= i < Max(|refs|, |subs|) => RowAt(refs, subs, i))
  }

  /** The reference side of a row (what stands in the left column). */
  function RefSide(r: Row): Option<Cell>
  {
    match r
    case Added(_) => None
    case Removed(c) => Some(c)
    case Unchanged(c) => Some(c)
    case Changed(c, _) => Some(c)
  }

  /** The submission's text in a row: an unchanged row shows only the
      reference cell, whose text is the same. */
  function SubText(r: Row): Option<string>
  {
    match r
    case Added(c) => CellContent(c)
    case Removed(_) => None
    case Unchanged(c) => CellContent(c)
    case Changed(_, c) => CellContent(c)
  }

  /** Nothing is lost: the left column lists the reference cells in order,
      and the texts on the right are the submission's cell texts in order. */
  lemma DiffLosesNothing(refs: seq<Cell>, subs: seq<Cell>)
    ensures var rows := DiffRows(refs, subs);
      && (forall i :: 0 <= i < |rows| ==> (RefSide(rows[i]).Some? <==> i < |refs|))
      && (forall i :: 0 <= i < |refs| ==> RefSide(rows[i]) == Some(refs[i]))
      && (forall i :: |subs| <= i < |rows| ==> SubText(rows[i]).None?)
      && (forall i :: 0 <= i < |subs| ==> SubText(rows[i]) == CellContent(subs[i]))
      && (AllJoinable(subs) ==> forall i :: 0 <= i < |rows| ==> (SubText(rows[i]).Some? <==> i < |subs|))
  {
  }

  /** Comparing a notebook with itself marks every cell unchanged. */
  lemma SelfDiffUnchanged(cells: seq<Cell>)
    ensures var rows := DiffRows(cells, cells);
      |rows| == |cells| && forall i :: 0 <= i < |rows| ==> rows[i] == Unchanged(cells[i])
  {
  }

  /** Rows are added exactly past the end of the reference and removed
      exactly past the end of the submission. */
  lemma DiffTails(refs: seq<Cell>, subs: seq<Cell>)
    ensures var rows := DiffRows(refs, subs);
      && (forall i :: 0 <= i < |rows| ==> (rows[i].Added? <==> i >= |refs|))
      && (forall i :: 0 <= i < |rows| ==> (rows[i].Removed? <==> i >= |subs|))
  {
  }

  /** Clearing outputs on both sides does not change which rows differ. */
  lemma DiffIgnoresOutputs(refs: seq<Cell>, subs: seq<Cell>)
    ensures var a, b := DiffRows(refs, subs), DiffRows(ClearCells(refs), ClearCells(subs));
      |a| == |b| && forall i :: 0 <= i < |a| ==> a[i].Unchanged? == b[i].Unchanged? && a[i].Changed? == b[i].Changed?
  {
    var a, b := DiffRows(refs, subs), DiffRows(ClearCells(refs), ClearCells(subs));
    forall i | 0 <= i < |a|
      ensures a[i].Unchanged? == b[i].Unchanged? && a[i].Changed? == b[i].Changed?
    {
      if i < |refs| && i < |subs| {
        ClearKeepsContent(refs[i]);
        ClearKeepsContent(subs[i]);
      }
    }
  }

  // ---------------------------------------------------------------------
  // escapeHtml

  /** `s.replace(/c/g, by)`. */
  function ReplaceAll(s: string, c: char, with: string): string
  {
    if s == [] then [] else (if s[0] == c then with else [s[0]]) + ReplaceAll(s[1..], c, with)
  }

  /** A replacement leaves a text without the character as it is, and a
      non-empty replacement never shortens the text. */
  lemma {:induction false} ReplaceAllKeeps(s: string, c: char, with: string)
    ensures c !in s ==> ReplaceAll(s, c, with) == s
    ensures |with| >= 1 ==> |ReplaceAll(s, c, with)| >= |s|
  {
    if s != [] {
      ReplaceAllKeeps(s[1..], c, with);
    }
  }

  /** The five replacements in the order the page applies them: the
      ampersand first, so the entities introduced later are not escaped
      again. */
  function EscapeHtml(s: string): (r: string)
    ensures |r| >= |s|
    ensures (forall ch :: ch in s ==> ch !in "&<>\"'") ==> r == s
  {
    var a := ReplaceAll(s, '&', "&amp;");
    var b := ReplaceAll(a, '<', "&lt;");
    var c := ReplaceAll(b, '>', "&gt;");
    var d := ReplaceAll(c, '"', "&quot;");
    ReplaceAllKeeps(s, '&', "&amp;");
    ReplaceAllKeeps(a, '<', "&lt;");
    ReplaceAllKeeps(b, '>', "&gt;");
    ReplaceAllKeeps(c, '"', "&quot;");
    ReplaceAllKeeps(d, '\'', "&#039;");
    ReplaceAll(d, '\'', "&#039;")
  }

  /** What a single character becomes. */
  function EscapeChar(ch: char): (r: string)
    ensures |r| >= 1
  {
    if ch == '&' then "&amp;"
    else if ch == '<' then "&lt;"
    else if ch == '>' then "&gt;"
    else if ch == '"' then "&quot;"
    else if ch == '\'' then "&#039;"
    else [ch]
  }

  /** Escaping character by character. */
  function EscapeChars(s: string): (r: string)
  {
    if s == [] then [] else EscapeChar(s[0]) + EscapeChars(s[1..])
  }

  lemma {:induction false} ReplaceAllAppend(a: string, b: string, c: char, with: string)
    ensures ReplaceAll(a + b, c, with) == ReplaceAll(a, c, with) + ReplaceAll(b, c, with)
  {
    if a == [] {
      assert a + b == b;
    } else {
      var t := a + b;
      assert t[0] == a[0];
      assert t[1..] == a[1..] + b;
      ReplaceAllAppend(a[1..], b, c, with);
      var h := if a[0] == c then with else [a[0]];
      assert ReplaceAll(t, c, with) == h + ReplaceAll(t[1..], c, with);
      assert ReplaceAll(a, c, with) == h + ReplaceAll(a[1..], c, with);
      assert h + (ReplaceAll(a[1..], c, with) + ReplaceAll(b, c, with))
          == (h + ReplaceAll(a[1..], c, with)) + ReplaceAll(b, c, with);
    }
  }

  lemma ReplaceAllOne(ch: char, c: char, with: string)
    ensures ReplaceAll([ch], c, with) == if ch == c then with else [ch]
  {
    assert [ch][1..] == [];
  }

  /** The chained replacements escape each character on its own. */
  lemma {:induction false} EscapeHtmlCharwise(s: string)
    ensures EscapeHtml(s) == EscapeChars(s)
  {
    if s != [] {
      EscapeHtmlCharwise(s[1..]);
      assert s == [s[0]] + s[1..];
      EscapeAppend([s[0]], s[1..]);
      EscapeOne(s[0]);
    }
  }

  lemma EscapeAppend(x: string, y: string)
    ensures EscapeHtml(x + y) == EscapeHtml(x) + EscapeHtml(y)
  {
    ReplaceAllAppend(x, y, '&', "&amp;");
    var a1, a2 := ReplaceAll(x, '&', "&amp;"), ReplaceAll(y, '&', "&amp;");
    ReplaceAllAppend(a1, a2, '<', "&lt;");
    var b1, b2 := ReplaceAll(a1, '<', "&lt;"), ReplaceAll(a2, '<', "&lt;");
    ReplaceAllAppend(b1, b2, '>', "&gt;");
    var c1, c2 := ReplaceAll(b1, '>', "&gt;"), ReplaceAll(b2, '>', "&gt;");
    ReplaceAllAppend(c1, c2, '"', "&quot;");
    var d1, d2 := ReplaceAll(c1, '"', "&quot;"), ReplaceAll(c2, '"', "&quot;");
    ReplaceAllAppend(d1, d2, '\'', "&#039;");
  }

  lemma EscapeOne(ch: char)
    ensures EscapeHtml([ch]) == EscapeChar(ch)
  {
    if ch == '&' {
      EscapeAmp();
    } else if ch == '<' {
      EscapeLt();
    } else if ch == '>' {
      EscapeGt();
    } else if ch == '"' {
      EscapeQuot();
    } else if ch == '\'' {
      EscapeApos();
    } else {
      EscapePlain(ch);
    }
  }

  /** The two quote replacements leave the entities of `&`, `<` and `>`
      alone. */
  lemma QuotesUntouched(e: string)
    requires e == "&amp;" || e == "&lt;" || e == "&gt;"
    ensures ReplaceAll(ReplaceAll(e, '"', "&quot;"), '\'', "&#039;") == e
  {
    assert '"' !in e && '\'' !in e;
    Untouched(e, '"', "&quot;");
    Untouched(e, '\'', "&#039;");
  }

  /** The replacements of `<` and `>` leave the ampersand's entity alone. */
  lemma AnglesUntouched(e: string)
    requires e == "&amp;"
    ensures ReplaceAll(ReplaceAll(e, '<', "&lt;"), '>', "&gt;") == e
  {
    assert '<' !in e && '>' !in e;
    Untouched(e, '<', "&lt;");
    Untouched(e, '>', "&gt;");
  }

  lemma EscapeAmp()
    ensures EscapeHtml("&") == "&amp;"
  {
    ReplaceAllOne('&', '&', "&amp;");
    AnglesUntouched("&amp;");
    QuotesUntouched("&amp;");
  }

  lemma EscapeLt()
    ensures EscapeHtml("<") == "&lt;"
  {
    assert ReplaceAll(ReplaceAll("<", '&', "&amp;"), '<', "&lt;") == "&lt;" by {
      ReplaceAllOne('<', '&', "&amp;");
      ReplaceAllOne('<', '<', "&lt;");
    }
    assert ReplaceAll("&lt;", '>', "&gt;") == "&lt;" by {
      assert '>' !in "&lt;";
      Untouched("&lt;", '>', "&gt;");
    }
    QuotesUntouched("&lt;");
  }

  lemma EscapeGt()
    ensures EscapeHtml(">") == "&gt;"
  {
    ReplaceAllOne('>', '&', "&amp;");
    ReplaceAllOne('>', '<', "&lt;");
    ReplaceAllOne('>', '>', "&gt;");
    QuotesUntouched("&gt;");
  }

  lemma EscapeQuot()
    ensures EscapeHtml("\"") == "&quot;"
  {
    ReplaceAllOne('"', '&', "&amp;");
    ReplaceAllOne('"', '<', "&lt;");
    ReplaceAllOne('"', '>', "&gt;");
    ReplaceAllOne('"', '"', "&quot;");
    assert '\'' !in "&quot;";
    Untouched("&quot;", '\'', "&#039;");
  }

  lemma EscapeApos()
    ensures EscapeHtml("'") == "&#039;"
  {
    ReplaceAllOne('\'', '&', "&amp;");
    ReplaceAllOne('\'', '<', "&lt;");
    ReplaceAllOne('\'', '>', "&gt;");
    ReplaceAllOne('\'', '"', "&quot;");
    ReplaceAllOne('\'', '\'', "&#039;");
  }

  lemma EscapePlain(ch: char)
    requires ch != '&' && ch != '<' && ch != '>' && ch != '"' && ch != '\''
    ensures EscapeHtml([ch]) == [ch]
  {
    ReplaceAllOne(ch, '&', "&amp;");
    ReplaceAllOne(ch, '<', "&lt;");
    ReplaceAllOne(ch, '>', "&gt;");
    ReplaceAllOne(ch, '"', "&quot;");
    ReplaceAllOne(ch, '\'', "&#039;");
  }

  lemma {:induction false} Untouched(t: string, c: char, with: string)
    requires c !in t
    ensures ReplaceAll(t, c, with) == t
  {
    if t != [] {
      assert t[0] != c;
      assert c !in t[1..];
      Untouched(t[1..], c, with);
      assert t == [t[0]] + t[1..];
    }
  }

  /** The characters that carry markup never survive escaping. */
  lemma {:induction false} EscapedHasNoMarkup(s: string)
    ensures var r := EscapeHtml(s);
      '<' !in r && '>' !in r && '"' !in r && '\'' !in r
  {
    EscapeHtmlCharwise(s);
    CharwiseNoMarkup(s);
  }

  lemma {:induction false} CharwiseNoMarkup(s: string)
    ensures var r := EscapeChars(s);
      '<' !in r && '>' !in r && '"' !in r && '\'' !in r
  {
    if s != [] {
      CharwiseNoMarkup(s[1..]);
      var e := EscapeChar(s[0]);
      assert '<' !in e && '>' !in e && '"' !in e && '\'' !in e;
    }
  }

  /** `e` occurs in `r` at position `i`. */
  predicate StartsAt(r: string, i: int, e: string)
  {
    0 <= i && i + |e| <= |r| && r[i..i + |e|] == e
  }

  predicate EntityAt(r: string, i: int)
  {
    StartsAt(r, i, "&amp;") || StartsAt(r, i, "&lt;") || StartsAt(r, i, "&gt;")
    || StartsAt(r, i, "&quot;") || StartsAt(r, i, "&#039;")
  }

  /** Every ampersand starts one of the five entities. */
  predicate AmpsBeginEntities(r: string)
  {
    forall i :: 0 <= i < |r| && r[i] == '&' ==> EntityAt(r, i)
  }

  /** Because the ampersand is replaced first, every ampersand in the
      escaped text begins an entity. */
  lemma {:induction false} EscapedAmpsBeginEntities(s: string)
    ensures AmpsBeginEntities(EscapeHtml(s))
  {
    EscapeHtmlCharwise(s);
    CharwiseAmps(s);
  }

  lemma {:induction false} CharwiseAmps(s: string)
    ensures AmpsBeginEntities(EscapeChars(s))
  {
    if s != [] {
      CharwiseAmps(s[1..]);
      PrefixKeepsAmps(s[0], EscapeChars(s[1..]));
    }
  }

  lemma PrefixKeepsAmps(ch: char, x: string)
    requires AmpsBeginEntities(x)
    ensures AmpsBeginEntities(EscapeChar(ch) + x)
  {
    var e := EscapeChar(ch);
    var r := e + x;
    forall i | 0 <= i < |r| && r[i] == '&'
      ensures EntityAt(r, i)
    {
      if i >= |e| {
        var j := i - |e|;
        assert x[j] == r[i];
        assert EntityAt(x, j);
        ShiftEntity(e, x, j);
      } else {
        assert e[i] == '&';
        EntityOfEscape(ch, x, i);
      }
    }
  }

  lemma ShiftEntity(e: string, x: string, j: int)
    requires EntityAt(x, j)
    ensures EntityAt(e + x, |e| + j)
  {
    var r := e + x;
    forall t: string | StartsAt(x, j, t)
      ensures StartsAt(r, |e| + j, t)
    {
      assert r[|e| + j..|e| + j + |t|] == x[j..j + |t|];
    }
  }

  lemma EntityOfEscape(ch: char, x: string, i: int)
    requires 0 <= i < |EscapeChar(ch)| && EscapeChar(ch)[i] == '&'
    ensures EntityAt(EscapeChar(ch) + x, i)
  {
    var e := EscapeChar(ch);
    var r := e + x;
    assert i == 0;
    assert r[..|e|] == e;
  }

  /** Reading the escaped text back: each entity becomes its character. */
  function Unescape(s: string): (r: string)
    ensures |r| <= |s|
    ensures '&' !in s ==> r == s
    decreases |s|
  {
    if s == [] then []
    else if s[0] != '&' then [s[0]] + Unescape(s[1..])
    else if |s| >= 5 && s[..5] == "&amp;" then ['&'] + Unescape(s[5..])
    else if |s| >= 4 && s[..4] == "&lt;" then ['<'] + Unescape(s[4..])
    else if |s| >= 4 && s[..4] == "&gt;" then ['>'] + Unescape(s[4..])
    else if |s| >= 6 && s[..6] == "&quot;" then ['"'] + Unescape(s[6..])
    else if |s| >= 6 && s[..6] == "&#039;" then ['\''] + Unescape(s[6..])
    else [s[0]] + Unescape(s[1..])
  }

  lemma UnescapeAfterChar(ch: char, rest: string)
    ensures Unescape(EscapeChar(ch) + rest) == [ch] + Unescape(rest)
  {
    if ch == '&' {
      UnescapeAmp(rest);
    } else if ch == '<' {
      UnescapeLt(rest);
    } else if ch == '>' {
      UnescapeGt(rest);
    } else if ch == '"' {
      UnescapeQuot(rest);
    } else if ch == '\'' {
      UnescapeApos(rest);
    } else {
      UnescapePlain(ch, rest);
    }
  }

  lemma UnescapeAmp(rest: string)
    ensures Unescape("&amp;" + rest) == ['&'] + Unescape(rest)
  {
    var t := "&amp;" + rest;
    assert t[..5] == "&amp;" && t[5..] == rest;
  }

  lemma UnescapeLt(rest: string)
    ensures Unescape("&lt;" + rest) == ['<'] + Unescape(rest)
  {
    var t := "&lt;" + rest;
    assert |t| >= 5 ==> t[..5][1] == 'l';
    assert t[..4] == "&lt;" && t[4..] == rest;
  }

  lemma UnescapeGt(rest: string)
    ensures Unescape("&gt;" + rest) == ['>'] + Unescape(rest)
  {
    var t := "&gt;" + rest;
    assert |t| >= 5 ==> t[..5][1] == 'g';
    assert t[..4][1] == 'g';
    assert t[..4] == "&gt;" && t[4..] == rest;
  }

  lemma UnescapeQuot(rest: string)
    ensures Unescape("&quot;" + rest) == ['"'] + Unescape(rest)
  {
    var t := "&quot;" + rest;
    assert t[..5][1] == 'q';
    assert t[..4][1] == 'q';
    assert t[..6] == "&quot;" && t[6..] == rest;
  }

  lemma UnescapeApos(rest: string)
    ensures Unescape("&#039;" + rest) == ['\''] + Unescape(rest)
  {
    var t := "&#039;" + rest;
    assert t[..5][1] == '#';
    assert t[..4][1] == '#';
    assert t[..6][1] == '#';
    assert t[..6] == "&#039;" && t[6..] == rest;
  }

  lemma UnescapePlain(ch: char, rest: string)
    requires ch != '&' && ch != '<' && ch != '>' && ch != '"' && ch != '\''
    ensures Unescape([ch] + rest) == [ch] + Unescape(rest)
  {
    var t := [ch] + rest;
    assert t[0] == ch && t[1..] == rest;
    assert |t| >= 4 ==> t[..4][0] != '&';
    assert |t| >= 5 ==> t[..5][0] != '&';
    assert |t| >= 6 ==> t[..6][0] != '&';
  }

  /** Escaping loses nothing: the escaped text reads back as the original. */
  lemma {:induction false} EscapeRoundTrip(s: string)
    ensures Unescape(EscapeHtml(s)) == s
  {
    EscapeHtmlCharwise(s);
    CharwiseRoundTrip(s);
  }

  lemma {:induction false} CharwiseRoundTrip(s: string)
    ensures Unescape(EscapeChars(s)) == s
  {
    if s != [] {
      CharwiseRoundTrip(s[1..]);
      UnescapeAfterChar(s[0], EscapeChars(s[1..]));
    }
  }
}
