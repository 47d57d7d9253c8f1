/** The terminal renderer that writes only the rows that changed, on a model of the terminal
    it writes to. */
module Repaint {
  import opened Arith
  import opened Codec

  // ---------------------------------------------------------------------------
  // The terminal
  // ---------------------------------------------------------------------------

  datatype Style = Plain | Dim | Bold | BidPrice | AskPrice | Good | Warn | Bad | Accent

  /** What a terminal remembers from the styles since the last reset: each style but the
      plain one adds to what is there. */
  datatype Pen = Pen(bold: bool, dim: bool, colour: nat)

  const NoPen: Pen := Pen(false, false, 0)

  datatype Cell = Cell(ch: char, pen: Pen)

  const Blank: Cell := Cell(' ', NoPen)

  datatype Op = Clear | Goto(row: nat, col: nat) | Select(style: Style) | Put(ch: char) | EraseLine

  datatype Screen = Screen(rows: nat, cols: nat, cells: seq<seq<Cell>>, row: nat, col: nat, pen: Pen)

  function Selected(pen: Pen, style: Style): Pen {
    match style
    case Plain => NoPen
    case Dim => pen.(dim := true)
    case Bold => pen.(bold := true)
    case BidPrice | Bad => pen.(colour := 31)
    case AskPrice | Good => pen.(colour := 32)
    case Warn => pen.(colour := 33)
    case Accent => pen.(colour := 36)
  }

  predicate Shaped(s: Screen) {
    |s.cells| == s.rows && forall r :: 0 <= r < s.rows ==> |s.cells[r]| == s.cols
  }

  function BlankRow(cols: nat): (row: seq<Cell>)
    ensures |row| == cols && forall c :: 0 <= c < cols ==> row[c] == Blank
  {
    seq(cols, _ => Blank)
  }

  function BlankRows(rows: nat, cols: nat): (cells: seq<seq<Cell>>)
    ensures |cells| == rows && forall r :: 0 <= r < rows ==> cells[r] == BlankRow(cols)
  {
    seq(rows, _ => BlankRow(cols))
  }

  /** One-based, and clamped to the screen. */
  function Place(n: nat, limit: nat): nat {
    if n == 0 || limit == 0 then 0 else if n > limit then limit - 1 else n - 1
  }

  /** A character past the last column goes to the start of the next row, and past the last
      row everything moves up. */
  function Wrapped(s: Screen): Screen {
    if s.col < s.cols then s
    else if s.row + 1 < s.rows then s.(row := s.row + 1, col := 0)
    else if s.cells == [] then s
    else s.(cells := s.cells[1..] + [BlankRow(s.cols)], col := 0)
  }

  function Step(s: Screen, op: Op): Screen {
    match op
    case Clear => s.(cells := BlankRows(s.rows, s.cols))
    case Goto(row, col) => s.(row := Place(row, s.rows), col := Place(col, s.cols))
    case Select(style) => s.(pen := Selected(s.pen, style))
    case Put(ch) =>
      var w := Wrapped(s);
      if w.row < |w.cells| && w.col < |w.cells[w.row]| then
        w.(cells := w.cells[w.row := w.cells[w.row][w.col := Cell(ch, w.pen)]], col := w.col + 1)
      else w
    case EraseLine =>
      if s.row < |s.cells| && s.col <= |s.cells[s.row]| then
        s.(cells := s.cells[s.row := s.cells[s.row][..s.col] + BlankRow(|s.cells[s.row]| - s.col)])
      else s
  }

  /** The terminal clamps a one-based position to the screen, and a character that does not
      fit on its row goes to the first column of the next, moving everything up at the
      bottom. */
  lemma TerminalWraps(s: Screen, ch: char)
    requires Shaped(s) && 0 < s.cols && s.row < s.rows && s.col <= s.cols
    ensures forall n: nat :: Place(n, s.cols) < s.cols && (1 <= n <= s.cols ==> Place(n, s.cols) == n - 1) && (n > s.cols ==> Place(n, s.cols) == s.cols - 1)
    ensures var t := Step(s, Put(ch));
            var above := if s.col == s.cols && s.row + 1 == s.rows then s.cells[1..] + [BlankRow(s.cols)] else s.cells;
            && t.row == (if s.col == s.cols && s.row + 1 < s.rows then s.row + 1 else s.row)
            && t.col == (if s.col == s.cols then 1 else s.col + 1) && t.pen == s.pen
            && t.cells == above[t.row := above[t.row][t.col - 1 := Cell(ch, s.pen)]]
  {
  }

  function Feed(s: Screen, ops: seq<Op>): Screen {
    if ops == [] then s else Step(Feed(s, ops[..|ops| - 1]), ops[|ops| - 1])
  }

  lemma FeedAppend(s: Screen, ops: seq<Op>, op: Op)
    ensures Feed(s, ops + [op]) == Step(Feed(s, ops), op)
  {
    assert (ops + [op])[..|ops|] == ops;
  }

  lemma {:induction false} FeedConcat(s: Screen, a: seq<Op>, b: seq<Op>)
    ensures Feed(s, a + b) == Feed(Feed(s, a), b)
  {
    hide Step;
    if b == [] {
      assert a + b == a;
    } else {
      assert a + b == (a + b[..|b| - 1]) + [b[|b| - 1]];
      FeedAppend(s, a + b[..|b| - 1], b[|b| - 1]);
      FeedConcat(s, a, b[..|b| - 1]);
    }
  }

  // ---------------------------------------------------------------------------
  // Rows
  // ---------------------------------------------------------------------------

  datatype Span = Span(text: string, style: Style)

  type Line = seq<Span>

  function Puts(text: string): (ops: seq<Op>)
    ensures |ops| == |text|
  {
    seq(|text|, i requires 0 <= i < |text| => Put(text[i]))
  }

  /** The spans of a row, empty ones left out. */
  function Spans(line: Line): seq<Op> {
    if line == [] then []
    else
      var span := line[|line| - 1];
      Spans(line[..|line| - 1]) + (if span.text == [] then [] else [Select(span.style)] + Puts(span.text))
  }

  /** A row's output: its spans and then a reset. */
  function AnsiRow(line: Line): seq<Op> {
    Spans(line) + [Select(Plain)]
  }

  predicate IsText(ops: seq<Op>) {
    forall i :: 0 <= i < |ops| ==> ops[i].Put? || ops[i].Select?
  }

  /** The characters a text puts on the screen, and the pen it leaves. */
  function Cells(ops: seq<Op>): seq<Cell> {
    if ops == [] then []
    else
      var front := ops[..|ops| - 1];
      if ops[|ops| - 1].Put? then Cells(front) + [Cell(ops[|ops| - 1].ch, PenAfter(front))] else Cells(front)
  }

  function PenAfter(ops: seq<Op>): Pen {
    if ops == [] then NoPen
    else if ops[|ops| - 1].Select? then Selected(PenAfter(ops[..|ops| - 1]), ops[|ops| - 1].style)
    else PenAfter(ops[..|ops| - 1])
  }

  /** The text is no wider than the screen and leaves the pen reset. */
  predicate Fits(text: seq<Op>, cols: nat) {
    IsText(text) && PenAfter(text) == NoPen && |Cells(text)| <= cols
  }

  /** A whole row showing a text. */
  function Shown(text: seq<Op>, cols: nat): (row: seq<Cell>)
    requires Fits(text, cols)
    ensures |row| == cols
  {
    Cells(text) + BlankRow(cols - |Cells(text)|)
  }

  lemma {:induction false} RowsAreText(line: Line)
    ensures IsText(Spans(line)) && IsText(AnsiRow(line)) && PenAfter(AnsiRow(line)) == NoPen
  {
    if line != [] {
      RowsAreText(line[..|line| - 1]);
    }
    assert AnsiRow(line)[..|AnsiRow(line)| - 1] == Spans(line);
  }

  function Width(line: Line): nat {
    if line == [] then 0 else Width(line[..|line| - 1]) + |line[|line| - 1].text|
  }

  lemma {:induction false} CellsOfPuts(ops: seq<Op>, text: string)
    ensures |Cells(ops + Puts(text))| == |Cells(ops)| + |text|
  {
    if text == [] {
      assert ops + Puts(text) == ops;
    } else {
      var front := text[..|text| - 1];
      assert ops + Puts(text) == (ops + Puts(front)) + [Put(text[|text| - 1])];
      assert (ops + Puts(text))[..|ops| + |text| - 1] == ops + Puts(front);
      CellsOfPuts(ops, front);
    }
  }

  lemma CellsOfSelect(ops: seq<Op>, style: Style)
    ensures Cells(ops + [Select(style)]) == Cells(ops)
  {
    assert (ops + [Select(style)])[..|ops|] == ops;
  }

  /** A row takes as many columns as it is wide. */
  lemma {:induction false} RowWidth(line: Line)
    ensures |Cells(Spans(line))| == Width(line) && |Cells(AnsiRow(line))| == Width(line)
  {
    hide Cells;
    if line == [] {
      NoCells();
    } else {
      var front, span := line[..|line| - 1], line[|line| - 1];
      RowWidth(front);
      if span.text == [] {
        assert Spans(line) == Spans(front);
      } else {
        assert Spans(line) == (Spans(front) + [Select(span.style)]) + Puts(span.text);
        CellsOfSelect(Spans(front), span.style);
        CellsOfPuts(Spans(front) + [Select(span.style)], span.text);
      }
    }
    CellsOfSelect(Spans(line), Plain);
  }

  /** The pen in force after some spans: an empty one selects nothing, a plain one starts
      afresh, and any other adds to what is there. */
  function PenThrough(line: Line): Pen {
    if line == [] then NoPen
    else
      var front, span := PenThrough(line[..|line| - 1]), line[|line| - 1];
      if span.text == [] then front
      else match span.style
        case Plain => NoPen
        case Dim => front.(dim := true)
        case Bold => front.(bold := true)
        case BidPrice => front.(colour := 31)
        case AskPrice => front.(colour := 32)
        case Good => front.(colour := 32)
        case Warn => front.(colour := 33)
        case Bad => front.(colour := 31)
        case Accent => front.(colour := 36)
  }

  function Drawn(text: string, pen: Pen): (cells: seq<Cell>)
    ensures |cells| == |text| && forall i :: 0 <= i < |text| ==> cells[i] == Cell(text[i], pen)
  {
    seq(|text|, i requires 0 <= i < |text| => Cell(text[i], pen))
  }

  /** The characters of a row, each in the pen of its own span. */
  function CellsOfRow(line: Line): seq<Cell> {
    if line == [] then [] else CellsOfRow(line[..|line| - 1]) + Drawn(line[|line| - 1].text, PenThrough(line))
  }

  lemma {:induction false} PutsDraw(ops: seq<Op>, text: string)
    ensures Cells(ops + Puts(text)) == Cells(ops) + Drawn(text, PenAfter(ops)) && PenAfter(ops + Puts(text)) == PenAfter(ops)
  {
    if text == [] {
      assert ops + Puts(text) == ops;
    } else {
      var front := text[..|text| - 1];
      assert (ops + Puts(text))[..|ops| + |text| - 1] == ops + Puts(front);
      assert Drawn(text, PenAfter(ops)) == Drawn(front, PenAfter(ops)) + [Cell(text[|text| - 1], PenAfter(ops))];
      PutsDraw(ops, front);
    }
  }

  lemma SelectKeeps(ops: seq<Op>, style: Style)
    ensures PenAfter(ops + [Select(style)]) == Selected(PenAfter(ops), style)
  {
    assert (ops + [Select(style)])[..|ops|] == ops;
  }

  /** A row puts its own text on the screen, every character in the pen of its span. */
  lemma {:induction false} RowShowsItsSpans(line: Line)
    ensures Cells(Spans(line)) == CellsOfRow(line) == Cells(AnsiRow(line)) && PenAfter(Spans(line)) == PenThrough(line)
  {
    hide Cells, PenAfter;
    if line == [] {
      NoCells();
    } else {
      var front, span := line[..|line| - 1], line[|line| - 1];
      RowShowsItsSpans(front);
      if span.text == [] {
        assert Spans(line) == Spans(front);
        assert CellsOfRow(line) == CellsOfRow(front);
      } else {
        assert Spans(line) == (Spans(front) + [Select(span.style)]) + Puts(span.text);
        CellsOfSelect(Spans(front), span.style);
        SelectKeeps(Spans(front), span.style);
        PutsDraw(Spans(front) + [Select(span.style)], span.text);
      }
    }
    CellsOfSelect(Spans(line), Plain);
  }

  /** So a span after a plain one shows its own style and nothing else. */
  lemma PlainStartsAfresh(line: Line, plain: Span, next: Span)
    requires plain.style.Plain? && plain.text != [] && next.text != []
    ensures PenThrough(line + [plain] + [next]) == PenThrough([next])
  {
    var two := line + [plain];
    assert two[..|line|] == line && (two + [next])[..|two|] == two && [next][..0] == [];
  }

  lemma NoCells()
    ensures Cells([]) == [] && PenAfter([]) == NoPen
  {
  }

  /** The screen part-way through a row. */
  function Partly(s: Screen, r: nat, text: seq<Op>): Screen
    requires Shaped(s) && r < s.rows && |Cells(text)| <= s.cols
  {
    s.(cells := s.cells[r := Cells(text) + s.cells[r][|Cells(text)|..]], row := r, col := |Cells(text)|, pen := PenAfter(text))
  }

  lemma TextStep(s: Screen, r: nat, text: seq<Op>, op: Op)
    requires Shaped(s) && r < s.rows && (op.Put? || op.Select?)
    requires |Cells(text)| + (if op.Put? then 1 else 0) <= s.cols
    ensures |Cells(text + [op])| <= s.cols
    ensures Step(Partly(s, r, text), op) == Partly(s, r, text + [op])
  {
    assert (text + [op])[..|text|] == text;
    var k := |Cells(text)|;
    if op.Put? {
      var cell := Cell(op.ch, PenAfter(text));
      assert (Cells(text) + s.cells[r][k..])[k := cell] == (Cells(text) + [cell]) + s.cells[r][k + 1..];
    }
  }

  lemma {:induction false} TextOnRow(s: Screen, r: nat, text: seq<Op>)
    requires Shaped(s) && r < s.rows && s.row == r && s.col == 0 && s.pen == NoPen
    requires IsText(text) && |Cells(text)| <= s.cols
    ensures Feed(s, text) == Partly(s, r, text)
  {
    if text == [] {
      assert Cells(text) + s.cells[r][0..] == s.cells[r];
      assert s.cells[r := s.cells[r]] == s.cells;
    } else {
      var front, op := text[..|text| - 1], text[|text| - 1];
      assert text == front + [op];
      FeedAppend(s, front, op);
      TextOnRow(s, r, front);
      TextStep(s, r, front, op);
    }
  }

  /** Position, write, erase to the end of the row. */
  function RowOps(r: nat, text: seq<Op>): seq<Op> {
    [Goto(r + 1, 1)] + text + [EraseLine]
  }

  /** Drawing a row that fits puts exactly that row there and touches nothing else. */
  lemma RowIsDrawn(s: Screen, r: nat, text: seq<Op>)
    requires Shaped(s) && r < s.rows && s.pen == NoPen && Fits(text, s.cols)
    ensures var d := Feed(s, RowOps(r, text));
            d.cells == s.cells[r := Shown(text, s.cols)] && d.pen == NoPen && d.rows == s.rows && d.cols == s.cols
  {
    hide Cells, PenAfter, IsText, Feed;
    var at := s.(row := r, col := 0);
    FeedAppend(s, [], Goto(r + 1, 1));
    FeedNothing(s);
    assert [] + [Goto(r + 1, 1)] == [Goto(r + 1, 1)];
    FeedConcat(s, [Goto(r + 1, 1)], text);
    TextOnRow(at, r, text);
    FeedAppend(s, [Goto(r + 1, 1)] + text, EraseLine);
    var k := |Cells(text)|;
    assert (Cells(text) + s.cells[r][k..])[..k] == Cells(text);
  }

  lemma FeedNothing(s: Screen)
    ensures Feed(s, []) == s
  {
  }

  // ---------------------------------------------------------------------------
  // Frames
  // ---------------------------------------------------------------------------

  datatype Frame = Frame(lines: seq<Line>, rows: nat, cols: nat, cursor: Option<(nat, nat)>)

  datatype Cache = Cache(hashes: seq<u64>, rows: nat, cols: nat)

  const NoCache: Cache := Cache([], 0, 0)

  function Visible(f: Frame): nat {
    Min(|f.lines|, f.rows)
  }

  function Texts(f: Frame): (texts: seq<seq<Op>>)
    ensures |texts| == Visible(f)
  {
    seq(Visible(f), i requires 0 <= i < Visible(f) => AnsiRow(f.lines[i]))
  }

  predicate InCache(hash: seq<Op> -> u64, hashes: seq<u64>, r: nat, text: seq<Op>) {
    r < |hashes| && hashes[r] == hash(text)
  }

  /** The rows among the first `n` that are not already on the screen. */
  function Patch(hash: seq<Op> -> u64, hashes: seq<u64>, texts: seq<seq<Op>>, n: nat): seq<Op>
    requires n <= |texts|
  {
    if n == 0 then []
    else Patch(hash, hashes, texts, n - 1) + (if InCache(hash, hashes, n - 1, texts[n - 1]) then [] else RowOps(n - 1, texts[n - 1]))
  }

  /** Blank the rows from `start` to just before `end`. */
  function Erase(start: nat, end: nat): seq<Op>
    decreases end
  {
    if end <= start then [] else Erase(start, end - 1) + [Goto(end, 1), EraseLine]
  }

  function Cursor(f: Frame): seq<Op> {
    match f.cursor case Some(at) => [Goto(at.0, at.1)] case None => []
  }

  function Resized(c: Cache, f: Frame): bool {
    f.rows != c.rows || f.cols != c.cols
  }

  function Kept(c: Cache, f: Frame): seq<u64> {
    if Resized(c, f) then [] else c.hashes
  }

  function Output(hash: seq<Op> -> u64, c: Cache, f: Frame): seq<Op> {
    (if Resized(c, f) then [Clear] else [])
    + Patch(hash, Kept(c, f), Texts(f), Visible(f))
    + Erase(Visible(f), |Kept(c, f)|)
    + Cursor(f)
  }

  function Hashes(hash: seq<Op> -> u64, texts: seq<seq<Op>>): (hashes: seq<u64>)
    ensures |hashes| == |texts|
  {
    seq(|texts|, i requires 0 <= i < |texts| => hash(texts[i]))
  }

  function Rendered(hash: seq<Op> -> u64, f: Frame): Cache {
    Cache(Hashes(hash, Texts(f)), f.rows, f.cols)
  }

  /** Clear the screen and write the whole frame: what the renderer's output must look like. */
  function Draw(texts: seq<seq<Op>>, n: nat): seq<Op>
    requires n <= |texts|
  {
    if n == 0 then [] else Draw(texts, n - 1) + RowOps(n - 1, texts[n - 1])
  }

  function FullRepaint(f: Frame): seq<Op> {
    [Clear] + Draw(Texts(f), Visible(f)) + Cursor(f)
  }

  predicate FrameFits(f: Frame) {
    forall i :: 0 <= i < Visible(f) ==> Width(f.lines[i]) <= f.cols
  }

  // ---------------------------------------------------------------------------
  // What each piece of output draws
  // ---------------------------------------------------------------------------

  /** A blank screen with these texts on its first rows. */
  predicate Showing(s: Screen, texts: seq<seq<Op>>) {
    && Shaped(s) && s.pen == NoPen && |texts| <= s.rows
    && (forall r :: 0 <= r < |texts| ==> Fits(texts[r], s.cols) && s.cells[r] == Shown(texts[r], s.cols))
    && (forall r :: |texts| <= r < s.rows ==> s.cells[r] == BlankRow(s.cols))
  }

  /** Two screens that show the same texts show the same cells. */
  lemma ShowingIsUnique(s: Screen, t: Screen, texts: seq<seq<Op>>)
    ensures Showing(s, texts) && Showing(t, texts) && s.rows == t.rows && s.cols == t.cols ==>
              s.cells == t.cells && s.pen == t.pen
  {
  }

  lemma TextsFit(f: Frame)
    requires FrameFits(f)
    ensures AllFit(Texts(f), f.cols)
  {
    hide IsText, PenAfter, Cells, AnsiRow, Width;
    forall r | 0 <= r < Visible(f)
      ensures Fits(Texts(f)[r], f.cols)
    {
      RowsAreText(f.lines[r]);
      RowWidth(f.lines[r]);
    }
  }

  /** Every text the cache stands for, row by row. */
  ghost predicate Backed(hash: seq<Op> -> u64, hashes: seq<u64>, shown: seq<seq<Op>>) {
    |hashes| == |shown| && forall r :: 0 <= r < |shown| ==> hashes[r] == hash(shown[r])
  }

  predicate AllFit(texts: seq<seq<Op>>, cols: nat) {
    forall r :: 0 <= r < |texts| ==> Fits(texts[r], cols)
  }

  /** No row of the second list that looks different from the first's has its hash. */
  predicate NoCollision(hash: seq<Op> -> u64, shown: seq<seq<Op>>, texts: seq<seq<Op>>, cols: nat)
    requires AllFit(shown, cols) && AllFit(texts, cols)
  {
    forall r :: 0 <= r < |shown| && r < |texts| && hash(shown[r]) == hash(texts[r]) ==>
      (assert Fits(shown[r], cols) && Fits(texts[r], cols); Shown(shown[r], cols) == Shown(texts[r], cols))
  }

  /** The rows above `n` are new and the rest are as they were. */
  predicate Mixed(s: Screen, d: Screen, texts: seq<seq<Op>>, n: nat)
    requires n <= |texts|
  {
    && Shaped(d) && d.pen == NoPen && d.rows == s.rows && d.cols == s.cols && n <= d.rows && Shaped(s)
    && (forall r :: 0 <= r < n ==> Fits(texts[r], d.cols) && d.cells[r] == Shown(texts[r], d.cols))
    && (forall r :: n <= r < d.rows ==> d.cells[r] == s.cells[r])
  }

  /** The rows above `n` are new, or as they were where the cache had their hash. */
  predicate Patched(hash: seq<Op> -> u64, hashes: seq<u64>, s: Screen, d: Screen, texts: seq<seq<Op>>, n: nat)
    requires n <= |texts|
  {
    && Shaped(d) && d.pen == NoPen && d.rows == s.rows && d.cols == s.cols && n <= d.rows && Shaped(s)
    && (forall r :: 0 <= r < n ==> Fits(texts[r], d.cols))
    && (forall r :: 0 <= r < n ==> (d.cells[r] == if InCache(hash, hashes, r, texts[r]) then s.cells[r] else Shown(texts[r], d.cols)))
    && (forall r :: n <= r < d.rows ==> d.cells[r] == s.cells[r])
  }

  lemma {:induction false} PatchDraws(hash: seq<Op> -> u64, hashes: seq<u64>, texts: seq<seq<Op>>, n: nat, s: Screen)
    requires Shaped(s) && s.pen == NoPen
    requires n <= |texts| <= s.rows && forall r :: 0 <= r < |texts| ==> Fits(texts[r], s.cols)
    ensures Patched(hash, hashes, s, Feed(s, Patch(hash, hashes, texts, n)), texts, n)
  {
    hide Fits, Shown, Feed, RowOps, InCache;
    if n == 0 {
      FeedNothing(s);
    } else {
      PatchDraws(hash, hashes, texts, n - 1, s);
      var before := Patch(hash, hashes, texts, n - 1);
      if InCache(hash, hashes, n - 1, texts[n - 1]) {
        assert before + [] == before;
      } else {
        FeedConcat(s, before, RowOps(n - 1, texts[n - 1]));
        RowIsDrawn(Feed(s, before), n - 1, texts[n - 1]);
      }
    }
  }

  lemma {:induction false} DrawDraws(texts: seq<seq<Op>>, n: nat, s: Screen)
    requires Shaped(s) && s.pen == NoPen
    requires n <= |texts| <= s.rows && forall r :: 0 <= r < |texts| ==> Fits(texts[r], s.cols)
    ensures Mixed(s, Feed(s, Draw(texts, n)), texts, n)
  {
    hide Fits, Shown, Feed, RowOps;
    if n == 0 {
      FeedNothing(s);
    } else {
      DrawDraws(texts, n - 1, s);
      FeedConcat(s, Draw(texts, n - 1), RowOps(n - 1, texts[n - 1]));
      RowIsDrawn(Feed(s, Draw(texts, n - 1)), n - 1, texts[n - 1]);
    }
  }

  /** Rows `start` to just before `end` are blank and the rest are as they were. */
  predicate Blanked(s: Screen, d: Screen, start: nat, end: nat) {
    && Shaped(d) && d.pen == s.pen && d.rows == s.rows && d.cols == s.cols && Shaped(s)
    && (forall r :: start <= r < end && r < d.rows ==> d.cells[r] == BlankRow(d.cols))
    && (forall r :: 0 <= r < d.rows && !(start <= r < end) ==> d.cells[r] == s.cells[r])
  }

  lemma EraseOne(s: Screen, r: nat)
    requires Shaped(s) && r < s.rows && s.pen == NoPen
    ensures Blanked(s, Feed(s, [Goto(r + 1, 1), EraseLine]), r, r + 1)
  {
    FeedAppend(s, [], Goto(r + 1, 1));
    FeedAppend(s, [Goto(r + 1, 1)], EraseLine);
    FeedNothing(s);
    assert [] + [Goto(r + 1, 1)] == [Goto(r + 1, 1)];
    assert [Goto(r + 1, 1)] + [EraseLine] == [Goto(r + 1, 1), EraseLine];
    assert s.cells[r][..0] + BlankRow(s.cols) == BlankRow(s.cols);
  }

  lemma {:induction false} EraseBlanks(s: Screen, start: nat, end: nat)
    requires Shaped(s) && end <= s.rows && s.pen == NoPen
    ensures Blanked(s, Feed(s, Erase(start, end)), start, end)
    decreases end
  {
    hide Feed;
    if end <= start {
      FeedNothing(s);
    } else {
      EraseBlanks(s, start, end - 1);
      FeedConcat(s, Erase(start, end - 1), [Goto(end, 1), EraseLine]);
      EraseOne(Feed(s, Erase(start, end - 1)), end - 1);
    }
  }

  /** Placing the cursor changes nothing else. */
  lemma CursorMoves(s: Screen, f: Frame)
    ensures var d := Feed(s, Cursor(f));
            && d.cells == s.cells && d.pen == s.pen && d.rows == s.rows && d.cols == s.cols
            && (f.cursor.Some? ==> d.row == Place(f.cursor.value.0, s.rows) && d.col == Place(f.cursor.value.1, s.cols))
  {
    FeedNothing(s);
    if f.cursor.Some? {
      FeedAppend(s, [], Goto(f.cursor.value.0, f.cursor.value.1));
      assert [] + Cursor(f) == Cursor(f);
    }
  }

  lemma ClearBlanks(s: Screen)
    requires Shaped(s) && s.pen == NoPen
    ensures Showing(Feed(s, [Clear]), [])
    ensures Feed(s, [Clear]).rows == s.rows && Feed(s, [Clear]).cols == s.cols
  {
    FeedAppend(s, [], Clear);
    FeedNothing(s);
    assert [] + [Clear] == [Clear];
  }

  // ---------------------------------------------------------------------------
  // The renderer is right
  // ---------------------------------------------------------------------------

  /** The screen a full repaint leaves. */
  lemma FullRepaintShows(f: Frame, s: Screen)
    requires Shaped(s) && s.pen == NoPen && s.rows == f.rows && s.cols == f.cols && FrameFits(f)
    ensures Showing(Feed(s, FullRepaint(f)), Texts(f))
    ensures f.cursor.Some? ==> Feed(s, FullRepaint(f)).row == Place(f.cursor.value.0, f.rows)
                               && Feed(s, FullRepaint(f)).col == Place(f.cursor.value.1, f.cols)
    ensures Feed(s, FullRepaint(f)).rows == f.rows && Feed(s, FullRepaint(f)).cols == f.cols
  {
    hide Fits, Shown, Feed, Texts, Cursor, Draw;
    TextsFit(f);
    ClearBlanks(s);
    var cleared := Feed(s, [Clear]);
    DrawDraws(Texts(f), Visible(f), cleared);
    FeedConcat(s, [Clear], Draw(Texts(f), Visible(f)));
    FeedConcat(s, [Clear] + Draw(Texts(f), Visible(f)), Cursor(f));
    CursorMoves(Feed(s, [Clear] + Draw(Texts(f), Visible(f))), f);
  }

  lemma PatchAndErase(hash: seq<Op> -> u64, hashes: seq<u64>, shown: seq<seq<Op>>, f: Frame, s: Screen)
    requires Showing(s, shown) && Backed(hash, hashes, shown)
    requires s.rows == f.rows && s.cols == f.cols && FrameFits(f)
    ensures AllFit(shown, f.cols) && AllFit(Texts(f), f.cols)
    ensures var d := Feed(s, Patch(hash, hashes, Texts(f), Visible(f)) + Erase(Visible(f), |hashes|));
            && d.rows == f.rows && d.cols == f.cols
            && (Showing(d, Texts(f)) <==> NoCollision(hash, shown, Texts(f), f.cols))
  {
    hide Fits, Shown, Feed, Texts, Patch, Erase, NoCollision;
    TextsFit(f);
    PatchDraws(hash, hashes, Texts(f), Visible(f), s);
    FeedConcat(s, Patch(hash, hashes, Texts(f), Visible(f)), Erase(Visible(f), |hashes|));
    var d := Feed(s, Patch(hash, hashes, Texts(f), Visible(f)));
    EraseBlanks(d, Visible(f), |hashes|);
    ShowsIff(hash, hashes, shown, Texts(f), s, d, Feed(d, Erase(Visible(f), |hashes|)));
  }

  /** Patching and erasing shows the new texts exactly when no skipped row looks different. */
  lemma ShowsIff(hash: seq<Op> -> u64, hashes: seq<u64>, shown: seq<seq<Op>>, texts: seq<seq<Op>>, s: Screen, d: Screen, e: Screen)
    requires Showing(s, shown) && Backed(hash, hashes, shown) && |texts| <= s.rows
    requires AllFit(shown, s.cols) && AllFit(texts, s.cols)
    requires Patched(hash, hashes, s, d, texts, |texts|) && Blanked(d, e, |texts|, |hashes|)
    ensures Showing(e, texts) <==> NoCollision(hash, shown, texts, s.cols)
  {
    hide Fits, Shown;
    forall r | 0 <= r < |texts|
      ensures e.cells[r] == if InCache(hash, hashes, r, texts[r]) then s.cells[r] else Shown(texts[r], s.cols)
    {
      assert Fits(texts[r], s.cols);
    }
    if Showing(e, texts) {
      forall r | 0 <= r < |shown| && r < |texts| && hash(shown[r]) == hash(texts[r])
        ensures Fits(shown[r], s.cols) && Fits(texts[r], s.cols) && Shown(shown[r], s.cols) == Shown(texts[r], s.cols)
      {
        assert Fits(shown[r], s.cols) && Fits(texts[r], s.cols);
        assert InCache(hash, hashes, r, texts[r]);
      }
    }
  }

  /** What the cache stands for: it describes the screen, row by row. */
  ghost predicate Describes(hash: seq<Op> -> u64, c: Cache, shown: seq<seq<Op>>, s: Screen) {
    Showing(s, shown) && Backed(hash, c.hashes, shown) && s.rows == c.rows && s.cols == c.cols
  }

  /** The terminal a frame is written to: as the cache left it, or of a new size and then
      with anything on it. */
  ghost predicate Ready(hash: seq<Op> -> u64, c: Cache, shown: seq<seq<Op>>, f: Frame, s: Screen) {
    && Shaped(s) && s.pen == NoPen && s.rows == f.rows && s.cols == f.cols
    && (!Resized(c, f) ==> Describes(hash, c, shown, s))
  }

  lemma OutputOf(hash: seq<Op> -> u64, c: Cache, f: Frame, s: Screen)
    ensures var first := if Resized(c, f) then Feed(s, [Clear]) else s;
            Feed(s, Output(hash, c, f)) ==
            Feed(Feed(first, Patch(hash, Kept(c, f), Texts(f), Visible(f)) + Erase(Visible(f), |Kept(c, f)|)), Cursor(f))
  {
    hide Feed, Patch, Erase, Texts, Cursor, Visible;
    var head: seq<Op> := if Resized(c, f) then [Clear] else [];
    var body := Patch(hash, Kept(c, f), Texts(f), Visible(f)) + Erase(Visible(f), |Kept(c, f)|);
    assert Output(hash, c, f) == (head + body) + Cursor(f);
    FeedConcat(s, head + body, Cursor(f));
    FeedConcat(s, head, body);
    FeedNothing(s);
  }

  /** After one frame the screen is what a full repaint would show if and only if no row
      that was skipped looks different from the one on the screen; the cursor, when asked
      for, is where it would be; and the cache then describes the frame. */
  lemma RenderShows(hash: seq<Op> -> u64, c: Cache, shown: seq<seq<Op>>, f: Frame, s: Screen)
    requires Ready(hash, c, shown, f, s) && FrameFits(f)
    ensures var d := Feed(s, Output(hash, c, f));
            d.rows == f.rows && d.cols == f.cols
    ensures AllFit(Texts(f), f.cols) && (!Resized(c, f) ==> AllFit(shown, f.cols))
    ensures var d := Feed(s, Output(hash, c, f));
            Showing(d, Texts(f)) <==> (Resized(c, f) || NoCollision(hash, shown, Texts(f), f.cols))
    ensures f.cursor.Some? ==> Feed(s, Output(hash, c, f)).row == Place(f.cursor.value.0, f.rows)
                               && Feed(s, Output(hash, c, f)).col == Place(f.cursor.value.1, f.cols)
    ensures Backed(hash, Rendered(hash, f).hashes, Texts(f))
  {
    hide Fits, Shown, Feed, Texts, Patch, Erase, Cursor, Output;
    TextsFit(f);
    OutputOf(hash, c, f, s);
    var first := if Resized(c, f) then Feed(s, [Clear]) else s;
    ClearBlanks(s);
    PatchAndErase(hash, Kept(c, f), if Resized(c, f) then [] else shown, f, first);
    var d := Feed(first, Patch(hash, Kept(c, f), Texts(f), Visible(f)) + Erase(Visible(f), |Kept(c, f)|));
    CursorMoves(d, f);
    CellsDecide(d, Feed(d, Cursor(f)), Texts(f));
  }

  lemma CellsDecide(d: Screen, e: Screen, texts: seq<seq<Op>>)
    ensures d.cells == e.cells && d.pen == e.pen && d.rows == e.rows && d.cols == e.cols ==>
              (Showing(d, texts) <==> Showing(e, texts))
  {
  }

  // ---------------------------------------------------------------------------
  // Runs
  // ---------------------------------------------------------------------------

  /** One frame, and what the terminal shows if its size has changed since the last. */
  datatype Turn = Turn(frame: Frame, arrived: Screen)

  predicate ValidTurn(t: Turn) {
    Shaped(t.arrived) && t.arrived.pen == NoPen && t.arrived.rows == t.frame.rows && t.arrived.cols == t.frame.cols
    && FrameFits(t.frame)
  }

  function RunCache(hash: seq<Op> -> u64, turns: seq<Turn>): Cache {
    if turns == [] then NoCache else Rendered(hash, turns[|turns| - 1].frame)
  }

  function RunScreen(hash: seq<Op> -> u64, turns: seq<Turn>): Screen {
    if turns == [] then Screen(0, 0, [], 0, 0, NoPen)
    else
      var front, t := turns[..|turns| - 1], turns[|turns| - 1];
      var c := RunCache(hash, front);
      Feed(if Resized(c, t.frame) then t.arrived else RunScreen(hash, front), Output(hash, c, t.frame))
  }

  function LastTexts(turns: seq<Turn>): seq<seq<Op>> {
    if turns == [] then [] else Texts(turns[|turns| - 1].frame)
  }

  /** Different rows drawn in a run have different hashes. */
  ghost predicate InjectiveOnRows(hash: seq<Op> -> u64, turns: seq<Turn>) {
    forall i, j, r :: 0 <= i < |turns| && 0 <= j < |turns| && 0 <= r < Visible(turns[i].frame) && r < Visible(turns[j].frame)
      && hash(Texts(turns[i].frame)[r]) == hash(Texts(turns[j].frame)[r])
      ==> Texts(turns[i].frame)[r] == Texts(turns[j].frame)[r]
  }

  lemma FrontInjective(hash: seq<Op> -> u64, turns: seq<Turn>)
    requires turns != [] && InjectiveOnRows(hash, turns)
    ensures InjectiveOnRows(hash, turns[..|turns| - 1])
  {
    hide Texts, Visible;
    var front := turns[..|turns| - 1];
    forall i, j, r | 0 <= i < |front| && 0 <= j < |front| && 0 <= r < Visible(front[i].frame) && r < Visible(front[j].frame)
      && hash(Texts(front[i].frame)[r]) == hash(Texts(front[j].frame)[r])
      ensures Texts(front[i].frame)[r] == Texts(front[j].frame)[r]
    {
      assert front[i] == turns[i] && front[j] == turns[j];
    }
  }

  lemma LastCollides(hash: seq<Op> -> u64, turns: seq<Turn>)
    requires |turns| >= 2 && InjectiveOnRows(hash, turns)
    requires forall t :: t in turns ==> ValidTurn(t)
    requires turns[|turns| - 2].frame.cols == turns[|turns| - 1].frame.cols
    ensures var shown, texts, cols := Texts(turns[|turns| - 2].frame), Texts(turns[|turns| - 1].frame), turns[|turns| - 1].frame.cols;
            && AllFit(shown, cols) && AllFit(texts, cols)
            && NoCollision(hash, shown, texts, cols)
  {
    hide Fits, Shown, Texts, Visible;
    assert turns[|turns| - 2] in turns && turns[|turns| - 1] in turns;
    TextsFit(turns[|turns| - 2].frame);
    TextsFit(turns[|turns| - 1].frame);
  }

  /** For any run of frames, sizes and resizes, the screen after the last frame is what
      clearing and drawing that frame alone would show. */
  lemma {:induction false} AlwaysAFullRepaint(hash: seq<Op> -> u64, turns: seq<Turn>)
    requires turns != [] && InjectiveOnRows(hash, turns)
    requires forall t :: t in turns ==> ValidTurn(t)
    ensures var f := turns[|turns| - 1].frame;
            var full := Feed(turns[|turns| - 1].arrived, FullRepaint(f));
            var screen := RunScreen(hash, turns);
            && screen.cells == full.cells && screen.pen == full.pen
            && screen.rows == full.rows && screen.cols == full.cols
            && (f.cursor.Some? ==> screen.row == full.row && screen.col == full.col)
  {
    hide *;
    var t := turns[|turns| - 1];
    ReadyTurn(t);
    RunShows(hash, turns);
    FullRepaintShows(t.frame, t.arrived);
    ShowingIsUnique(RunScreen(hash, turns), Feed(t.arrived, FullRepaint(t.frame)), Texts(t.frame));
  }

  /** And that is the last frame itself: its visible rows from the top, each from the first
      column and blank to the end, and blank rows below; the pen is reset, and the cursor
      where it was asked for. */
  lemma AlwaysShowsTheFrame(hash: seq<Op> -> u64, turns: seq<Turn>)
    requires turns != [] && InjectiveOnRows(hash, turns)
    requires forall t :: t in turns ==> ValidTurn(t)
    ensures var f, s := turns[|turns| - 1].frame, RunScreen(hash, turns);
            && s.rows == f.rows == |s.cells| && s.cols == f.cols && s.pen == NoPen
            && (forall r :: 0 <= r < f.rows ==>
                  && |s.cells[r]| == f.cols
                  && (if r < |f.lines| then
                        && |CellsOfRow(f.lines[r])| <= f.cols
                        && s.cells[r][..|CellsOfRow(f.lines[r])|] == CellsOfRow(f.lines[r])
                        && forall c :: |CellsOfRow(f.lines[r])| <= c < f.cols ==> s.cells[r][c] == Blank
                      else forall c :: 0 <= c < f.cols ==> s.cells[r][c] == Blank))
            && (f.cursor.Some? ==> s.row == Place(f.cursor.value.0, f.rows) && s.col == Place(f.cursor.value.1, f.cols))
  {
    hide Feed, Output, RunScreen, Rendered, AnsiRow, Cells, IsText, PenAfter, CellsOfRow;
    RunShows(hash, turns);
    var f := turns[|turns| - 1].frame;
    forall r | 0 <= r < Visible(f)
      ensures Cells(AnsiRow(f.lines[r])) == CellsOfRow(f.lines[r])
    {
      RowShowsItsSpans(f.lines[r]);
    }
  }

  // ---------------------------------------------------------------------------
  // Which rows are written
  // ---------------------------------------------------------------------------

  predicate AllText(texts: seq<seq<Op>>) {
    forall r :: 0 <= r < |texts| ==> IsText(texts[r])
  }

  /** A row is positioned to, and so written, exactly if its hash is not the stored one. */
  lemma {:induction false} WrittenIff(hash: seq<Op> -> u64, hashes: seq<u64>, texts: seq<seq<Op>>, n: nat, r: nat)
    requires AllText(texts) && n <= |texts| && r < |texts|
    ensures Goto(r + 1, 1) in Patch(hash, hashes, texts, n) <==> r < n && !(r < |hashes| && hashes[r] == hash(texts[r]))
  {
    hide RowOps, IsText;
    if n > 0 {
      WrittenIff(hash, hashes, texts, n - 1, r);
      RowGoesOnce(n - 1, texts[n - 1], r);
    }
  }

  lemma RowGoesOnce(row: nat, text: seq<Op>, r: nat)
    requires IsText(text)
    ensures Goto(r + 1, 1) in RowOps(row, text) <==> r == row
  {
    assert RowOps(row, text)[0] == Goto(row + 1, 1);
    assert forall op :: op in text ==> op.Put? || op.Select?;
  }

  /** The rows skipped are those whose hash is the stored one. */
  lemma {:induction false} SkippedCounts(hash: seq<Op> -> u64, hashes: seq<u64>, texts: seq<seq<Op>>, n: nat)
    requires n <= |texts|
    ensures Skipped(hash, hashes, texts, n) == |set r | 0 <= r < n && r < |hashes| && hashes[r] == hash(texts[r])|
  {
    if n > 0 {
      SkippedCounts(hash, hashes, texts, n - 1);
      var a, b := set r | 0 <= r < n - 1 && r < |hashes| && hashes[r] == hash(texts[r]),
                  set r | 0 <= r < n && r < |hashes| && hashes[r] == hash(texts[r]);
      assert b == a + (if InCache(hash, hashes, n - 1, texts[n - 1]) then {n - 1} else {});
    }
  }

  lemma {:induction false} NothingToPatch(hash: seq<Op> -> u64, texts: seq<seq<Op>>, n: nat)
    requires n <= |texts|
    ensures Patch(hash, Hashes(hash, texts), texts, n) == []
  {
    hide RowOps, Hashes;
    if n > 0 {
      HashIs(hash, texts, n - 1);
      NothingToPatch(hash, texts, n - 1);
    }
  }

  lemma HashIs(hash: seq<Op> -> u64, texts: seq<seq<Op>>, r: nat)
    requires r < |texts|
    ensures |Hashes(hash, texts)| == |texts| && Hashes(hash, texts)[r] == hash(texts[r])
  {
  }

  /** Rendering the frame that is already there writes no row at all. */
  lemma SameFrameWritesNothing(hash: seq<Op> -> u64, f: Frame)
    ensures Output(hash, Rendered(hash, f), f) == if f.cursor.Some? then [Goto(f.cursor.value.0, f.cursor.value.1)] else []
  {
    NothingToPatch(hash, Texts(f), Visible(f));
  }

  lemma ReadyTurn(t: Turn)
    requires ValidTurn(t)
    ensures Shaped(t.arrived) && t.arrived.pen == NoPen && t.arrived.rows == t.frame.rows && t.arrived.cols == t.frame.cols
    ensures FrameFits(t.frame)
  {
  }

  lemma {:induction false} RunShows(hash: seq<Op> -> u64, turns: seq<Turn>)
    requires turns != [] && InjectiveOnRows(hash, turns)
    requires forall t :: t in turns ==> ValidTurn(t)
    ensures var f, screen := turns[|turns| - 1].frame, RunScreen(hash, turns);
            && Showing(screen, Texts(f)) && screen.rows == f.rows && screen.cols == f.cols
            && Backed(hash, RunCache(hash, turns).hashes, Texts(f))
            && (f.cursor.Some? ==> screen.row == Place(f.cursor.value.0, f.rows) && screen.col == Place(f.cursor.value.1, f.cols))
  {
    hide Feed, Output, Showing, Backed, Texts, InjectiveOnRows, ValidTurn, FrameFits, Rendered, NoCollision, Fits;
    var front, t := turns[..|turns| - 1], turns[|turns| - 1];
    var c := RunCache(hash, front);
    assert t in turns;
    ReadyTurn(t);
    var before := if Resized(c, t.frame) then t.arrived else RunScreen(hash, front);
    ShapedIfShowing(RunScreen(hash, front), LastTexts(front));
    if front != [] {
      FrontInjective(hash, turns);
      assert forall u :: u in front ==> u in turns;
      RunShows(hash, front);
      CacheSize(hash, front);
      if !Resized(c, t.frame) {
        assert front[|front| - 1] == turns[|turns| - 2];
        LastCollides(hash, turns);
      }
    } else {
      NothingShown(hash);
    }
    RenderShows(hash, c, LastTexts(front), t.frame, before);
    NothingCollides(hash, t.frame);
  }

  lemma ShapedIfShowing(s: Screen, texts: seq<seq<Op>>)
    ensures Showing(s, texts) ==> Shaped(s) && s.pen == NoPen
  {
  }

  lemma CacheSize(hash: seq<Op> -> u64, turns: seq<Turn>)
    requires turns != []
    ensures RunCache(hash, turns).rows == turns[|turns| - 1].frame.rows
    ensures RunCache(hash, turns).cols == turns[|turns| - 1].frame.cols
  {
  }

  lemma NothingShown(hash: seq<Op> -> u64)
    ensures Showing(Screen(0, 0, [], 0, 0, NoPen), []) && Backed(hash, NoCache.hashes, [])
  {
  }

  lemma NothingCollides(hash: seq<Op> -> u64, f: Frame)
    requires AllFit(Texts(f), f.cols)
    ensures AllFit([], f.cols) && NoCollision(hash, [], Texts(f), f.cols)
  {
  }

  // ---------------------------------------------------------------------------
  // Rows that are too wide
  // ---------------------------------------------------------------------------

  lemma FeedThree(s: Screen, a: Op, b: Op, c: Op)
    ensures Feed(s, [a, b, c]) == Step(Step(Step(s, a), b), c)
  {
    hide *;
    FeedNothing(s);
    FeedAppend(s, [], a);
    FeedAppend(s, [a], b);
    FeedAppend(s, [a, b], c);
    assert [] + [a] == [a] && [a] + [b] == [a, b] && [a, b] + [c] == [a, b, c];
  }

  lemma FeedSix(s: Screen, a: Op, b: Op, c: Op, d: Op, e: Op, f: Op)
    ensures Feed(s, [a, b, c, d, e, f]) == Step(Step(Step(Step(Step(Step(s, a), b), c), d), e), f)
  {
    hide *;
    FeedThree(s, a, b, c);
    FeedThree(Feed(s, [a, b, c]), d, e, f);
    FeedConcat(s, [a, b, c], [d, e, f]);
    assert [a, b, c] + [d, e, f] == [a, b, c, d, e, f];
  }

  const Wide: Line := [Span("cd", Plain)]
  const Under: Line := [Span("b", Plain)]

  lemma WideOps()
    ensures RowOps(0, AnsiRow(Wide)) == [Goto(1, 1), Select(Plain), Put('c'), Put('d'), Select(Plain), EraseLine]
  {
    assert Wide[..0] == [] && Puts("cd") == [Put('c'), Put('d')];
    assert Spans([]) == [];
    assert Spans(Wide) == [] + ([Select(Plain)] + Puts("cd"));
  }

  /** On a screen one column wide the second character of a row lands on the row below. */
  lemma WideSpills(s: Screen)
    requires Shaped(s) && s.rows == 2 && s.cols == 1 && s.pen == NoPen
    ensures var d := Feed(s, RowOps(0, AnsiRow(Wide)));
            Shaped(d) && d.rows == 2 && d.cols == 1 && d.pen == NoPen && d.cells[1] == [Cell('d', NoPen)]
  {
    WideOps();
    FeedSix(s, Goto(1, 1), Select(Plain), Put('c'), Put('d'), Select(Plain), EraseLine);
    var a := Step(Step(Step(s, Goto(1, 1)), Select(Plain)), Put('c'));
    assert a.cells == s.cells[0 := s.cells[0][0 := Cell('c', NoPen)]];
    var b := Step(a, Put('d'));
    assert b.row == 1 && b.col == 1 && b.cells[1] == [Cell('d', NoPen)];
  }

  /** Why the rows must fit: the row below is not written again when it has not changed, so
      what spilled onto it stays, where a full repaint would have drawn over it. */
  lemma TooWideBreaks(hash: seq<Op> -> u64, c: Cache, s: Screen)
    requires Shaped(s) && s.pen == NoPen && s.rows == c.rows == 2 && s.cols == c.cols == 1
    requires |c.hashes| == 2 && c.hashes[0] != hash(AnsiRow(Wide)) && c.hashes[1] == hash(AnsiRow(Under))
    ensures var f := Frame([Wide, Under], 2, 1, None);
            var d, full := Feed(s, Output(hash, c, f)), Feed(s, FullRepaint(f));
            && |d.cells| == |full.cells| == 2
            && d.cells[1] == [Cell('d', NoPen)] && full.cells[1] == [Cell('b', NoPen)]
  {
    hide Feed, RowOps, AnsiRow, Cells, PenAfter, IsText;
    var f := Frame([Wide, Under], 2, 1, None);
    WideOutput(hash, c, f);
    WideSpills(s);
    ClearBlanks(s);
    var cleared := Feed(s, [Clear]);
    WideSpills(cleared);
    RowsAreText(Under);
    UnderCells();
    var spilled := Feed(cleared, RowOps(0, AnsiRow(Wide)));
    RowIsDrawn(spilled, 1, AnsiRow(Under));
    assert Shown(AnsiRow(Under), 1) == [Cell('b', NoPen)];
    FeedConcat(cleared, RowOps(0, AnsiRow(Wide)), RowOps(1, AnsiRow(Under)));
    FeedConcat(s, [Clear], RowOps(0, AnsiRow(Wide)) + RowOps(1, AnsiRow(Under)));
  }

  lemma UnderCells()
    ensures Cells(AnsiRow(Under)) == [Cell('b', NoPen)]
  {
    assert Under[..0] == [] && Puts("b") == [Put('b')] && Spans([]) == [];
    assert Spans(Under) == [Select(Plain), Put('b')];
    CellsOfSelect(Spans(Under), Plain);
    var text := Spans(Under);
    assert text[..1] == [Select(Plain)] && text[..1][..0] == [];
    assert Cells([]) == [] && Cells(text[..1]) == [] && PenAfter(text[..1]) == NoPen;
  }

  lemma WideOutput(hash: seq<Op> -> u64, c: Cache, f: Frame)
    requires f == Frame([Wide, Under], 2, 1, None) && c.rows == 2 && c.cols == 1
    requires |c.hashes| == 2 && c.hashes[0] != hash(AnsiRow(Wide)) && c.hashes[1] == hash(AnsiRow(Under))
    ensures Output(hash, c, f) == RowOps(0, AnsiRow(Wide))
    ensures FullRepaint(f) == [Clear] + (RowOps(0, AnsiRow(Wide)) + RowOps(1, AnsiRow(Under)))
  {
    hide RowOps, AnsiRow;
    var texts := Texts(f);
    assert texts[0] == AnsiRow(Wide) && texts[1] == AnsiRow(Under);
    assert Patch(hash, c.hashes, texts, 0) == [] && Draw(texts, 0) == [];
    assert Patch(hash, c.hashes, texts, 1) == [] + RowOps(0, texts[0]);
    assert Patch(hash, c.hashes, texts, 2) == Patch(hash, c.hashes, texts, 1) + [];
    assert Draw(texts, 1) == [] + RowOps(0, texts[0]);
    assert Draw(texts, 2) == Draw(texts, 1) + RowOps(1, texts[1]);
    assert Erase(2, 2) == [];
  }

  // ---------------------------------------------------------------------------
  // The cache in place
  // ---------------------------------------------------------------------------

  datatype RenderStats = RenderStats(written: nat, skipped: nat, erased: nat, cleared: bool)

  /** Rows among the first `n` that the cache has. */
  function Skipped(hash: seq<Op> -> u64, hashes: seq<u64>, texts: seq<seq<Op>>, n: nat): nat
    requires n <= |texts|
  {
    if n == 0 then 0
    else Skipped(hash, hashes, texts, n - 1) + (if InCache(hash, hashes, n - 1, texts[n - 1]) then 1 else 0)
  }

  class FrameCache {
    const hash: seq<Op> -> u64
    var hashes: seq<u64>
    var rows: nat
    var cols: nat

    ghost function Abstract(): Cache
      reads this
    {
      Cache(hashes, rows, cols)
    }

    constructor (hash: seq<Op> -> u64)
      ensures Abstract() == NoCache && this.hash == hash
    {
      this.hash := hash;
      hashes, rows, cols := [], 0, 0;
    }

    /** Write the visible rows whose hash is not the stored one, storing theirs. */
    method PatchRows(f: Frame) returns (out: seq<Op>, written: nat, skipped: nat)
      modifies this`hashes
      ensures out == Patch(hash, old(hashes), Texts(f), Visible(f))
      ensures written + skipped == Visible(f) && skipped == Skipped(hash, old(hashes), Texts(f), Visible(f))
      ensures |hashes| == Max(Visible(f), |old(hashes)|)
      ensures forall i :: 0 <= i < Visible(f) ==> hashes[i] == hash(Texts(f)[i])
    {
      hide RowOps, AnsiRow;
      ghost var kept := hashes;
      var visible: nat := Min(|f.lines|, f.rows);
      out, written, skipped := [], 0, 0;
      var row: nat := 0;
      while row < visible
        invariant row <= visible && written + skipped == row
        invariant |hashes| == Max(row, |kept|)
        invariant forall i :: 0 <= i < row ==> hashes[i] == hash(Texts(f)[i])
        invariant forall i :: row <= i < |hashes| ==> hashes[i] == kept[i]
        invariant skipped == Skipped(hash, kept, Texts(f), row)
        invariant out == Patch(hash, kept, Texts(f), row)
      {
        var text := AnsiRow(f.lines[row]);
        var h := hash(text);
        if row < |hashes| && hashes[row] == h {
          skipped := skipped + 1;
        } else {
          out := out + RowOps(row, text);
          if |hashes| <= row {
            hashes := hashes + [h];
          } else {
            hashes := hashes[row := h];
          }
          written := written + 1;
        }
        row := row + 1;
      }
    }

    /** Render a frame for a terminal of its size, writing only the rows whose hash changed
        and erasing those a longer frame left behind. */
    method Render(f: Frame) returns (out: seq<Op>, stats: RenderStats)
      modifies this
      ensures out == Output(hash, old(Abstract()), f) && Abstract() == Rendered(hash, f)
      ensures stats.cleared == Resized(old(Abstract()), f)
      ensures stats.written + stats.skipped == Visible(f)
      ensures stats.skipped == Skipped(hash, Kept(old(Abstract()), f), Texts(f), Visible(f))
      ensures stats.erased == Max(|Kept(old(Abstract()), f)| - Visible(f), 0)
    {
      hide Patch, Texts, Skipped, Erase;
      out := [];
      var cleared := false;
      if f.rows != rows || f.cols != cols {
        out := [Clear];
        hashes := [];
        rows, cols := f.rows, f.cols;
        cleared := true;
      }
      ghost var kept := hashes;
      var patch, written, skipped := PatchRows(f);
      var visible: nat := Min(|f.lines|, f.rows);
      var erasing := EraseFrom(visible, |hashes|);
      EraseNothing(visible, |hashes|, |kept|);
      out := out + patch + erasing;
      stats := RenderStats(written, skipped, |hashes| - visible, cleared);
      hashes := hashes[..visible];
      assert hashes == Hashes(hash, Texts(f));
      ghost var before := out;
      if f.cursor.Some? {
        out := out + [Goto(f.cursor.value.0, f.cursor.value.1)];
      }
      assert before + [] == before;
    }
  }

  lemma EraseNothing(visible: nat, stored: nat, kept: nat)
    ensures stored == Max(visible, kept) ==> Erase(visible, stored) == Erase(visible, kept)
  {
  }

  /** Blank the rows a longer frame left behind, from the top. */
  method EraseFrom(start: nat, end: nat) returns (out: seq<Op>)
    requires start <= end
    ensures out == Erase(start, end)
  {
    out := [];
    var row := start;
    while row < end
      invariant start <= row <= end && out == Erase(start, row)
    {
      out := out + [Goto(row + 1, 1), EraseLine];
      row := row + 1;
    }
  }
}
