/** The VGA text console (kernel/src/vga.rs and kernel/src/vga/{print,cursor,buffers}.rs): a 25 by 80
    cell buffer, row-major, with a clamped cursor and a protected first row. */
module Console {
  import opened Words

  const WIDTH: nat := 80
  const HEIGHT: nat := 25
  const CELLS: nat := 2000
  const NEWLINE: byte := 10

  /** A VGAChar: character, foreground and background packed into a u16. */
  type Cell = nat

  type Color = c: nat | c < 16

  /** A byte to print, with its colours. */
  datatype Glyph = Glyph(b: byte, fg: Color, bg: Color)

  function VgaChar(g: Glyph): Cell {
    g.b + g.fg * 0x100 + g.bg * 0x1000
  }

  /** The three fields are recovered from the packed cell, so different glyphs look different. */
  lemma VgaCharFields(g: Glyph)
    ensures var c := VgaChar(g);
            c < 0x1_0000 && c % 0x100 == g.b && c / 0x100 % 0x10 == g.fg && c / 0x1000 == g.bg
  {
  }

  const SPACE: Cell := 0x0F20

  function Blank(n: nat): seq<Cell> {
    seq(n, _ => SPACE)
  }

  // ----- the screen as a value

  /** The cells and the cursor's linear offset, row * 80 + col. */
  datatype Screen = Screen(cells: seq<Cell>, pos: nat)

  predicate Wide(s: Screen) {
    |s.cells| == CELLS && s.pos < CELLS
  }

  /** Everything below row `top` moves up one row and the last row is cleared. */
  function Scroll(cells: seq<Cell>, top: nat): seq<Cell>
    requires |cells| == CELLS && top <= 1
  {
    cells[..top * WIDTH] + cells[(top + 1) * WIDTH..] + Blank(WIDTH)
  }

  function Newline(s: Screen, top: nat): (r: Screen)
    requires Wide(s) && top <= 1
    ensures Wide(r) && (s.pos >= WIDTH ==> r.pos >= WIDTH)
  {
    if s.pos / WIDTH >= HEIGHT - 1 then Screen(Scroll(s.cells, top), (HEIGHT - 1) * WIDTH)
    else Screen(s.cells, (s.pos / WIDTH + 1) * WIDTH)
  }

  /** `write_char` with the buffer available. */
  function Feed(s: Screen, g: Glyph, top: nat): (r: Screen)
    requires Wide(s) && top <= 1
    ensures Wide(r) && (s.pos >= WIDTH ==> r.pos >= WIDTH)
  {
    if g.b == NEWLINE then Newline(s, top)
    else
      var s1 := s.(cells := s.cells[s.pos := VgaChar(g)]);
      if s.pos % WIDTH == WIDTH - 1 then Newline(s1, top) else s1.(pos := s.pos + 1)
  }

  function FeedAll(s: Screen, gs: seq<Glyph>, top: nat): (r: Screen)
    requires Wide(s) && top <= 1
    ensures Wide(r) && (s.pos >= WIDTH ==> r.pos >= WIDTH)
  {
    if gs == [] then s else Feed(FeedAll(s, gs[..|gs| - 1], top), gs[|gs| - 1], top)
  }

  // ----- the unbounded transcript

  /** The transcript as one endless sheet 80 columns wide: a newline pads the current line, every
      other byte adds a cell. */
  function Lay(sheet: seq<Cell>, g: Glyph): seq<Cell> {
    if g.b == NEWLINE then sheet + Blank(WIDTH - |sheet| % WIDTH) else sheet + [VgaChar(g)]
  }

  function Sheet(gs: seq<Glyph>): seq<Cell> {
    if gs == [] then [] else Lay(Sheet(gs[..|gs| - 1]), gs[|gs| - 1])
  }

  /** The first cell of the last 24 lines. */
  function Top(sheet: seq<Cell>): (r: nat)
    ensures r <= |sheet| < r + 24 * WIDTH && r % WIDTH == 0
  {
    if |sheet| / WIDTH <= 23 then 0 else (|sheet| / WIDTH - 23) * WIDTH
  }

  /** Rows 1 to 24 show the last 24 lines of `sheet`, blank-padded, and the cursor is at its end. */
  ghost predicate Shows(s: Screen, sheet: seq<Cell>) {
    && |s.cells| == CELLS && s.pos == WIDTH + |sheet| - Top(sheet)
    && s.cells[WIDTH..] == sheet[Top(sheet)..] + Blank(24 * WIDTH - (|sheet| - Top(sheet)))
  }

  /** A cell added in the middle of a line. */
  lemma ShowsCell(s: Screen, sheet: seq<Cell>, g: Glyph)
    requires Shows(s, sheet) && g.b != NEWLINE && |sheet| % WIDTH != WIDTH - 1
    ensures Shows(Feed(s, g, 1), Lay(sheet, g))
  {
    var sheet' := Lay(sheet, g);
    assert |sheet'| / WIDTH == |sheet| / WIDTH;
    assert s.pos % WIDTH == |sheet| % WIDTH;
    var s' := Feed(s, g, 1);
    assert s'.cells[WIDTH..] == sheet'[Top(sheet')..] + Blank(24 * WIDTH - (|sheet'| - Top(sheet')));
  }

  /** The end of a line: `full` is the sheet up to the line's last cell, already on the screen. */
  lemma ShowsNewline(s: Screen, cells: seq<Cell>, sheet: seq<Cell>, full: seq<Cell>)
    requires |s.cells| == |cells| == CELLS && s.pos == WIDTH + |sheet| - Top(sheet)
    requires |full| == (|sheet| / WIDTH + 1) * WIDTH
    requires cells[WIDTH..] == full[Top(sheet)..] + Blank(24 * WIDTH - (|full| - Top(sheet)))
    ensures Shows(Newline(Screen(cells, s.pos), 1), full)
  {
    var line := |sheet| / WIDTH;
    assert |full| / WIDTH == line + 1;
    var s' := Newline(Screen(cells, s.pos), 1);
    if line < 23 {
      assert Top(full) == Top(sheet) == 0 && s.pos / WIDTH == line + 1;
    } else {
      assert Top(full) == Top(sheet) + WIDTH && s.pos / WIDTH == 24;
      assert |full| - Top(sheet) == 24 * WIDTH;
      assert cells[WIDTH..] == full[Top(sheet)..];
      assert cells[2 * WIDTH..] == cells[WIDTH..][WIDTH..] == full[Top(full)..];
      assert s'.cells[WIDTH..] == cells[2 * WIDTH..] + Blank(WIDTH);
    }
  }

  /** A newline byte pads the line with blanks that are on the screen already. */
  lemma ShowsBreak(s: Screen, sheet: seq<Cell>, g: Glyph)
    requires Shows(s, sheet) && g.b == NEWLINE
    ensures Shows(Feed(s, g, 1), Lay(sheet, g))
  {
    var pad, rest := WIDTH - |sheet| % WIDTH, 24 * WIDTH - (|sheet| - Top(sheet));
    var full := sheet + Blank(pad);
    assert full[Top(sheet)..] == sheet[Top(sheet)..] + Blank(pad);
    assert Blank(rest) == Blank(pad) + Blank(rest - pad);
    ShowsNewline(s, s.cells, sheet, full);
  }

  /** A cell in the last column ends the line. */
  lemma ShowsLastCell(s: Screen, sheet: seq<Cell>, g: Glyph)
    requires Shows(s, sheet) && g.b != NEWLINE && |sheet| % WIDTH == WIDTH - 1
    ensures Shows(Feed(s, g, 1), Lay(sheet, g))
  {
    var rest := 24 * WIDTH - (|sheet| - Top(sheet));
    assert s.pos % WIDTH == |sheet| % WIDTH;
    var full := sheet + [VgaChar(g)];
    var cells := s.cells[s.pos := VgaChar(g)];
    assert full[Top(sheet)..] == sheet[Top(sheet)..] + [VgaChar(g)];
    assert cells[WIDTH..] == full[Top(sheet)..] + Blank(rest - 1);
    ShowsNewline(s, cells, sheet, full);
  }

  lemma FeedKeepsRow0(s: Screen, g: Glyph)
    requires Wide(s) && s.pos >= WIDTH
    ensures Feed(s, g, 1).cells[..WIDTH] == s.cells[..WIDTH]
  {
  }

  lemma ShowsStep(s: Screen, sheet: seq<Cell>, g: Glyph)
    requires Shows(s, sheet)
    ensures Shows(Feed(s, g, 1), Lay(sheet, g))
    ensures Feed(s, g, 1).cells[..WIDTH] == s.cells[..WIDTH]
  {
    FeedKeepsRow0(s, g);
    if g.b == NEWLINE {
      ShowsBreak(s, sheet, g);
    } else if |sheet| % WIDTH == WIDTH - 1 {
      ShowsLastCell(s, sheet, g);
    } else {
      ShowsCell(s, sheet, g);
    }
  }

  /** Console refinement: from a cleared screen, after any bytes in any colours, rows 1 to 24 are the
      last 24 lines of the transcript wrapped at 80 columns, the cursor is at its end, and row 0 is
      untouched. */
  lemma {:induction false} ConsoleRefines(s: Screen, gs: seq<Glyph>)
    requires Shows(s, [])
    ensures Shows(FeedAll(s, gs, 1), Sheet(gs))
    ensures FeedAll(s, gs, 1).cells[..WIDTH] == s.cells[..WIDTH]
  {
    if gs != [] {
      var front := gs[..|gs| - 1];
      ConsoleRefines(s, front);
      ShowsStep(FeedAll(s, front, 1), Sheet(front), gs[|gs| - 1]);
    }
  }

  /** A cleared screen shows the empty transcript. */
  lemma ClearShows()
    ensures Shows(Screen(Blank(CELLS), WIDTH), [])
  {
  }

  // ----- backspace

  /** `delete_prev_char`: from the start of row 1 the erased cell belongs to row 0 and the cursor
      wraps to the bottom. */
  function Erase(s: Screen): (r: Screen)
    requires Wide(s) && s.pos > 0
    ensures Wide(r) && (s.pos >= WIDTH ==> r.pos >= WIDTH)
  {
    Screen(s.cells[s.pos - 1 := SPACE], if s.pos == WIDTH then CELLS - 1 else s.pos - 1)
  }

  function EraseAll(s: Screen, n: nat): (r: Screen)
    requires Wide(s) && s.pos >= WIDTH
    ensures Wide(r) && r.pos >= WIDTH
  {
    if n == 0 then s else Erase(EraseAll(s, n - 1))
  }

  predicate NoNewline(gs: seq<Glyph>) {
    forall i | 0 <= i < |gs| :: gs[i].b != NEWLINE
  }

  function Chars(gs: seq<Glyph>): seq<Cell> {
    seq(|gs|, i requires 0 <= i < |gs| => VgaChar(gs[i]))
  }

  /** How often the screen scrolls while `n` bytes are typed from offset `p`. */
  function Scrolls(p: nat, n: nat): nat {
    if p + n < CELLS then 0 else (p + n - CELLS) / WIDTH + 1
  }

  lemma ScrollsStep(p: nat, n: nat, k: nat)
    requires p < CELLS && k == Scrolls(p, n)
    ensures k * WIDTH <= p + n < CELLS + k * WIDTH && (k > 0 ==> p + n >= CELLS - WIDTH + k * WIDTH)
    ensures Scrolls(p, n + 1) == if p + n + 1 == CELLS + k * WIDTH then k + 1 else k
  {
    if k > 0 {
      var m := p + n - CELLS;
      assert m == m / WIDTH * WIDTH + m % WIDTH;
    }
  }

  /** What stands behind the cursor at `q`: untouched cells, or blanks once the screen has scrolled. */
  function Behind(s: Screen, k: nat, q: nat): seq<Cell>
    requires Wide(s) && q <= CELLS
  {
    if k == 0 then s.cells[q..] else Blank(CELLS - q)
  }

  /** `t` is `s` after the cells from row 1 up to the cursor became `typed` and scrolled up k rows. */
  ghost predicate Typed(s: Screen, t: Screen, k: nat, typed: seq<Cell>) {
    && Wide(s) && Wide(t) && k * WIDTH <= |typed| && t.pos == WIDTH + |typed| - k * WIDTH
    && t.cells[..WIDTH] == s.cells[..WIDTH]
    && t.cells[WIDTH..] == typed[k * WIDTH..] + Behind(s, k, t.pos)
  }

  /** The screen after typing: what was before the cursor, then the typed cells, then whatever the
      screen held behind them or, once it has scrolled, blanks. */
  lemma {:induction false} TypedScreen(s: Screen, gs: seq<Glyph>)
    requires Wide(s) && s.pos >= WIDTH && NoNewline(gs)
    ensures Typed(s, FeedAll(s, gs, 1), Scrolls(s.pos, |gs|), s.cells[WIDTH..s.pos] + Chars(gs))
  {
    if gs == [] {
      assert s.cells[WIDTH..] == s.cells[WIDTH..s.pos] + s.cells[s.pos..];
    } else {
      var n := |gs| - 1;
      var front, g := gs[..n], gs[n];
      TypedScreen(s, front);
      var typed := s.cells[WIDTH..s.pos] + Chars(front);
      assert s.cells[WIDTH..s.pos] + Chars(gs) == typed + [VgaChar(g)];
      var k := Scrolls(s.pos, n);
      ScrollsStep(s.pos, n, k);
      TypeOne(s, FeedAll(s, front, 1), g, k, typed);
    }
  }

  lemma TypeOne(s: Screen, t: Screen, g: Glyph, k: nat, typed: seq<Cell>)
    requires Typed(s, t, k, typed) && t.pos >= WIDTH && g.b != NEWLINE
    ensures Typed(s, Feed(t, g, 1), if t.pos + 1 == CELLS then k + 1 else k, typed + [VgaChar(g)])
  {
    var all := typed + [VgaChar(g)];
    var cells := t.cells[t.pos := VgaChar(g)];
    assert all[k * WIDTH..] == typed[k * WIDTH..] + [VgaChar(g)];
    assert Behind(s, k, t.pos)[1..] == Behind(s, k, t.pos + 1);
    assert cells[WIDTH..] == all[k * WIDTH..] + Behind(s, k, t.pos + 1);
    if t.pos + 1 == CELLS {
      assert cells[WIDTH..] == all[k * WIDTH..];
      assert cells[2 * WIDTH..] == cells[WIDTH..][WIDTH..] == all[(k + 1) * WIDTH..];
      assert Scroll(cells, 1)[WIDTH..] == cells[2 * WIDTH..] + Blank(WIDTH);
    }
  }

  lemma {:induction false} ErasedScreen(s: Screen, n: nat)
    requires Wide(s) && s.pos >= WIDTH + n
    ensures EraseAll(s, n) == Screen(s.cells[..s.pos - n] + Blank(n) + s.cells[s.pos..], s.pos - n)
  {
    if n > 0 {
      ErasedScreen(s, n - 1);
    }
  }

  /** The old screen, k rows higher, with `n` blanks from the old cursor on. */
  function Blanked(s: Screen, k: nat, n: nat): Screen
    requires Wide(s) && WIDTH + k * WIDTH <= s.pos && s.pos - k * WIDTH + n <= CELLS
  {
    var p := s.pos - k * WIDTH;
    Screen(s.cells[..WIDTH] + s.cells[WIDTH + k * WIDTH..s.pos] + Blank(n) + Behind(s, k, p + n), p)
  }

  /** Typing n bytes and then n backspaces, with the start still on screen after k scrolls: the
      cursor is back at the start, k rows higher, every typed cell is blank, and the rest is the old
      screen scrolled k rows; with k = 0 nothing but the typed cells has changed. */
  lemma TypeThenErase(s: Screen, gs: seq<Glyph>)
    requires Wide(s) && s.pos >= WIDTH && NoNewline(gs)
    requires s.pos >= WIDTH + Scrolls(s.pos, |gs|) * WIDTH
    ensures EraseAll(FeedAll(s, gs, 1), |gs|) == Blanked(s, Scrolls(s.pos, |gs|), |gs|)
  {
    TypedScreen(s, gs);
    EraseTyped(s, FeedAll(s, gs, 1), Scrolls(s.pos, |gs|), gs);
  }

  lemma EraseTyped(s: Screen, t: Screen, k: nat, gs: seq<Glyph>)
    requires Wide(s) && s.pos >= WIDTH + k * WIDTH && s.pos - k * WIDTH + |gs| <= CELLS
    requires Typed(s, t, k, s.cells[WIDTH..s.pos] + Chars(gs))
    ensures EraseAll(t, |gs|) == Blanked(s, k, |gs|)
  {
    TypedParts(s, t, k, gs);
    ErasedParts(t, |gs|, s.cells[..WIDTH] + s.cells[WIDTH + k * WIDTH..s.pos], Behind(s, k, t.pos));
  }

  lemma ErasedParts(t: Screen, n: nat, before: seq<Cell>, behind: seq<Cell>)
    requires Wide(t) && t.pos >= WIDTH + n && t.cells[..t.pos - n] == before && t.cells[t.pos..] == behind
    ensures EraseAll(t, n) == Screen(before + Blank(n) + behind, t.pos - n)
  {
    ErasedScreen(t, n);
  }

  lemma TypedParts(s: Screen, t: Screen, k: nat, gs: seq<Glyph>)
    requires Wide(s) && s.pos >= WIDTH + k * WIDTH
    requires Typed(s, t, k, s.cells[WIDTH..s.pos] + Chars(gs))
    ensures t.pos == s.pos - k * WIDTH + |gs|
    ensures t.cells[..t.pos - |gs|] == s.cells[..WIDTH] + s.cells[WIDTH + k * WIDTH..s.pos]
    ensures t.cells[t.pos..] == Behind(s, k, t.pos)
  {
    var typed := s.cells[WIDTH..s.pos] + Chars(gs);
    var kept := s.cells[WIDTH + k * WIDTH..s.pos];
    assert typed[k * WIDTH..] == kept + Chars(gs);
    JoinParts(t.cells, s.cells[..WIDTH], kept, Chars(gs), Behind(s, k, t.pos));
  }

  lemma JoinParts(cells: seq<Cell>, a: seq<Cell>, b: seq<Cell>, c: seq<Cell>, d: seq<Cell>)
    requires |a| == WIDTH <= |cells| && cells[..WIDTH] == a && cells[WIDTH..] == b + c + d
    ensures |cells| == |a| + |b| + |c| + |d|
    ensures cells[..|a| + |b|] == a + b && cells[|a| + |b| + |c|..] == d
  {
    assert cells == a + b + c + d;
  }

  /** Row 0 survives n backspaces exactly when none of them is pressed at the start of row 1, or the
      cell such a backspace clears, the top bar's last, was a space already. */
  lemma {:induction false} BackspaceKeepsTopbarIff(s: Screen, n: nat)
    requires Wide(s) && s.pos >= WIDTH
    ensures var r := EraseAll(s, n);
            r.cells[..WIDTH] == s.cells[..WIDTH] <==> (n <= s.pos - WIDTH || s.cells[WIDTH - 1] == SPACE)
  {
    BackspacesInRow0(s, n);
    var a, b := EraseAll(s, n).cells[..WIDTH], s.cells[..WIDTH];
    assert a[WIDTH - 1] == EraseAll(s, n).cells[WIDTH - 1] && b[WIDTH - 1] == s.cells[WIDTH - 1];
  }

  lemma {:induction false} BackspacesInRow0(s: Screen, n: nat)
    requires Wide(s) && s.pos >= WIDTH
    ensures var r := EraseAll(s, n);
            && (n <= s.pos - WIDTH ==> r.pos == s.pos - n)
            && r.cells[..WIDTH] == if n <= s.pos - WIDTH then s.cells[..WIDTH] else s.cells[..WIDTH - 1] + [SPACE]
  {
    if n > 0 {
      BackspacesInRow0(s, n - 1);
      var q := EraseAll(s, n - 1);
      assert q.cells[..WIDTH - 1] == q.cells[..WIDTH][..WIDTH - 1];
    }
  }

  // ----- the cursor

  datatype Direction = Left | Right | Up | Down

  function Opposite(d: Direction): Direction {
    match d
    case Left => Right
    case Right => Left
    case Up => Down
    case Down => Up
  }

  /** `shift_cursor`: columns wrap; rows wrap too, but going up skips row 0 even where it is allowed. */
  function Shift(row: byte, col: byte, d: Direction, top: nat): (byte, byte)
    requires top <= row < HEIGHT && col < WIDTH && top <= 1
  {
    match d
    case Left => (row, if col == 0 then WIDTH - 1 else col - 1)
    case Right => (row, if col < WIDTH - 1 then col + 1 else 0)
    case Up => (if row <= 1 then HEIGHT - 1 else row - 1, col)
    case Down => (if row < HEIGHT - 1 then row + 1 else top, col)
  }

  /** A shift is undone by the opposite one, except around row 0 where it is allowed. */
  lemma ShiftUndoneIff(row: byte, col: byte, d: Direction, top: nat)
    requires top <= row < HEIGHT && col < WIDTH && top <= 1
    ensures var (r, c) := Shift(row, col, d, top);
            && top <= r < HEIGHT && c < WIDTH
            && (Shift(r, c, Opposite(d), top) == (row, col) <==>
                !(top == 0 && (d, row) in {(Up, 1), (Down, 0)}))
  {
    match d
    case Left =>
    case Right =>
    case Up =>
    case Down =>
  }

  // ----- the top bar

  function Glyphs(text: seq<byte>, fg: Color, bg: Color): (gs: seq<Glyph>)
    ensures |gs| == |text| && forall i | 0 <= i < |text| :: gs[i] == Glyph(text[i], fg, bg)
  {
    seq(|text|, i requires 0 <= i < |text| => Glyph(text[i], fg, bg))
  }

  /** Printing less than a screenful from the top left corner replaces just that many cells. */
  lemma {:induction false} TopbarCells(cells: seq<Cell>, gs: seq<Glyph>)
    requires |cells| == CELLS && NoNewline(gs) && |gs| < CELLS
    ensures FeedAll(Screen(cells, 0), gs, 0) == Screen(Chars(gs) + cells[|gs|..], |gs|)
  {
    if gs != [] {
      var n := |gs| - 1;
      TopbarCells(cells, gs[..n]);
      assert Chars(gs) == Chars(gs[..n]) + [VgaChar(gs[n])];
      TopbarCell(cells, Chars(gs[..n]), gs[n]);
    }
  }

  lemma TopbarText(cells: seq<Cell>, text: seq<byte>)
    requires |cells| == CELLS && |text| <= WIDTH && NEWLINE !in text
    ensures FeedAll(Screen(cells, 0), Glyphs(text, 0, 8), 0).cells == Chars(Glyphs(text, 0, 8)) + cells[|text|..]
  {
    TopbarCells(cells, Glyphs(text, 0, 8));
  }

  lemma TopbarCell(cells: seq<Cell>, done: seq<Cell>, g: Glyph)
    requires |cells| == CELLS && |done| + 1 < CELLS && g.b != NEWLINE
    ensures var n := |done|;
            Feed(Screen(done + cells[n..], n), g, 0) == Screen(done + [VgaChar(g)] + cells[n + 1..], n + 1)
  {
    var n := |done|;
    assert (done + cells[n..])[n := VgaChar(g)] == done + [VgaChar(g)] + cells[n + 1..];
  }

  /** What happens to a running console: a byte is printed, or the top bar is redrawn. */
  datatype Action = Put(g: Glyph) | Redraw(bar: seq<Glyph>)

  function Act(s: Screen, a: Action): (r: Screen)
    requires Wide(s)
    ensures Wide(r)
  {
    match a
    case Put(g) => Feed(s, g, 1)
    case Redraw(bar) => s.(cells := FeedAll(Screen(s.cells, 0), bar, 0).cells)
  }

  function Session(s: Screen, actions: seq<Action>): (r: Screen)
    requires Wide(s)
    ensures Wide(r)
  {
    if actions == [] then s else Act(Session(s, actions[..|actions| - 1]), actions[|actions| - 1])
  }

  /** The bytes printed, without the redraws. */
  function Printed(actions: seq<Action>): seq<Glyph> {
    if actions == [] then []
    else
      var before, last := Printed(actions[..|actions| - 1]), actions[|actions| - 1];
      if last.Put? then before + [last.g] else before
  }

  /** Row 0 as the redraws alone leave it. */
  function Bar(row0: seq<Cell>, actions: seq<Action>): seq<Cell> {
    if actions == [] then row0
    else
      var before, last := Bar(row0, actions[..|actions| - 1]), actions[|actions| - 1];
      if last.Redraw? && |last.bar| <= |before| then Chars(last.bar) + before[|last.bar|..] else before
  }

  predicate BarFits(a: Action) {
    a.Redraw? ==> |a.bar| <= WIDTH && NoNewline(a.bar)
  }

  /** A redraw that fits one line leaves the transcript on the screen and replaces row 0 alone. */
  lemma RedrawStep(s: Screen, sheet: seq<Cell>, bar: seq<Glyph>)
    requires Shows(s, sheet) && BarFits(Redraw(bar))
    ensures Shows(Act(s, Redraw(bar)), sheet)
    ensures Act(s, Redraw(bar)).cells[..WIDTH] == Chars(bar) + s.cells[..WIDTH][|bar|..]
  {
    TopbarCells(s.cells, bar);
    var cells := Act(s, Redraw(bar)).cells;
    assert cells[WIDTH..] == s.cells[WIDTH..];
    assert cells[..WIDTH] == Chars(bar) + s.cells[..WIDTH][|bar|..];
  }

  /** The console over whole sessions: however printing and redraws of the top bar alternate, rows 1
      to 24 and the cursor follow the printed bytes alone, and row 0 follows the redraws alone. */
  lemma {:induction false} SessionRefines(s: Screen, actions: seq<Action>)
    requires Shows(s, []) && forall i | 0 <= i < |actions| :: BarFits(actions[i])
    ensures Shows(Session(s, actions), Sheet(Printed(actions)))
    ensures Session(s, actions).cells[..WIDTH] == Bar(s.cells[..WIDTH], actions)
  {
    if actions != [] {
      var n := |actions| - 1;
      var before, t := Printed(actions[..n]), Session(s, actions[..n]);
      SessionRefines(s, actions[..n]);
      assert BarFits(actions[n]);
      match actions[n] {
        case Put(g) =>
          ShowsStep(t, Sheet(before), g);
          assert (before + [g])[..|before|] == before;
        case Redraw(bar) =>
          RedrawStep(t, Sheet(before), bar);
      }
    }
  }

  // ----- the buffer in memory

  /** The bytes of `text` that move the cursor while the buffer is held. */
  function Visible(text: seq<byte>): nat {
    if text == [] then 0
    else Visible(text[..|text| - 1]) + if text[|text| - 1] == NEWLINE then 0 else 1
  }

  /** BUFFER, BUFFER_HELD, ALLOW_ROW_0 and CURSOR. */
  class TextConsole {
    const cells: array<Cell>
    var held: bool
    var allowRow0: bool
    var row: byte
    var col: byte

    ghost predicate InBounds()
      reads this
    {
      cells.Length == CELLS && row < HEIGHT && col < WIDTH
    }

    function TopRow(): nat
      reads this
    {
      if allowRow0 then 0 else 1
    }

    ghost predicate Valid()
      reads this
    {
      InBounds() && TopRow() <= row
    }

    ghost function Shown(): (s: Screen)
      requires InBounds()
      reads this, cells
      ensures Wide(s)
    {
      Screen(cells[..], row * WIDTH + col)
    }

    constructor ()
      ensures fresh(cells) && InBounds() && !held && !allowRow0
      ensures Shown() == Screen(Blank(CELLS), 0)
    {
      cells := new Cell[CELLS](_ => SPACE);
      held, allowRow0, row, col := false, false, 0, 0;
    }

    /** clamp_row_col: each coordinate moves to the nearest permitted value. */
    method ClampRowCol()
      requires cells.Length == CELLS
      modifies this`row, this`col
      ensures Valid()
      ensures row == if old(row) < TopRow() then TopRow() else Min(old(row), HEIGHT - 1)
      ensures col == Min(old(col), WIDTH - 1)
    {
      row := if allowRow0 then Min(row, HEIGHT - 1) else Max(1, Min(row, HEIGHT - 1));
      col := Min(col, WIDTH - 1);
    }

    method SetRow(r: byte)
      requires cells.Length == CELLS
      modifies this`row, this`col
      ensures Valid()
      ensures row == if r < TopRow() then TopRow() else Min(r, HEIGHT - 1)
      ensures col == Min(old(col), WIDTH - 1)
    {
      row := r;
      ClampRowCol();
    }

    method SetCol(c: byte)
      requires cells.Length == CELLS
      modifies this`row, this`col
      ensures Valid()
      ensures row == if old(row) < TopRow() then TopRow() else Min(old(row), HEIGHT - 1)
      ensures col == Min(c, WIDTH - 1)
    {
      col := c;
      ClampRowCol();
    }

    method ShiftCursor(d: Direction)
      requires Valid()
      modifies this`row, this`col
      ensures Valid() && (row, col) == Shift(old(row), old(col), d, TopRow())
    {
      match d
      case Left =>
        SetCol(if col == 0 then WIDTH - 1 else col - 1);
      case Right =>
        SetCol(if col < WIDTH - 1 then col + 1 else 0);
      case Up =>
        SetRow(if row == 1 then HEIGHT - 1 else (row as int - 1) % 256);
      case Down =>
        SetRow(if row < HEIGHT - 1 then row + 1 else 0);
    }

    /** The two loops of newline: rows move up one, the last is cleared. */
    method ScrollUp()
      requires cells.Length == CELLS
      modifies cells
      ensures cells[..] == Scroll(old(cells[..]), TopRow())
    {
      var top, r := TopRow(), TopRow();
      while r < HEIGHT - 1
        invariant top <= r <= HEIGHT - 1
        invariant forall i | 0 <= i < CELLS ::
            cells[i] == if top * WIDTH <= i < r * WIDTH then old(cells[i + WIDTH]) else old(cells[i])
      {
        forall c | 0 <= c < WIDTH {
          cells[r * WIDTH + c] := cells[(r + 1) * WIDTH + c];
        }
        r := r + 1;
      }
      var c := 0;
      while c < WIDTH
        invariant c <= WIDTH
        invariant forall i | 0 <= i < CELLS - WIDTH ::
            cells[i] == if top * WIDTH <= i then old(cells[i + WIDTH]) else old(cells[i])
        invariant forall i | CELLS - WIDTH <= i < CELLS - WIDTH + c :: cells[i] == SPACE
      {
        cells[(HEIGHT - 1) * WIDTH + c] := SPACE;
        c := c + 1;
      }
    }

    method NewLine()
      requires Valid()
      modifies this`held, this`row, this`col, cells
      ensures Valid() && held == old(held)
      ensures Shown() == if old(held) then old(Shown()) else Newline(old(Shown()), TopRow())
    {
      if !held {
        held := true;
        var r := row;
        SetCol(0);
        if r >= HEIGHT - 1 {
          ScrollUp();
        } else {
          SetRow(r + 1);
        }
        held := false;
      }
    }

    /** With the buffer held nothing is drawn, yet the cursor moves right up to the last column. */
    method WriteChar(g: Glyph)
      requires Valid()
      modifies this`held, this`row, this`col, cells
      ensures Valid() && held == old(held)
      ensures !held ==> Shown() == Feed(old(Shown()), g, TopRow())
      ensures held ==> cells[..] == old(cells[..]) && row == old(row)
      ensures held ==> col == if g.b == NEWLINE then old(col) else Min(old(col) + 1, WIDTH - 1)
    {
      if g.b == NEWLINE {
        NewLine();
        return;
      }
      var c := col;
      if !held {
        held := true;
        cells[row * WIDTH + c] := VgaChar(g);
        held := false;
      }
      if c >= WIDTH - 1 {
        NewLine();
      } else {
        SetCol(c + 1);
      }
    }

    method WriteStr(text: seq<byte>, fg: Color, bg: Color)
      requires Valid()
      modifies this`held, this`row, this`col, cells
      ensures Valid() && held == old(held)
      ensures !held ==> Shown() == FeedAll(old(Shown()), Glyphs(text, fg, bg), TopRow())
      ensures held ==> cells[..] == old(cells[..]) && row == old(row)
      ensures held ==> col == Min(old(col) + Visible(text), WIDTH - 1)
    {
      ghost var gs := Glyphs(text, fg, bg);
      for i := 0 to |text|
        invariant Valid() && held == old(held)
        invariant !held ==> Shown() == FeedAll(old(Shown()), gs[..i], TopRow())
        invariant held ==> cells[..] == old(cells[..]) && row == old(row)
        invariant held ==> col == Min(old(col) + Visible(text[..i]), WIDTH - 1)
      {
        WriteChar(Glyph(text[i], fg, bg));
        assert gs[..i + 1][..i] == gs[..i] && text[..i + 1][..i] == text[..i];
      }
      assert gs[..|text|] == gs && text[..|text|] == text;
    }

    /** At the very first cell of row 0 the source indexes row -1 and panics. */
    method DeletePrevChar()
      requires Valid() && (row > 0 || col > 0)
      modifies this`held, this`row, this`col, cells
      ensures Valid() && held == old(held)
      ensures Shown() == if old(held) then old(Shown()) else Erase(old(Shown()))
    {
      if !held {
        held := true;
        if col == 0 {
          cells[(row as int - 1) * WIDTH + WIDTH - 1] := SPACE;
          held := false;
          ShiftCursor(Left);
          ShiftCursor(Up);
        } else {
          cells[row * WIDTH + col - 1] := SPACE;
          held := false;
          ShiftCursor(Left);
        }
      }
    }

    /** clear, from any cursor: what follows is the transcript of ConsoleRefines. */
    method Clear()
      requires cells.Length == CELLS
      modifies this`held, this`row, this`col, cells
      ensures Valid() && held == old(held) && row == 1 && col == 0
      ensures if held then cells[..] == old(cells[..]) else Shows(Shown(), [])
      ensures !held ==> cells[..] == Blank(CELLS)
    {
      SetCol(0);
      SetRow(1);
      if !held {
        held := true;
        forall i | 0 <= i < CELLS {
          cells[i] := SPACE;
        }
        held := false;
        assert cells[..] == Blank(CELLS);
        ClearShows();
      }
    }

    /** draw_topbar: `text` is the formatted line. Printing starts at row 0 with row 0 allowed; the
        cursor ends where it was. */
    method DrawTopbar(text: seq<byte>)
      requires Valid() && !allowRow0
      modifies this, cells
      ensures Valid() && held == old(held) && !allowRow0 && row == old(row) && col == old(col)
      ensures held ==> cells[..] == old(cells[..])
      ensures !held && |text| <= WIDTH && NEWLINE !in text ==>
                cells[..] == Chars(Glyphs(text, 0, 8)) + old(cells[..])[|text|..]
      ensures !held ==> cells[..] == FeedAll(Screen(old(cells[..]), 0), Glyphs(text, 0, 8), 0).cells
    {
      var r, c := row, col;
      allowRow0 := true;
      SetRow(0);
      SetCol(0);
      WriteStr(text, 0, 8);
      allowRow0 := false;
      SetRow(r);
      SetCol(c);
      if |text| <= WIDTH && NEWLINE !in text {
        TopbarText(old(cells[..]), text);
      }
    }
  }
}
