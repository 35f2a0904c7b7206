/** The framebuffer console (src/drivers/display/fb_console.rs): escape stripping, cursor, scrolling and glyphs,
    with the pixels always the picture of a character grid. Scrolling is the software path. */
module Console {
  import opened Basics
  import opened Drawing

  const DEFAULT_FG: Pixel := 0xFFFF_FFFF
  const DEFAULT_BG: Pixel := 0xFF00_0000
  const ESC: byte := 0x1B
  const BEL: byte := 0x07
  const BACKSPACE: byte := 0x08
  const NEWLINE: byte := 0x0A
  const RETURN: byte := 0x0D
  const LBRACKET: byte := 0x5B
  const RBRACKET: byte := 0x5D

  // ----- the grid -----

  datatype Cell = Blank | Glyph(code: byte)

  datatype Ansi = Normal | Escape | Csi | Osc

  type Row = seq<Cell>

  /** The text on screen, the cursor, and the state of the escape stripper. */
  datatype Screen = Screen(grid: seq<Row>, col: nat, row: nat, ansi: Ansi)

  function BlankRow(cols: nat): Row
  {
    seq(cols, _ => Blank)
  }

  /** A grid of the given size with the cursor inside. */
  ghost predicate Fits(s: Screen, cols: nat, rows: nat)
  {
    && |s.grid| == rows && (forall r | 0 <= r < rows :: |s.grid[r]| == cols)
    && s.col < cols && s.row < rows
  }

  function SetCell(s: Screen, cell: Cell): Screen
    requires s.row < |s.grid| && s.col < |s.grid[s.row]|
  {
    s.(grid := s.grid[s.row := s.grid[s.row][s.col := cell]])
  }

  /** `newline`: one row down, or everything one row up. */
  function Newline(s: Screen, cols: nat, rows: nat): Screen
    requires rows >= 1 && |s.grid| == rows
  {
    if s.row + 1 < rows then s.(col := 0, row := s.row + 1)
    else s.(grid := s.grid[1..] + [BlankRow(cols)], col := 0, row := rows - 1)
  }

  predicate Printable(b: byte)
  {
    0x20 <= b <= 0x7E
  }

  /** A byte in the Normal state, other than ESC. */
  function Text(s: Screen, cols: nat, rows: nat, b: byte): (t: Screen)
    requires cols >= 1 && rows >= 1 && Fits(s, cols, rows)
    ensures Fits(t, cols, rows) && t.ansi == s.ansi
  {
    if Printable(b) then
      var t := SetCell(s, Glyph(b)).(col := s.col + 1);
      if t.col >= cols then Newline(t, cols, rows) else t
    else if b == NEWLINE then Newline(s, cols, rows)
    else if b == RETURN then s.(col := 0)
    else if b == BACKSPACE then
      SetCell(s.(col := if s.col > 0 then s.col - 1 else 0), Blank)
    else s
  }

  /** The stripper: the next state, and whether the byte is text. */
  function Strip(a: Ansi, b: byte): (Ansi, bool)
  {
    match a
    case Escape => (if b == LBRACKET then Csi else if b == RBRACKET then Osc else if b == ESC then Escape else Normal, false)
    case Csi => (if 0x40 <= b <= 0x7E then Normal else Csi, false)
    case Osc => (if b == BEL then Normal else if b == ESC then Escape else Osc, false)
    case Normal => if b == ESC then (Escape, false) else (Normal, true)
  }

  function WriteByte(s: Screen, cols: nat, rows: nat, b: byte): (t: Screen)
    requires cols >= 1 && rows >= 1 && Fits(s, cols, rows)
    ensures Fits(t, cols, rows)
  {
    var (next, isText) := Strip(s.ansi, b);
    if isText then Text(s, cols, rows, b) else s.(ansi := next)
  }

  function WriteAll(s: Screen, cols: nat, rows: nat, bytes: seq<byte>): (t: Screen)
    requires cols >= 1 && rows >= 1 && Fits(s, cols, rows)
    ensures Fits(t, cols, rows)
    decreases |bytes|
  {
    if bytes == [] then s else WriteAll(WriteByte(s, cols, rows, bytes[0]), cols, rows, bytes[1..])
  }

  /** Writing in two calls is writing at once, even when an escape sequence is cut in two. */
  lemma {:induction false} WriteInParts(s: Screen, cols: nat, rows: nat, a: seq<byte>, b: seq<byte>)
    requires cols >= 1 && rows >= 1 && Fits(s, cols, rows)
    ensures WriteAll(s, cols, rows, a + b) == WriteAll(WriteAll(s, cols, rows, a), cols, rows, b)
    decreases |a|
  {
    if a == [] {
      assert a + b == b;
    } else {
      assert (a + b)[1..] == a[1..] + b;
      WriteInParts(WriteByte(s, cols, rows, a[0]), cols, rows, a[1..], b);
    }
  }

  /** The text left after removing escape sequences, and the state of the stripper afterwards. */
  function Stripped(a: Ansi, bytes: seq<byte>): (Ansi, seq<byte>)
    decreases |bytes|
  {
    if bytes == [] then (a, [])
    else
      var (next, isText) := Strip(a, bytes[0]);
      var (end, rest) := Stripped(next, bytes[1..]);
      (end, (if isText then [bytes[0]] else []) + rest)
  }

  function TextAll(s: Screen, cols: nat, rows: nat, text: seq<byte>): (t: Screen)
    requires cols >= 1 && rows >= 1 && Fits(s, cols, rows)
    ensures Fits(t, cols, rows) && t.ansi == s.ansi
    decreases |text|
  {
    if text == [] then s else TextAll(Text(s, cols, rows, text[0]), cols, rows, text[1..])
  }

  lemma TextIgnoresAnsi(s: Screen, cols: nat, rows: nat, b: byte, a: Ansi)
    requires cols >= 1 && rows >= 1 && Fits(s, cols, rows)
    ensures Fits(s.(ansi := a), cols, rows) && Text(s.(ansi := a), cols, rows, b) == Text(s, cols, rows, b).(ansi := a)
  {
  }

  lemma {:induction false} TextAllIgnoresAnsi(s: Screen, cols: nat, rows: nat, text: seq<byte>, a: Ansi)
    requires cols >= 1 && rows >= 1 && Fits(s, cols, rows)
    ensures Fits(s.(ansi := a), cols, rows)
    ensures TextAll(s.(ansi := a), cols, rows, text) == TextAll(s, cols, rows, text).(ansi := a)
    decreases |text|
  {
    hide Text;
    if text != [] {
      TextIgnoresAnsi(s, cols, rows, text[0], a);
      TextAllIgnoresAnsi(Text(s, cols, rows, text[0]), cols, rows, text[1..], a);
    }
  }

  /** Escape sequences leave no trace: the screen is that of the stripped text alone. */
  lemma {:induction false} EscapesLeaveNoTrace(s: Screen, cols: nat, rows: nat, bytes: seq<byte>)
    requires cols >= 1 && rows >= 1 && Fits(s, cols, rows)
    ensures var (end, text) := Stripped(s.ansi, bytes);
      WriteAll(s, cols, rows, bytes) == TextAll(s, cols, rows, text).(ansi := end)
    decreases |bytes|
  {
    hide Text;
    if bytes != [] {
      var (next, isText) := Strip(s.ansi, bytes[0]);
      var s' := WriteByte(s, cols, rows, bytes[0]);
      var (end, rest) := Stripped(next, bytes[1..]);
      EscapesLeaveNoTrace(s', cols, rows, bytes[1..]);
      if isText {
        assert ([bytes[0]] + rest)[1..] == rest;
      } else {
        TextAllIgnoresAnsi(s, cols, rows, rest, next);
        assert [] + rest == rest;
      }
    }
  }

  // ----- the grid is a window on everything written -----

  /** An endless page: every row written so far, the last one under the cursor. */
  datatype Page = Page(lines: seq<Row>, col: nat)

  ghost predicate GoodPage(p: Page, cols: nat)
  {
    p.lines != [] && p.col < cols && forall r | 0 <= r < |p.lines| :: |p.lines[r]| == cols
  }

  function Last(p: Page): nat
    requires p.lines != []
  {
    |p.lines| - 1
  }

  function PageSet(p: Page, cell: Cell): Page
    requires p.lines != [] && p.col < |p.lines[Last(p)]|
  {
    p.(lines := p.lines[Last(p) := p.lines[Last(p)][p.col := cell]])
  }

  function PageNewline(p: Page, cols: nat): Page
  {
    Page(p.lines + [BlankRow(cols)], 0)
  }

  function PageText(p: Page, cols: nat, b: byte): (q: Page)
    requires cols >= 1 && GoodPage(p, cols)
    ensures GoodPage(q, cols)
  {
    if Printable(b) then
      var q := PageSet(p, Glyph(b)).(col := p.col + 1);
      if q.col >= cols then PageNewline(q, cols) else q
    else if b == NEWLINE then PageNewline(p, cols)
    else if b == RETURN then p.(col := 0)
    else if b == BACKSPACE then PageSet(p.(col := if p.col > 0 then p.col - 1 else 0), Blank)
    else p
  }

  function PageAll(p: Page, cols: nat, text: seq<byte>): (q: Page)
    requires cols >= 1 && GoodPage(p, cols)
    ensures GoodPage(q, cols)
    decreases |text|
  {
    if text == [] then p else PageAll(PageText(p, cols, text[0]), cols, text[1..])
  }

  /** The screen shows the last rows of the page, blank below while the page is short. */
  ghost predicate ShowsEnd(s: Screen, p: Page, cols: nat, rows: nat)
    requires GoodPage(p, cols)
  {
    && Fits(s, cols, rows) && s.col == p.col
    && (if |p.lines| <= rows
        then s.row == |p.lines| - 1 && (forall r | 0 <= r < rows :: s.grid[r] == if r < |p.lines| then p.lines[r] else BlankRow(cols))
        else s.row == rows - 1 && s.grid == p.lines[|p.lines| - rows..])
  }

  lemma NewlineShowsEnd(s: Screen, p: Page, cols: nat, rows: nat)
    requires cols >= 1 && rows >= 1 && GoodPage(p.(col := 0), cols) && ShowsEnd(s.(col := 0), p.(col := 0), cols, rows)
    ensures GoodPage(PageNewline(p, cols), cols) && ShowsEnd(Newline(s, cols, rows), PageNewline(p, cols), cols, rows)
  {
    var q, t := PageNewline(p, cols), Newline(s, cols, rows);
    if |p.lines| >= rows {
      forall r | 0 <= r < rows
        ensures t.grid[r] == q.lines[|q.lines| - rows + r]
      {
        if r < rows - 1 { assert t.grid[r] == s.grid[r + 1]; }
      }
      assert t.grid == q.lines[|q.lines| - rows..];
    }
  }

  lemma ColumnShowsEnd(s: Screen, p: Page, cols: nat, rows: nat, col: nat)
    requires GoodPage(p, cols) && ShowsEnd(s, p, cols, rows) && col < cols
    ensures GoodPage(p.(col := col), cols) && ShowsEnd(s.(col := col), p.(col := col), cols, rows)
  {
  }

  lemma SetShowsEnd(s: Screen, p: Page, cols: nat, rows: nat, cell: Cell)
    requires GoodPage(p, cols) && ShowsEnd(s, p, cols, rows)
    ensures GoodPage(PageSet(p, cell), cols) && ShowsEnd(SetCell(s, cell), PageSet(p, cell), cols, rows)
  {
    var q, t := PageSet(p, cell), SetCell(s, cell);
    if |p.lines| > rows {
      assert s.grid[rows - 1] == p.lines[Last(p)];
      forall r | 0 <= r < rows
        ensures t.grid[r] == q.lines[|q.lines| - rows + r]
      {
        assert s.grid[r] == p.lines[|p.lines| - rows + r];
      }
      assert t.grid == q.lines[|q.lines| - rows..];
    }
  }

  lemma TextShowsEnd(s: Screen, p: Page, cols: nat, rows: nat, b: byte)
    requires cols >= 1 && rows >= 1 && GoodPage(p, cols) && ShowsEnd(s, p, cols, rows)
    ensures ShowsEnd(Text(s, cols, rows, b), PageText(p, cols, b), cols, rows)
  {
    assert Fits(s, cols, rows) && s.col == p.col;
    hide ShowsEnd, Newline, PageNewline;
    ColumnShowsEnd(s, p, cols, rows, 0);
    if Printable(b) {
      GlyphShowsEnd(s, p, cols, rows, b);
    } else if b == NEWLINE {
      NewlineShowsEnd(s, p, cols, rows);
    } else if b == BACKSPACE {
      var col := if s.col > 0 then s.col - 1 else 0;
      ColumnShowsEnd(s, p, cols, rows, col);
      SetShowsEnd(s.(col := col), p.(col := col), cols, rows, Blank);
    }
  }

  lemma GlyphShowsEnd(s: Screen, p: Page, cols: nat, rows: nat, b: byte)
    requires cols >= 1 && rows >= 1 && GoodPage(p, cols) && ShowsEnd(s, p, cols, rows) && Printable(b)
    ensures Fits(s, cols, rows) && ShowsEnd(Text(s, cols, rows, b), PageText(p, cols, b), cols, rows)
  {
    assert Fits(s, cols, rows) && s.col == p.col;
    hide ShowsEnd, Newline, PageNewline;
    SetShowsEnd(s, p, cols, rows, Glyph(b));
    var t, q := SetCell(s, Glyph(b)), PageSet(p, Glyph(b));
    if s.col + 1 >= cols {
      ColumnShowsEnd(t, q, cols, rows, 0);
      assert t.(col := s.col + 1).(col := 0) == t.(col := 0) && q.(col := p.col + 1).(col := 0) == q.(col := 0);
      NewlineShowsEnd(t.(col := s.col + 1), q.(col := p.col + 1), cols, rows);
    } else {
      ColumnShowsEnd(t, q, cols, rows, s.col + 1);
    }
  }

  /** However much is written, the screen shows the end of the page. */
  lemma {:induction false} WindowOnPage(s: Screen, p: Page, cols: nat, rows: nat, text: seq<byte>)
    requires cols >= 1 && rows >= 1 && GoodPage(p, cols) && ShowsEnd(s, p, cols, rows)
    ensures ShowsEnd(TextAll(s, cols, rows, text), PageAll(p, cols, text), cols, rows)
    decreases |text|
  {
    hide Text, PageText;
    assert Fits(s, cols, rows);
    if text != [] {
      TextShowsEnd(s, p, cols, rows, text[0]);
      hide ShowsEnd;
      WindowOnPage(Text(s, cols, rows, text[0]), PageText(p, cols, text[0]), cols, rows, text[1..]);
    }
  }

  /** The row a step of the cursor below the last leads to: the next one, or the last again with all others moved up. */
  ghost predicate NextRow(s: Screen, t: Screen, cols: nat, rows: nat)
  {
    && Fits(t, cols, rows) && t.col == 0
    && if s.row < rows - 1 then t.row == s.row + 1 && t.grid == s.grid
       else t.row == rows - 1
            && (forall r, c | 0 <= r < rows - 1 && 0 <= c < cols && |s.grid| == rows && |s.grid[r + 1]| == cols :: t.grid[r][c] == s.grid[r + 1][c])
            && t.grid[rows - 1] == seq(cols, _ => Blank)
  }

  /** Only the cell under the cursor changed. */
  ghost predicate OneCell(s: Screen, t: Screen, col: nat, cell: Cell, cols: nat, rows: nat)
  {
    && Fits(s, cols, rows) && Fits(t, cols, rows) && t.col == s.col && t.row == s.row
    && forall r, c | 0 <= r < rows && 0 <= c < cols :: t.grid[r][c] == if r == s.row && c == col then cell else s.grid[r][c]
  }

  /** Every byte of text by number: printable, line feed, carriage return, backspace, and all others. */
  lemma TextByNumber(s: Screen, cols: nat, rows: nat, b: byte)
    requires cols >= 1 && rows >= 1 && Fits(s, cols, rows)
    ensures var t := Text(s, cols, rows, b);
      if 0x20 <= b <= 0x7E && s.col + 1 < cols then t.row == s.row && t.col == s.col + 1 && OneCell(s, t.(col := s.col), s.col, Glyph(b), cols, rows)
      else if 0x20 <= b <= 0x7E then NextRow(SetCell(s, Glyph(b)), t, cols, rows)
      else if b == 0x0A then NextRow(s, t, cols, rows)
      else if b == 0x0D then t == s.(col := 0)
      else if b == 0x08 then
        var col := if s.col == 0 then 0 else s.col - 1;
        t.row == s.row && t.col == col && OneCell(s.(col := col), t, col, Blank, cols, rows)
      else t == s
  {
  }

  function Cleared(cols: nat, rows: nat): Screen
  {
    Screen(seq(rows, _ => BlankRow(cols)), 0, 0, Normal)
  }

  /** From a cleared console: the screen shows the end of the stripped text laid out on an endless page. */
  lemma ConsoleShowsText(cols: nat, rows: nat, bytes: seq<byte>)
    requires cols >= 1 && rows >= 1
    ensures var (end, text) := Stripped(Normal, bytes);
      && GoodPage(Page([BlankRow(cols)], 0), cols)
      && ShowsEnd(WriteAll(Cleared(cols, rows), cols, rows, bytes), PageAll(Page([BlankRow(cols)], 0), cols, text), cols, rows)
  {
    var (end, text) := Stripped(Normal, bytes);
    var s, p := Cleared(cols, rows), Page([BlankRow(cols)], 0);
    EscapesLeaveNoTrace(s, cols, rows, bytes);
    WindowOnPage(s, p, cols, rows, text);
  }

  // ----- the pixels are the picture of the grid -----

  class FbConsole {
    const ctx: DrawingContext
    const font: seq<seq<bv8>>
    const cols: nat
    const rows: nat
    const fg: Pixel
    const bg: Pixel
    var col: nat
    var row: nat
    var ansi: Ansi
    ghost var grid: seq<Row>

    ghost predicate Shape()
    {
      && ctx.Valid() && |font| == 128 && (forall i | 0 <= i < 128 :: |font[i]| == FONT_HEIGHT)
      && cols == ctx.width / FONT_WIDTH >= 1 && rows == ctx.height / FONT_HEIGHT >= 1
      && fg == 0xFFFF_FFFF && bg == 0xFF00_0000
    }

    ghost function State(): Screen
      reads this
    {
      Screen(grid, col, row, ansi)
    }

    ghost function CellPixel(cell: Cell, x: nat, y: nat): Pixel
      requires Shape() && x < FONT_WIDTH && y < FONT_HEIGHT
    {
      match cell
      case Blank => bg
      case Glyph(code) => if code < 128 && GlyphBit(font[code][y], x) then fg else bg
    }

    /** What pixel (x, y) must be: its part of the cell it lies in, background outside the grid. */
    ghost function Picture(g: seq<Row>, x: nat, y: nat): Pixel
      requires Shape() && |g| == rows && forall r | 0 <= r < rows :: |g[r]| == cols
    {
      if x / FONT_WIDTH < cols && y / FONT_HEIGHT < rows
      then CellPixel(g[y / FONT_HEIGHT][x / FONT_WIDTH], x % FONT_WIDTH, y % FONT_HEIGHT)
      else bg
    }

    ghost predicate Shown()
      requires Shape() && |grid| == rows && forall r | 0 <= r < rows :: |grid[r]| == cols
      reads this, ctx.buffer
    {
      forall x: nat, y: nat | x < ctx.width && y < ctx.height :: ctx.Pixels(x, y) == Picture(grid, x, y)
    }

    ghost predicate Valid()
      reads this, ctx.buffer
    {
      Shape() && Fits(State(), cols, rows) && Shown()
    }

    /** Eight by sixteen pixels a cell, white on black, the left-most pixel of a glyph in bit 7 of its row. */
    lemma CellOnScreen(c: nat, r: nat, i: nat, j: nat)
      requires Valid() && c < cols && r < rows && i < 8 && j < 16
      ensures 8 * c + i < ctx.width && 16 * r + j < ctx.height
      ensures ctx.Pixels(8 * c + i, 16 * r + j) ==
                match grid[r][c]
                case Blank => 0xFF00_0000
                case Glyph(code) => if code < 128 && font[code][j] & (0x80 >> i) != 0 then 0xFFFF_FFFF else 0xFF00_0000
    {
      hide DrawingContext.Pixels;
      assert (8 * c + i) / 8 == c && (8 * c + i) % 8 == i && (16 * r + j) / 16 == r && (16 * r + j) % 16 == j;
      assert ctx.Pixels(8 * c + i, 16 * r + j) == Picture(grid, 8 * c + i, 16 * r + j);
    }

    constructor (ctx: DrawingContext, font: seq<seq<bv8>>)
      requires ctx.Valid() && |font| == 128 && (forall i | 0 <= i < 128 :: |font[i]| == FONT_HEIGHT)
      requires ctx.width >= FONT_WIDTH && ctx.height >= FONT_HEIGHT
      modifies ctx.buffer
      ensures Valid() && this.ctx == ctx && this.font == font
      ensures State() == Cleared(ctx.width / FONT_WIDTH, ctx.height / FONT_HEIGHT)
      ensures cols == ctx.width / 8 && rows == ctx.height / 16 && col == 0 && row == 0
    {
      this.ctx := ctx;
      this.font := font;
      cols := ctx.width / FONT_WIDTH;
      rows := ctx.height / FONT_HEIGHT;
      fg := DEFAULT_FG;
      bg := DEFAULT_BG;
      col, row, ansi := 0, 0, Normal;
      grid := Cleared(ctx.width / FONT_WIDTH, ctx.height / FONT_HEIGHT).grid;
      new;
      ctx.FillRect(0, 0, ctx.width, ctx.height, DEFAULT_BG);
    }

    lemma ScrollBounds()
      requires Shape()
      ensures var top := (rows - 1) * FONT_HEIGHT;
        && top + FONT_HEIGHT == rows * FONT_HEIGHT <= ctx.height
        && Min(Sum32(0, ctx.width), ctx.width) == ctx.width && Min(Sum32(top, FONT_HEIGHT), ctx.height) == top + FONT_HEIGHT
        && Min(ctx.width, Min(ctx.width - Min(0, ctx.width), ctx.width - Min(0, ctx.width))) == ctx.width
        && Min(top, Min(ctx.height - Min(FONT_HEIGHT, ctx.height), ctx.height - Min(0, ctx.height))) == top
    {
    }

    /** All text rows but the first move one up; the last one is still there too. */
    method ShiftUp()
      requires Shape()
      modifies ctx.buffer
      ensures forall x: nat, y: nat | x < ctx.width && y < ctx.height ::
                if y < (rows - 1) * FONT_HEIGHT then y + FONT_HEIGHT < ctx.height && ctx.Pixels(x, y) == old(ctx.Pixels(x, y + FONT_HEIGHT))
                else ctx.Pixels(x, y) == old(ctx.Pixels(x, y))
    {
      ScrollBounds();
      hide Offset, DrawingContext.Pixels, Picture, Min, Sum32;
      ctx.CopyRegion(0, FONT_HEIGHT, 0, 0, ctx.width, (rows - 1) * FONT_HEIGHT);
    }

    method ClearLastRow()
      requires Shape()
      modifies ctx.buffer
      ensures forall x: nat, y: nat | x < ctx.width && y < ctx.height ::
                ctx.Pixels(x, y) == if (rows - 1) * FONT_HEIGHT <= y < rows * FONT_HEIGHT then bg else old(ctx.Pixels(x, y))
    {
      ScrollBounds();
      hide Offset, DrawingContext.Pixels, Picture, Min, Sum32;
      ctx.FillRect(0, (rows - 1) * FONT_HEIGHT, ctx.width, FONT_HEIGHT, bg);
    }

    /** Everything one row up, a blank row below. */
    method Scroll()
      requires Shape() && |grid| == rows && (forall r | 0 <= r < rows :: |grid[r]| == cols) && Shown()
      modifies `row, `grid, ctx.buffer
      ensures grid == old(grid)[1..] + [BlankRow(cols)] && row == rows - 1
      ensures Shown()
    {
      hide Offset, DrawingContext.Pixels, Picture;
      ShiftUp();
      ClearLastRow();
      row := rows - 1;
      ghost var g := grid;
      grid := grid[1..] + [BlankRow(cols)];
      forall x: nat, y: nat | x < ctx.width && y < ctx.height
        ensures ctx.Pixels(x, y) == Picture(grid, x, y)
      {
        PictureMoves(g, x, y);
      }
    }

    /** The picture of the scrolled grid: the old one a text row lower, background in the last row and below. */
    lemma PictureMoves(g: seq<Row>, x: nat, y: nat)
      requires Shape() && |g| == rows && (forall r | 0 <= r < rows :: |g[r]| == cols) && x < ctx.width && y < ctx.height
      ensures var g' := g[1..] + [BlankRow(cols)];
        |g'| == rows && (forall r | 0 <= r < rows :: |g'[r]| == cols)
        && Picture(g', x, y) == if y < (rows - 1) * FONT_HEIGHT then Picture(g, x, y + FONT_HEIGHT) else bg
      ensures y < (rows - 1) * FONT_HEIGHT ==> y + FONT_HEIGHT < ctx.height
      ensures y >= rows * FONT_HEIGHT ==> Picture(g, x, y) == bg
      ensures (rows - 1) * FONT_HEIGHT + FONT_HEIGHT <= ctx.height
    {
      assert (y + FONT_HEIGHT) / FONT_HEIGHT == y / FONT_HEIGHT + 1 && (y + FONT_HEIGHT) % FONT_HEIGHT == y % FONT_HEIGHT;
    }

    method NewlineHere()
      requires Shape() && |grid| == rows && (forall r | 0 <= r < rows :: |grid[r]| == cols) && row < rows && Shown()
      modifies `col, `row, `grid, ctx.buffer
      ensures State() == Newline(old(State()), cols, rows) && Shown()
    {
      col := 0;
      row := row + 1;
      if row >= rows { Scroll(); }
    }

    /** Draws one cell and records it. */
    method DrawCell(code: byte)
      requires Valid() && code < 128
      modifies `grid, ctx.buffer
      ensures Valid() && State() == SetCell(old(State()), Glyph(code))
    {
      var px, py := col * FONT_WIDTH, row * FONT_HEIGHT;
      ctx.DrawGlyph(px, py, font[code], fg, bg);
      grid := grid[row := grid[row][col := Glyph(code)]];
      forall x: nat, y: nat | x < ctx.width && y < ctx.height
        ensures ctx.Pixels(x, y) == Picture(grid, x, y)
      {
        InCell(x, col, FONT_WIDTH);
        InCell(y, row, FONT_HEIGHT);
      }
    }

    method EraseCell()
      requires Valid()
      modifies `grid, ctx.buffer
      ensures Valid() && State() == SetCell(old(State()), Blank)
    {
      var px, py := col * FONT_WIDTH, row * FONT_HEIGHT;
      ctx.FillRect(px, py, FONT_WIDTH, FONT_HEIGHT, bg);
      grid := grid[row := grid[row][col := Blank]];
      forall x: nat, y: nat | x < ctx.width && y < ctx.height
        ensures ctx.Pixels(x, y) == Picture(grid, x, y)
      {
        InCell(x, col, FONT_WIDTH);
        InCell(y, row, FONT_HEIGHT);
      }
    }

    lemma InCell(x: nat, k: nat, size: nat)
      requires size > 0
      ensures x / size == k <==> k * size <= x < k * size + size
      ensures x / size == k ==> x % size == x - k * size
    {
      var q := x / size;
      assert x == q * size + x % size;
      if q < k {
        assert (q + 1) * size <= k * size;
      } else if q > k {
        assert (k + 1) * size <= q * size;
      }
    }

    /** A byte outside any escape sequence. */
    method WriteText(b: byte)
      requires Valid() && b != ESC
      modifies `col, `row, `grid, ctx.buffer
      ensures Valid() && State() == Text(old(State()), cols, rows, b)
    {
      if Printable(b) {
        DrawCell(b);
        col := col + 1;
        if col >= cols { NewlineHere(); }
      } else if b == NEWLINE {
        NewlineHere();
      } else if b == RETURN {
        col := 0;
      } else if b == BACKSPACE {
        if col > 0 { col := col - 1; }
        EraseCell();
      }
    }

    /** After any bytes the screen is the picture of the grid those bytes make. */
    method Write(bytes: seq<byte>)
      requires Valid()
      modifies this, ctx.buffer
      ensures Valid() && State() == WriteAll(old(State()), cols, rows, bytes)
    {
      ghost var s0 := State();
      assert bytes[0..] == bytes;
      for i := 0 to |bytes|
        invariant Valid()
        invariant WriteAll(State(), cols, rows, bytes[i..]) == WriteAll(s0, cols, rows, bytes)
      {
        var b := bytes[i];
        assert bytes[i..][1..] == bytes[i + 1..];
        match ansi {
          case Escape =>
            if b == LBRACKET {
              ansi := Csi;
            } else if b == RBRACKET {
              ansi := Osc;
            } else if b != ESC {
              ansi := Normal;
            }
          case Csi =>
            if 0x40 <= b <= 0x7E { ansi := Normal; }
          case Osc =>
            if b == BEL {
              ansi := Normal;
            } else if b == ESC {
              ansi := Escape;
            }
          case Normal =>
            if b == ESC {
              ansi := Escape;
            } else {
              WriteText(b);
            }
        }
      }
    }
  }
}
