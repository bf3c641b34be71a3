/** What a terminal does with each thing the display manager can send it, by the capabilities that
    its handler declares.  Each operation asks for the circumstances in which the terminal
    handler's documentation says what will happen. */
module Terminal {

  const BLANK := ' ' as int

  /** The number of cells in so many rows. */
  function Cells(rows: int, width: int): int {
    rows * width
  }

  lemma CellsNext(rows: int, width: int)
    ensures Cells(rows + 1, width) == Cells(rows, width) + width && Cells(0, width) == 0
  {
  }

  lemma CellsMinus(rows: int, rows2: int, width: int)
    ensures Cells(rows - rows2, width) == Cells(rows, width) - Cells(rows2, width)
  {
  }

  lemma {:induction false} CellsMonotone(rows: int, rows2: int, width: int)
    requires rows <= rows2 && 0 <= width
    ensures Cells(rows, width) <= Cells(rows2, width)
    decreases rows2 - rows
  {
    hide Cells;
    if rows < rows2 {
      CellsNext(rows, width);
      CellsMonotone(rows + 1, rows2, width);
    }
  }

  /** A place is in one row only. */
  lemma CellsUnique(r: int, c: int, r2: int, c2: int, width: int)
    requires 0 <= c < width && 0 <= c2 < width && Cells(r, width) + c == Cells(r2, width) + c2
    ensures r == r2 && c == c2
  {
    hide Cells;
    if r < r2 {
      CellsNext(r, width);
      CellsMonotone(r + 1, r2, width);
    } else if r2 < r {
      CellsNext(r2, width);
      CellsMonotone(r2 + 1, r, width);
    }
  }

  /** The place reached after x steps round a circle of n. */
  function Round(x: int, n: nat): int
    requires 0 < n
  {
    x % n
  }

  lemma RoundOnce(x: int, n: nat)
    requires 0 < n
    ensures Round(x + n, n) == Round(x, n) && (0 <= x < n ==> Round(x, n) == x)
  {
    var q, q2 := x / n, (x + n) / n;
    assert x == Cells(q, n) + Round(x, n) && x + n == Cells(q2, n) + Round(x + n, n);
    CellsNext(q, n);
    CellsUnique(q + 1, Round(x, n), q2, Round(x + n, n), n);
    if 0 <= x < n {
      CellsNext(0, n);
      CellsUnique(q, Round(x, n), 0, x, n);
    }
  }

  /** How a terminal is made to blank more than a few cells of a line: by writing blanks, by erasing so many
      cells, or by clearing to the end of the line. */
  datatype Way = Written | Erased | Cleared

  /** The declared capabilities.  A `has` flag is a command the terminal has; nright is the cost of a
      right arrow, 0 if there is none. */
  datatype Traits = Traits(
    width: nat, height: nat,
    wl: int,        // where a left arrow goes from the first column: 1 is the end of the line above
    cwr: int,       // where a right arrow goes from the last column: 1 is the line below
    pwr: int,       // where a character goes from the last column
    axis: int,      // 1: line addressing, 2: column addressing, 3: both
    hasLeft: bool, nright: nat, hasDown: bool, hasUp: bool, hasCret: bool, hasNl: bool,
    hasErase: bool, hasClreol: bool,  // erasing some characters, and to the end of the line
    lt2: bool, lt3: bool, rt2: bool, rt3: bool)  // so many arrows are shorter than an address
  {
    /** Declarations that hold together. */
    predicate Truthful() {
      && 0 < width <= 255 && 0 < height <= 255
      && 0 <= pwr <= 3 && 0 <= axis <= 3
      && (cwr == 1 ==> pwr == 1 && nright != 0)
      && (lt2 || lt3 ==> hasLeft) && (rt2 || rt3 ==> nright != 0)
    }

    function Way(): Way {
      if hasErase then Erased else if hasClreol then Cleared else Written
    }

    /** The number of cells before row r. */
    function Row(r: int): int {
      Cells(r, width)
    }

    function Size(): int {
      Row(height)
    }

    /** The n cells from x on lie in one row. */
    predicate InRow(x: int, n: int) {
      0 <= x && x + n <= Size() && 0 < width && x % width + n <= width
    }

    lemma RowNext(r: int)
      ensures Row(r + 1) == Row(r) + width && Row(0) == 0
    {
      CellsNext(r, width);
    }

    lemma RowMonotone(r: int, r2: int)
      requires r <= r2
      ensures Row(r) <= Row(r2)
    {
      CellsMonotone(r, r2, width);
    }

    /** A cell lies in one row only. */
    lemma RowUnique(r: int, c: int, r2: int, c2: int)
      requires 0 <= c < width && 0 <= c2 < width && Row(r) + c == Row(r2) + c2
      ensures r == r2 && c == c2
    {
      CellsUnique(r, c, r2, c2, width);
    }

    lemma InScreen(r: int, c: int)
      requires 0 <= r < height && 0 <= c < width
      ensures 0 <= Row(r) && Row(r) + c < Size()
      ensures Row(r) + c == Size() - 1 <==> r == height - 1 && c == width - 1
    {
      hide Cells;
      RowNext(0);
      RowNext(r);
      RowMonotone(0, r);
      RowMonotone(r + 1, height);
      RowNext(height - 1);
      if r < height - 1 {
        RowMonotone(r + 1, height - 1);
      }
    }

    lemma Divided(r: int, c: int)
      requires 0 <= c < width
      ensures (Row(r) + c) / width == r && (Row(r) + c) % width == c
    {
      var x := Row(r) + c;
      var q, m := x / width, x % width;
      assert x == Cells(q, width) + m;
      RowUnique(r, c, q, m);
    }

    lemma RowOf(x: int)
      requires 0 <= x < Size() && 0 < width
      ensures 0 <= x / width < height && 0 <= x % width < width && x == Row(x / width) + x % width
    {
      var q := x / width;
      assert x == Cells(q, width) + x % width;
      hide Cells;
      if q >= height {
        RowMonotone(height, q);
      }
      if q < 0 {
        RowMonotone(q + 1, 0);
        RowNext(q);
        RowNext(0);
      }
    }

    /** The place the manager remembers when it has lost the cursor is far beyond the screen. */
    lemma FarAway()
      ensures Size() + 100 <= (height + 10) * (width + 10)
    {
      assert (height + 10) * (width + 10) == height * width + height * 10 + 10 * width + 100;
    }
  }

  /** A terminal's screen and cursor.  `known` is false when the last character went to the last
      column of a terminal that does not say where its cursor goes then. */
  datatype Tty = Tty(cells: seq<int>, row: int, col: int, known: bool)
  {
    predicate Valid(t: Traits) {
      |cells| == t.Size() && 0 <= row < t.height && 0 <= col < t.width
    }

    function Left(t: Traits): Tty
      requires known && t.hasLeft && (col > 0 || (t.wl == 1 && row > 0))
    {
      if col > 0 then this.(col := col - 1) else this.(row := row - 1, col := t.width - 1)
    }

    function Right(t: Traits): Tty
      requires known && t.nright != 0 && (col < t.width - 1 || (t.cwr == 1 && row < t.height - 1))
    {
      if col < t.width - 1 then this.(col := col + 1) else this.(row := row + 1, col := 0)
    }

    function Up(t: Traits): Tty
      requires known && t.hasUp && row > 0
    {
      this.(row := row - 1)
    }

    function Down(t: Traits): Tty
      requires known && t.hasDown && row < t.height - 1
    {
      this.(row := row + 1)
    }

    function Return(t: Traits): Tty
      requires known && t.hasCret
    {
      this.(col := 0)
    }

    function Newline(t: Traits): Tty
      requires known && t.hasNl && row < t.height - 1
    {
      this.(row := row + 1, col := 0)
    }

    function Home(): Tty {
      this.(row := 0, col := 0, known := true)
    }

    function Address(t: Traits, r: int, c: int): Tty
      requires 0 <= r < t.height && 0 <= c < t.width
    {
      this.(row := r, col := c, known := true)
    }

    function AddressLine(t: Traits, r: int): Tty
      requires known && (t.axis == 1 || t.axis == 3) && 0 <= r < t.height
    {
      this.(row := r)
    }

    function AddressColumn(t: Traits, c: int): Tty
      requires known && t.axis >= 2 && 0 <= c < t.width
    {
      this.(col := c)
    }

    /** Shows a character at the cursor.  At the bottom right corner a terminal that moves on to the
        next line, or does not say what it does, must not be asked to. */
    function Show(t: Traits, chr: int): Tty
      requires Valid(t) && known && 0 <= t.pwr <= 3
      requires row == t.height - 1 && col == t.width - 1 ==> t.pwr >= 2
    {
      t.InScreen(row, col);
      var shown := this.(cells := cells[t.Row(row) + col := chr]);
      if col < t.width - 1 then shown.(col := col + 1)
      else if t.pwr == 0 then shown.(known := false)
      else if t.pwr == 1 then shown.(row := row + 1, col := 0)
      else if t.pwr == 2 then shown.(col := 0)
      else shown
    }

    /** Blanks n cells from the cursor on, within its line. */
    function Erase(t: Traits, n: nat): Tty
      requires Valid(t) && known && t.hasErase && col + n <= t.width
    {
      var at := t.Row(row) + col;
      this.(cells := seq(|cells|, i requires 0 <= i < |cells| => if at <= i < at + n then BLANK else cells[i]))
    }

    /** Blanks the line from the cursor on. */
    function ClearEol(t: Traits): Tty
      requires Valid(t) && known && t.hasClreol
    {
      var at := t.Row(row) + col;
      this.(cells := seq(|cells|, i requires 0 <= i < |cells| => if at <= i < t.Row(row + 1) then BLANK else cells[i]))
    }

    /** The cell under the cursor. */
    function Pos(t: Traits): int {
      t.Row(row) + col
    }

    lemma OnScreen(t: Traits)
      requires Valid(t)
      ensures 0 <= Pos(t) < t.Size()
    {
      t.InScreen(row, col);
    }

    /** Away from the corner, a character that does not lose the cursor moves it one cell on. */
    lemma ShowMoves(t: Traits, chr: int)
      requires Valid(t) && known && 0 <= t.pwr <= 3
      requires Pos(t) < t.Size() - 1 && (col < t.width - 1 || t.pwr == 1)
      ensures 0 <= Pos(t) && (row == t.height - 1 && col == t.width - 1 ==> t.pwr >= 2)
      ensures Show(t, chr).Valid(t) && Show(t, chr).known && Show(t, chr).Pos(t) == Pos(t) + 1
      ensures Show(t, chr).cells == cells[Pos(t) := chr]
    {
      t.InScreen(row, col);
      t.RowNext(row);
    }

    lemma LeftMoves(t: Traits)
      requires Valid(t) && known && t.hasLeft && 0 < Pos(t) && (0 < col || t.wl == 1)
      ensures col == 0 ==> row > 0
      ensures Left(t).Valid(t) && Left(t).known && Left(t).Pos(t) == Pos(t) - 1 && Left(t).cells == cells
    {
      t.RowNext(0);
      t.RowNext(row - 1);
    }

    lemma RightMoves(t: Traits)
      requires Valid(t) && known && t.nright != 0 && Pos(t) < t.Size() - 1 && (col < t.width - 1 || t.cwr == 1)
      ensures col == t.width - 1 ==> row < t.height - 1
      ensures Right(t).Valid(t) && Right(t).known && Right(t).Pos(t) == Pos(t) + 1 && Right(t).cells == cells
    {
      t.InScreen(row, col);
      t.RowNext(row);
    }
  }
}
