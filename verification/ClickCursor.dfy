/** Turning a click into arrow keys: which cell the cursor should go to, how many characters lie in
    between, and the bytes that move a line editor there. */
module ClickCursor {
  import opened Outcomes
  import opened Sequences

  const I64_MIN: int := -0x8000_0000_0000_0000
  const I64_MAX: int := 0x7fff_ffff_ffff_ffff
  const MAX_STEPS: int := 4096

  type i64 = x: int | I64_MIN <= x <= I64_MAX

  datatype Cell = Cell(row: i64, col: i64)

  datatype InputSpan = InputSpan(start: Cell, end: Cell)

  /** Whether a cell is the second half of a wide character. */
  type Continuation = (int, int) -> bool

  function Saturate(x: int): i64 {
    if x < I64_MIN then I64_MIN else if x > I64_MAX then I64_MAX else x
  }

  /** Cell::index: saturating in both operations. */
  function Index(c: Cell, columns: i64): i64 {
    Saturate(Saturate(c.row * columns) + c.col)
  }

  /** The cell's place in row-major order, without a width limit. */
  function Place(c: Cell, columns: i64): int {
    c.row * columns + c.col
  }

  predicate Normal(c: Cell, columns: i64) {
    0 <= c.col < columns
  }

  /** The index did not saturate. */
  predicate Exact(c: Cell, columns: i64) {
    I64_MIN <= c.row * columns && Place(c, columns) <= I64_MAX
  }

  lemma IndexIsPlace(c: Cell, columns: i64)
    requires Normal(c, columns) && Exact(c, columns)
    ensures Index(c, columns) == Place(c, columns)
  {
  }

  /** Normal cells are told apart by their places. */
  lemma PlaceInjective(a: Cell, b: Cell, columns: i64)
    requires Normal(a, columns) && Normal(b, columns) && Place(a, columns) == Place(b, columns)
    ensures a == b
  {
    assert (a.row - b.row) * columns == b.col - a.col;
    MulAtLeast(a.row - b.row, columns);
    MulAtLeast(b.row - a.row, columns);
    assert (b.row - a.row) * columns == a.col - b.col;
  }

  lemma MulAtLeast(n: int, m: int)
    requires m >= 0
    ensures n >= 1 ==> n * m >= m
  {
    if n >= 1 {
      assert (n - 1) * m >= 0;
    }
  }

  // ---- target_cell ----

  /** target_cell. */
  function TargetCell(cursor: Cell, click: Cell, columns: i64, span: Option<InputSpan>): Option<Cell> {
    if columns <= 0 then None
    else if span.Some? then
      var (lo, hi) := Ends(span.value, columns);
      if click.row < lo.row || click.row > hi.row then None
      else Unless(cursor, if Index(click, columns) < Index(lo, columns) then lo
                          else if Index(click, columns) > Index(hi, columns) then hi else click)
    else if click.row == cursor.row then Unless(cursor, click)
    else None
  }

  function Unless(cursor: Cell, target: Cell): Option<Cell> {
    if target != cursor then Some(target) else None
  }

  /** The span's ends in order. */
  function Ends(span: InputSpan, columns: i64): (Cell, Cell) {
    if Index(span.start, columns) <= Index(span.end, columns) then (span.start, span.end) else (span.end, span.start)
  }

  // ---- char_steps ----

  /** How many characters lie from place `p` up to place `q`. */
  function Chars(p: int, q: int, columns: i64, wide: Continuation): (n: nat)
    requires columns > 0
    decreases q - p
  {
    if p >= q then 0
    else Chars(p, q - 1, columns, wide) + if wide((q - 1) / columns, (q - 1) % columns) then 0 else 1
  }

  /** The signed character distance, without a cap. */
  function Distance(a: Cell, b: Cell, columns: i64, wide: Continuation): int
    requires columns > 0
  {
    var p, q := Place(a, columns), Place(b, columns);
    if p <= q then Chars(p, q, columns, wide) else 0 - Chars(q, p, columns, wide)
  }

  /** Past the cap every distance counts as 4097. */
  function Cap(d: int): int {
    if d > MAX_STEPS + 1 then MAX_STEPS + 1 else if d < -(MAX_STEPS + 1) then -(MAX_STEPS + 1) else d
  }

  lemma {:induction false} CharsSplit(p: int, m: int, q: int, columns: i64, wide: Continuation)
    requires columns > 0 && p <= m <= q
    ensures Chars(p, q, columns, wide) == Chars(p, m, columns, wide) + Chars(m, q, columns, wide)
    decreases q - m
  {
    if m < q {
      CharsSplit(p, m, q - 1, columns, wide);
    }
  }

  lemma PlaceDivMod(row: int, col: int, columns: int)
    requires 0 <= col < columns
    ensures (row * columns + col) / columns == row && (row * columns + col) % columns == col
  {
    var n := row * columns + col;
    var q, r := n / columns, n % columns;
    assert n == q * columns + r;
    assert (q - row) * columns == col - r;
    assert (row - q) * columns == r - col;
    MulAtLeast(q - row, columns);
    MulAtLeast(row - q, columns);
  }

  /** While the walk is short of its end it has not saturated upwards. */
  lemma WalkBelow(c: Cell, columns: i64, limit: i64)
    requires Normal(c, columns) && Index(c, columns) < limit
    ensures Place(c, columns) < I64_MAX + columns && c.row < I64_MAX
  {
    assert c.row * columns < I64_MAX;
    MulAtLeast(columns, I64_MAX);
  }

  /** The cell after this one. */
  function After(c: Cell, columns: i64): Cell
    requires Normal(c, columns) && c.row < I64_MAX
  {
    if c.col + 1 >= columns then Cell(c.row + 1, 0) else Cell(c.row, c.col + 1)
  }

  lemma AfterIsNext(c: Cell, columns: i64)
    requires Normal(c, columns) && c.row < I64_MAX
    ensures Normal(After(c, columns), columns) && Place(After(c, columns), columns) == Place(c, columns) + 1
  {
    assert (c.row + 1) * columns == c.row * columns + columns;
  }

  lemma CharsNext(start: int, c: Cell, columns: i64, wide: Continuation)
    requires Normal(c, columns) && start <= Place(c, columns)
    ensures Chars(start, Place(c, columns) + 1, columns, wide)
            == Chars(start, Place(c, columns), columns, wide) + if wide(c.row, c.col) then 0 else 1
  {
    PlaceDivMod(c.row, c.col, columns);
  }

  lemma RowsOrdered(p: int, x: int, q: int, y: int, columns: int)
    requires 0 <= x < columns && 0 <= y < columns && p * columns + x <= q * columns + y
    ensures p <= q && p * columns <= q * columns
  {
    assert (p - q) * columns == p * columns - q * columns;
    MulAtLeast(p - q, columns);
    if p <= q {
      MulNonNegative(q - p, columns);
      assert (q - p) * columns == q * columns - p * columns;
    }
  }

  lemma MulNonNegative(n: int, m: int)
    requires n >= 0 && m >= 0
    ensures n * m >= 0
  {
  }

  /** Between exact cells the walk stays exact and ends at its goal. */
  lemma ExactBetween(lo: Cell, c: Cell, hi: Cell, columns: i64)
    requires Normal(lo, columns) && Normal(c, columns) && Normal(hi, columns)
    requires Exact(lo, columns) && Exact(hi, columns) && Place(lo, columns) <= Place(c, columns) <= Place(hi, columns)
    ensures Exact(c, columns) && Index(c, columns) == Place(c, columns) && Index(hi, columns) == Place(hi, columns)
  {
    RowsOrdered(lo.row, lo.col, c.row, c.col, columns);
  }

  /** char_steps: counts the cells that start a character on the way. Cells must have a column of the
      grid; the count is the capped distance whenever neither index saturates. */
  method CharSteps(from: Cell, to: Cell, columns: i64, wide: Continuation) returns (steps: int)
    requires columns > 0 ==> Normal(from, columns) && Normal(to, columns)
    ensures columns <= 0 ==> steps == 0
    ensures columns > 0 && Exact(from, columns) && Exact(to, columns) ==>
            steps == Cap(Distance(from, to, columns, wide))
    ensures columns > 0 && Index(from, columns) == Index(to, columns) ==> steps == 0
    ensures -(MAX_STEPS + 1) <= steps <= MAX_STEPS + 1
  {
    if columns <= 0 {
      return 0;
    }
    var forward := Index(to, columns) >= Index(from, columns);
    var lo, hi := to, from;
    if forward {
      lo, hi := from, to;
    }
    var counted := CountBetween(lo, hi, columns, wide);
    steps := if forward then counted else -counted;
    if Exact(from, columns) && Exact(to, columns) {
      IndexIsPlace(from, columns);
      IndexIsPlace(to, columns);
    }
  }

  /** The loop of char_steps. */
  method CountBetween(lo: Cell, hi: Cell, columns: i64, wide: Continuation) returns (counted: int)
    requires columns > 0 && Normal(lo, columns) && Normal(hi, columns)
    ensures 0 <= counted <= MAX_STEPS + 1
    ensures Index(lo, columns) == Index(hi, columns) ==> counted == 0
    ensures Exact(lo, columns) && Exact(hi, columns) && Place(lo, columns) <= Place(hi, columns) ==>
              counted == Cap(Chars(Place(lo, columns), Place(hi, columns), columns, wide))
  {
    counted := 0;
    var row: i64, col: i64 := lo.row, lo.col;
    var hiIndex := Index(hi, columns);
    ghost var start := Place(lo, columns);
    ghost var exact := Exact(lo, columns) && Exact(hi, columns) && start <= Place(hi, columns);
    while Index(Cell(row, col), columns) < hiIndex && counted <= MAX_STEPS
      invariant Normal(Cell(row, col), columns) && start <= Place(Cell(row, col), columns)
      invariant counted == Chars(start, Place(Cell(row, col), columns), columns, wide)
      invariant 0 <= counted <= MAX_STEPS + 1
      invariant Index(lo, columns) == hiIndex ==> Cell(row, col) == lo && counted == 0
      invariant exact ==> Place(Cell(row, col), columns) <= Place(hi, columns)
      decreases I64_MAX + columns - Place(Cell(row, col), columns)
    {
      ghost var here := Cell(row, col);
      WalkBelow(here, columns, hiIndex);
      AfterIsNext(here, columns);
      CharsNext(start, here, columns, wide);
      if exact {
        ExactBetween(lo, here, hi, columns);
      }
      if !wide(row, col) {
        counted := counted + 1;
      }
      col := col + 1;
      if col >= columns {
        col := 0;
        row := row + 1;
      }
      assert Cell(row, col) == After(here, columns);
    }
    if exact {
      ExactBetween(lo, Cell(row, col), hi, columns);
      CharsSplit(start, Place(Cell(row, col), columns), Place(hi, columns), columns, wide);
      if counted <= MAX_STEPS {
        PlaceInjective(Cell(row, col), hi, columns);
      }
    }
  }

  /** Distances chain. */
  lemma DistanceAdds(a: Cell, b: Cell, c: Cell, columns: i64, wide: Continuation)
    requires columns > 0
    ensures Distance(a, c, columns, wide) == Distance(a, b, columns, wide) + Distance(b, c, columns, wide)
    ensures Distance(b, a, columns, wide) == -Distance(a, b, columns, wide)
  {
    var x, y, z := Place(a, columns), Place(b, columns), Place(c, columns);
    if x <= y <= z {
      CharsSplit(x, y, z, columns, wide);
    } else if x <= z <= y {
      CharsSplit(x, z, y, columns, wide);
    } else if y <= x <= z {
      CharsSplit(y, x, z, columns, wide);
    } else if y <= z <= x {
      CharsSplit(y, z, x, columns, wide);
    } else if z <= x <= y {
      CharsSplit(z, x, y, columns, wide);
    } else {
      CharsSplit(z, y, x, columns, wide);
    }
  }

  /** What char_steps answers, as a function: antisymmetric always, additive below the cap. */
  lemma StepsAntisymmetricAdditive(a: Cell, b: Cell, c: Cell, columns: i64, wide: Continuation)
    requires columns > 0
    ensures Cap(Distance(b, a, columns, wide)) == -Cap(Distance(a, b, columns, wide))
    ensures -MAX_STEPS <= Cap(Distance(a, b, columns, wide)) <= MAX_STEPS
            && -MAX_STEPS <= Cap(Distance(b, c, columns, wide)) <= MAX_STEPS
            ==> Cap(Distance(a, c, columns, wide))
                == Cap(Cap(Distance(a, b, columns, wide)) + Cap(Distance(b, c, columns, wide)))
  {
    DistanceAdds(a, b, c, columns, wide);
  }

  lemma {:induction false} NarrowChars(p: int, n: nat, columns: i64, wide: Continuation)
    requires columns > 0 && forall r, c :: !wide(r, c)
    ensures Chars(p, p + n, columns, wide) == n
  {
    if n > 0 {
      NarrowChars(p, n - 1, columns, wide);
    }
  }

  /** The cell's row begins before the smallest index. */
  predicate StartsBelow(c: Cell, columns: i64) {
    c.row * columns < I64_MIN
  }

  /** Where the walk takes two different cells for one: both at or past the largest index, or in the same
      column of rows that begin below the smallest one, or one of them in such a row and the other that
      many columns above the smallest index. */
  predicate Collapsed(a: Cell, b: Cell, columns: i64) {
    || (Place(a, columns) >= I64_MAX && Place(b, columns) >= I64_MAX)
    || (StartsBelow(a, columns) && StartsBelow(b, columns) && a.col == b.col)
    || (StartsBelow(a, columns) && !StartsBelow(b, columns) && Place(b, columns) == I64_MIN + a.col)
    || (StartsBelow(b, columns) && !StartsBelow(a, columns) && Place(a, columns) == I64_MIN + b.col)
  }

  lemma IndexMeaning(c: Cell, columns: i64)
    requires Normal(c, columns)
    ensures Index(c, columns) ==
            if StartsBelow(c, columns) then I64_MIN + c.col
            else if Place(c, columns) >= I64_MAX then I64_MAX
            else Place(c, columns)
    ensures Place(c, columns) >= I64_MAX ==> !StartsBelow(c, columns)
  {
  }

  /** Two different normal cells share an index exactly when saturation makes them collapse. */
  lemma SaturationHidesDistanceIff(a: Cell, b: Cell, columns: i64)
    requires Normal(a, columns) && Normal(b, columns) && a != b
    ensures Index(a, columns) == Index(b, columns) <==> Collapsed(a, b, columns)
  {
    IndexMeaning(a, columns);
    IndexMeaning(b, columns);
    if Place(a, columns) == Place(b, columns) {
      PlaceInjective(a, b, columns);
    }
  }

  /** The failing case itself: five characters apart, and no step between them. */
  lemma SaturationHidesDistance(wide: Continuation)
    requires forall r, c :: !wide(r, c)
    ensures var a, b := Cell(I64_MAX, 0), Cell(I64_MAX, 5);
            Index(a, 80) == Index(b, 80) && Distance(a, b, 80, wide) == 5
  {
    NarrowChars(I64_MAX * 80, 5, 80, wide);
  }

  // ---- arrow_bytes ----

  type Bytes = seq<bv8>

  const ESC: bv8 := 0x1b

  /** One Right or Left key: `ESC O` in application mode, `ESC [` otherwise, then `C` or `D`. */
  function Arrow(right: bool, application: bool): Bytes {
    [ESC, if application then 0x4f else 0x5b, if right then 0x43 else 0x44]
  }

  function Repeated(key: Bytes, n: nat): Bytes {
    if n == 0 then [] else Repeated(key, n - 1) + key
  }

  function Abs(n: int): nat {
    if n < 0 then -n else n
  }

  predicate Sendable(steps: int) {
    steps != 0 && Abs(steps) <= MAX_STEPS
  }

  /** The keys for a distance, none when it is zero or too far. */
  function ArrowKeys(steps: int, application: bool): Bytes {
    if Sendable(steps) then Repeated(Arrow(steps > 0, application), Abs(steps)) else []
  }

  /** arrow_bytes. */
  method ArrowBytes(steps: i64, application: bool) returns (out: Bytes)
    ensures out == ArrowKeys(steps, application)
    ensures out == [] <==> steps == 0 || Abs(steps) > MAX_STEPS
  {
    // saturating_abs
    var distance := if steps == I64_MIN then I64_MAX else Abs(steps);
    if steps == 0 || distance > MAX_STEPS {
      return [];
    }
    var sequence := Arrow(steps > 0, application);
    out := [];
    for i := 0 to Abs(steps)
      invariant out == Repeated(sequence, i)
    {
      out := out + sequence;
    }
    RepeatedLength(sequence, Abs(steps));
  }

  lemma {:induction false} RepeatedLength(key: Bytes, n: nat)
    ensures |Repeated(key, n)| == n * |key|
  {
    if n > 0 {
      RepeatedLength(key, n - 1);
    }
  }

  /** A line editor with `length` characters, in either key mode, reading keys from `bytes`: the
      position it ends at. Left at the start does nothing; Right at the end is a command, and like
      any other input is not a movement. */
  function Edit(length: nat, application: bool, position: nat, bytes: Bytes): Option<nat>
    decreases |bytes|
  {
    if bytes == [] then Some(position)
    else if |bytes| < 3 then None
    else
      var before := Edit(length, application, position, bytes[..|bytes| - 3]);
      if before.None? then None
      else KeyPress(length, before.value, bytes[|bytes| - 3..], application)
  }

  /** Cursor keys as a terminal sends them: `CSI C` and `CSI D`, or `SS3 C` and `SS3 D` while DECCKM is set. */
  function KeyPress(length: nat, position: nat, key: Bytes, application: bool): Option<nat> {
    if key == [0x1b, if application then 0x4f else 0x5b, 0x44] then Some(if position == 0 then 0 else position - 1)
    else if key == [0x1b, if application then 0x4f else 0x5b, 0x43] && position < length then Some(position + 1)
    else None
  }

  /** The position after `n` moves to one side. */
  function Moved(position: int, right: bool, n: nat): int {
    if right then position + n else position - n
  }

  lemma {:induction false} RepeatedMoves(length: nat, application: bool, right: bool, n: nat, position: nat)
    requires position <= length && 0 <= Moved(position, right, n) <= length
    ensures Edit(length, application, position, Repeated(Arrow(right, application), n))
            == Some(Moved(position, right, n))
  {
    if n > 0 {
      var key := Arrow(right, application);
      var before := Repeated(key, n - 1);
      RepeatedMoves(length, application, right, n - 1, position);
      EditSnoc(length, application, position, before, key);
      KeyMoves(length, Moved(position, right, n - 1), application, right);
    }
  }

  lemma KeyMoves(length: nat, position: nat, application: bool, right: bool)
    requires if right then position < length else position > 0
    ensures KeyPress(length, position, Arrow(right, application), application)
            == Some(if right then position + 1 else position - 1)
  {
    ArrowsDiffer(application);
  }

  lemma EditSnoc(length: nat, application: bool, position: nat, bytes: Bytes, key: Bytes)
    requires |key| == 3
    ensures Edit(length, application, position, bytes + key)
            == var before := Edit(length, application, position, bytes);
               if before.None? then None else KeyPress(length, before.value, key, application)
  {
    Cancel(bytes, key);
  }

  lemma ArrowsDiffer(application: bool)
    ensures Arrow(true, application) != Arrow(false, application)
  {
    assert Arrow(true, application)[2] != Arrow(false, application)[2];
  }

  /** Read back by an editor in the same mode, the keys for a sendable distance move exactly that far. */
  lemma KeysMoveExactly(length: nat, application: bool, position: nat, target: nat)
    requires position <= length && target <= length && Abs(target - position) <= MAX_STEPS
    ensures Edit(length, application, position, ArrowKeys(target - position, application)) == Some(target)
  {
    if target != position {
      RepeatedMoves(length, application, target > position, Abs(target - position), position);
    }
  }

  // ---- from click to cursor ----

  /** A cell inside the span, in row-major order. */
  predicate Within(c: Cell, lo: Cell, hi: Cell, columns: i64) {
    Normal(c, columns) && Place(lo, columns) <= Place(c, columns) <= Place(hi, columns)
  }

  lemma {:induction false} CharsMonotone(p: int, q: int, r: int, columns: i64, wide: Continuation)
    requires columns > 0 && p <= q <= r
    ensures Chars(p, q, columns, wide) <= Chars(p, r, columns, wide)
  {
    CharsSplit(p, q, r, columns, wide);
  }

  /** A target chosen with a span lies on it, is the clicked cell when that lies on it, and is never
      the cursor's own cell. */
  lemma TargetStaysInSpan(cursor: Cell, click: Cell, columns: i64, span: InputSpan)
    requires Normal(click, columns) && Normal(span.start, columns) && Normal(span.end, columns)
    requires Exact(click, columns) && Exact(span.start, columns) && Exact(span.end, columns)
    ensures var target := TargetCell(cursor, click, columns, Some(span));
            var (lo, hi) := Ends(span, columns);
            && Place(lo, columns) <= Place(hi, columns)
            && (target.Some? ==>
                  target.value != cursor && lo.row <= click.row <= hi.row && Within(target.value, lo, hi, columns))
            && (Within(click, lo, hi, columns) ==> target == Unless(cursor, click))
  {
    IndexIsPlace(span.start, columns);
    IndexIsPlace(span.end, columns);
    var (lo, hi) := Ends(span, columns);
    if lo.row <= click.row <= hi.row {
      RowBetween(lo.row, click.row, hi.row, columns);
      ClickIndex(lo, click, hi, columns);
    } else if Within(click, lo, hi, columns) {
      WithinRows(lo, click, hi, columns);
    }
  }

  /** Which cell a click goes to, when an input span is known: none exactly when its row is outside the
      span's rows or the cursor is already there; otherwise no cell of the span is nearer to the click. */
  lemma TargetIsNearest(cursor: Cell, click: Cell, columns: i64, span: InputSpan, other: Cell)
    requires Normal(click, columns) && Normal(span.start, columns) && Normal(span.end, columns)
    requires Exact(click, columns) && Exact(span.start, columns) && Exact(span.end, columns)
    ensures var target := TargetCell(cursor, click, columns, Some(span));
            var (lo, hi) := Ends(span, columns);
            && {lo, hi} == {span.start, span.end}
            && (target.None? <==>
                  || click.row < lo.row || click.row > hi.row
                  || cursor == (if Place(click, columns) < Place(lo, columns) then lo
                                else if Place(click, columns) > Place(hi, columns) then hi else click))
            && (target.Some? && Within(other, lo, hi, columns) ==>
                  Abs(Place(target.value, columns) - Place(click, columns))
                  <= Abs(Place(other, columns) - Place(click, columns)))
  {
    IndexIsPlace(span.start, columns);
    IndexIsPlace(span.end, columns);
    var (lo, hi) := Ends(span, columns);
    if lo.row <= click.row <= hi.row {
      RowBetween(lo.row, click.row, hi.row, columns);
      ClickIndex(lo, click, hi, columns);
    }
  }

  /** Without a span only clicks on the cursor's own row are honoured, and without columns none at all. */
  lemma TargetWithoutSpan(cursor: Cell, click: Cell, columns: i64)
    ensures TargetCell(cursor, click, columns, None)
            == if columns > 0 && click.row == cursor.row && click.col != cursor.col then Some(click) else None
    ensures columns <= 0 ==> forall span :: TargetCell(cursor, click, columns, span).None?
  {
  }

  lemma RowBetween(low: int, row: int, high: int, columns: int)
    requires low <= row <= high && columns > 0
    ensures low * columns <= row * columns <= high * columns
  {
    assert (row - low) * columns >= 0 && (high - row) * columns >= 0;
  }

  lemma WithinRows(lo: Cell, c: Cell, hi: Cell, columns: i64)
    requires Normal(lo, columns) && Normal(hi, columns) && Within(c, lo, hi, columns)
    ensures lo.row <= c.row <= hi.row
  {
    MulAtLeast(lo.row - c.row, columns);
    MulAtLeast(c.row - hi.row, columns);
    assert (lo.row - c.row) * columns == lo.row * columns - c.row * columns;
    assert (c.row - hi.row) * columns == c.row * columns - hi.row * columns;
  }

  /** On the span's rows the click's index compares with the ends as its place does. */
  lemma ClickIndex(lo: Cell, click: Cell, hi: Cell, columns: i64)
    requires Normal(lo, columns) && Normal(click, columns) && Normal(hi, columns)
    requires Exact(lo, columns) && Exact(click, columns) && Exact(hi, columns)
    requires lo.row * columns <= click.row * columns <= hi.row * columns
    ensures Index(click, columns) < Index(lo, columns) <==> Place(click, columns) < Place(lo, columns)
    ensures Index(click, columns) > Index(hi, columns) <==> Place(click, columns) > Place(hi, columns)
  {
    IndexIsPlace(lo, columns);
    IndexIsPlace(hi, columns);
  }

  /** With the cursor at `position`, the capped steps to `goal` move there or, over the cap, nowhere. */
  lemma CappedKeysLand(length: nat, application: bool, position: nat, goal: nat)
    requires position <= length && goal <= length
    ensures Edit(length, application, position, ArrowKeys(Cap(goal - position), application))
            == Some(if Abs(goal - position) <= MAX_STEPS then goal else position)
  {
    if Abs(goal - position) <= MAX_STEPS {
      KeysMoveExactly(length, application, position, goal);
    }
  }

  /** Counted from the start of the input, the cells of a span differ by their distance. */
  lemma DistanceFromStart(lo: Cell, cursor: Cell, target: Cell, hi: Cell, columns: i64, wide: Continuation)
    requires columns > 0 && Place(lo, columns) <= Place(cursor, columns) <= Place(hi, columns)
    requires Place(lo, columns) <= Place(target, columns) <= Place(hi, columns)
    ensures var length := Chars(Place(lo, columns), Place(hi, columns), columns, wide);
            var position := Chars(Place(lo, columns), Place(cursor, columns), columns, wide);
            var goal := Chars(Place(lo, columns), Place(target, columns), columns, wide);
            position <= length && goal <= length && Distance(cursor, target, columns, wide) == goal - position
  {
    CharsMonotone(Place(lo, columns), Place(target, columns), Place(hi, columns), columns, wide);
    CharsMonotone(Place(lo, columns), Place(cursor, columns), Place(hi, columns), columns, wide);
    DistanceAdds(lo, cursor, target, columns, wide);
  }

  /** End to end: with the cursor on the input span, the keys for a click of at most 4096 characters
      leave the editor on exactly the target's character, and never press Right at the end of the
      input; for a longer way nothing is sent. */
  lemma ClickLands(cursor: Cell, click: Cell, columns: i64, span: InputSpan, application: bool, wide: Continuation)
    requires Normal(click, columns) && Normal(span.start, columns) && Normal(span.end, columns)
    requires Exact(click, columns) && Exact(span.start, columns) && Exact(span.end, columns)
    requires var (lo, hi) := Ends(span, columns); Within(cursor, lo, hi, columns)
    requires TargetCell(cursor, click, columns, Some(span)).Some?
    ensures var (lo, hi) := Ends(span, columns);
            var target := TargetCell(cursor, click, columns, Some(span)).value;
            var length := Chars(Place(lo, columns), Place(hi, columns), columns, wide);
            var position := Chars(Place(lo, columns), Place(cursor, columns), columns, wide);
            var goal := Chars(Place(lo, columns), Place(target, columns), columns, wide);
            && Exact(cursor, columns) && Exact(target, columns)
            && Edit(length, application, position, ArrowKeys(Cap(Distance(cursor, target, columns, wide)), application))
               == Some(if Abs(goal - position) <= MAX_STEPS then goal else position)
  {
    var (lo, hi) := Ends(span, columns);
    var target := TargetCell(cursor, click, columns, Some(span)).value;
    TargetStaysInSpan(cursor, click, columns, span);
    ExactBetween(lo, cursor, hi, columns);
    ExactBetween(lo, target, hi, columns);
    DistanceFromStart(lo, cursor, target, hi, columns, wide);
    CappedKeysLand(Chars(Place(lo, columns), Place(hi, columns), columns, wide), application,
                   Chars(Place(lo, columns), Place(cursor, columns), columns, wide),
                   Chars(Place(lo, columns), Place(target, columns), columns, wide));
  }

  // ---- clamp_steps ----

  function Max0(n: i64): int {
    if n > 0 then n else 0
  }

  /** clamp_steps. */
  function ClampSteps(steps: int, maxLeft: i64, maxRight: i64): int {
    if steps < -Max0(maxLeft) then -Max0(maxLeft) else if steps > Max0(maxRight) then Max0(maxRight) else steps
  }

  /** The clamped distance is the nearest to the one asked for that stays within the room on both sides. */
  lemma ClampIsNearest(steps: int, maxLeft: i64, maxRight: i64, other: int)
    requires -Max0(maxLeft) <= other <= Max0(maxRight)
    ensures -Max0(maxLeft) <= ClampSteps(steps, maxLeft, maxRight) <= Max0(maxRight)
    ensures Abs(ClampSteps(steps, maxLeft, maxRight) - steps) <= Abs(other - steps)
  {
  }

  /** A distance over the cap is refused on its own; clamped, it is sent exactly when the room on its
      side is between 1 and 4096, and then only that far. */
  lemma ClampRevivesRefused(steps: int, maxLeft: i64, maxRight: i64, application: bool)
    requires Abs(steps) > MAX_STEPS
    ensures ArrowKeys(steps, application) == []
    ensures var room := if steps > 0 then Max0(maxRight) else Max0(maxLeft);
            && (ArrowKeys(ClampSteps(steps, maxLeft, maxRight), application) != [] <==> 1 <= room <= MAX_STEPS)
            && (1 <= room <= MAX_STEPS ==> Abs(ClampSteps(steps, maxLeft, maxRight)) == room)
  {
    RepeatedLength(Arrow(ClampSteps(steps, maxLeft, maxRight) > 0, application),
        Abs(ClampSteps(steps, maxLeft, maxRight)));
  }

  // ---- ClickTracker ----

  datatype Gesture = Press(cell: Cell, plain: bool) | PointerAt(cell: Cell) | Release | CancelGesture

  function Track(pending: Option<Cell>, g: Gesture): Option<Cell> {
    match g
    case Press(cell, plain) => if plain then Some(cell) else None
    case PointerAt(cell) => if pending.Some? && pending.value != cell then None else pending
    case Release => None
    case CancelGesture => None
  }

  function Tracked(gestures: seq<Gesture>): Option<Cell> {
    if gestures == [] then None else Track(Tracked(gestures[..|gestures| - 1]), gestures[|gestures| - 1])
  }

  class ClickTracker {
    var pending: Option<Cell>

    constructor ()
      ensures pending == Tracked([])
    {
      pending := None;
    }

    method Press(cell: Cell, plain: bool)
      modifies this
      ensures pending == Track(old(pending), Gesture.Press(cell, plain))
    {
      pending := if plain then Some(cell) else None;
    }

    method PointerAt(cell: Cell)
      modifies this
      ensures pending == Track(old(pending), Gesture.PointerAt(cell))
    {
      if pending.Some? && pending.value != cell {
        pending := None;
      }
    }

    method Release() returns (clicked: Option<Cell>)
      modifies this
      ensures clicked == old(pending) && pending == Track(old(pending), Gesture.Release)
    {
      clicked := pending;
      pending := None;
    }

    method Cancel()
      modifies this
      ensures pending == Track(old(pending), CancelGesture)
    {
      pending := None;
    }
  }

  /** The gestures from `k` on are a plain press of the cell and a pointer that never left it. */
  ghost predicate HeldSince(gestures: seq<Gesture>, k: nat, cell: Cell) {
    k < |gestures| && gestures[k] == Press(cell, true) && forall j | k < j < |gestures| ::
        gestures[j] == PointerAt(cell)
  }

  /** A release yields a cell exactly when the gesture was a plain press there that never left it. */
  lemma {:induction false} ClickIsUnmovedPress(gestures: seq<Gesture>, cell: Cell)
    ensures Tracked(gestures) == Some(cell) <==> exists k: nat :: HeldSince(gestures, k, cell)
  {
    if gestures != [] {
      var init, last := gestures[..|gestures| - 1], gestures[|gestures| - 1];
      ClickIsUnmovedPress(init, cell);
      if Tracked(gestures) == Some(cell) {
        if last.Press? {
          assert HeldSince(gestures, |gestures| - 1, cell);
        } else {
          var k: nat :| HeldSince(init, k, cell);
          assert HeldSince(gestures, k, cell);
        }
      }
      if k: nat :| HeldSince(gestures, k, cell) {
        if k < |init| {
          assert HeldSince(init, k, cell);
        }
      }
    }
  }
}
