/** The screen of a virtual console as a value, and what each control does to it
    (sys/drivers/virtual_console.c). */
module ScreenModel {
  import opened Bytes
  import opened Memory

  /** The flat buffer of characters, 0 for blank; the cursor; the saved cursor; and the first
      and last row of the scrolling region. */
  datatype Screen = Screen(width: nat, height: nat, cells: seq<Byte>, cx: nat, cy: nat,
                           savedCx: nat, savedCy: nat, top: nat, bottom: nat)

  predicate Shaped(s: Screen) {
    0 < s.width && 0 < s.height && |s.cells| == Times(s.height, s.width) < 0x8000_0000 && s.width < WORD / 2 && s.height < WORD / 2
  }

  /** Cursor and saved cursor are on the screen, and the region is a region of the screen. */
  predicate Valid(s: Screen) {
    Shaped(s) && s.cx < s.width && s.cy < s.height && s.savedCx < s.width && s.savedCy < s.height && s.top <= s.bottom < s.height
  }

  /** Where row r starts. */
  function RowStart(s: Screen, r: nat): nat {
    Times(r, s.width)
  }

  /** SCR_POS */
  function Pos(s: Screen): nat {
    RowStart(s, s.cy) + s.cx
  }

  lemma RowInside(s: Screen, r: nat)
    requires Shaped(s) && r < s.height
    ensures RowStart(s, r) + s.width <= |s.cells|
  {
    TimesGrows(r, s.height, s.width);
  }

  // ---------------------------------------------------------------------------------
  // Shifting part of a buffer
  // ---------------------------------------------------------------------------------

  /** c with the bytes from start to end moved k places to the front, blanks following. */
  function ShiftUp(c: seq<Byte>, start: nat, end: nat, k: nat): (r: seq<Byte>)
    requires start <= end <= |c|
    ensures |r| == |c|
  {
    seq(|c|, i requires 0 <= i < |c| => if !(start <= i < end) then c[i] else if i + k < end then c[i + k] else 0)
  }

  /** c with the bytes from start to end moved k places to the back, blanks before them. */
  function ShiftDown(c: seq<Byte>, start: nat, end: nat, k: nat): (r: seq<Byte>)
    requires start <= end <= |c|
    ensures |r| == |c|
  {
    seq(|c|, i requires 0 <= i < |c| => if !(start <= i < end) then c[i] else if start + k <= i then c[i - k] else 0)
  }

  /** Shifts add up. */
  lemma ShiftUpTwice(c: seq<Byte>, start: nat, end: nat, j: nat, k: nat)
    requires start <= end <= |c|
    ensures ShiftUp(ShiftUp(c, start, end, j), start, end, k) == ShiftUp(c, start, end, j + k)
  {
  }

  lemma ShiftDownTwice(c: seq<Byte>, start: nat, end: nat, j: nat, k: nat)
    requires start <= end <= |c|
    ensures ShiftDown(ShiftDown(c, start, end, j), start, end, k) == ShiftDown(c, start, end, j + k)
  {
  }

  // ---------------------------------------------------------------------------------
  // Scrolling
  // ---------------------------------------------------------------------------------

  /** The rows of the region move up by one. */
  function ScrollUp(s: Screen): (r: Screen)
    requires Shaped(s) && s.top <= s.bottom < s.height
    ensures Shaped(r) && r == s.(cells := r.cells)
  {
    RegionInside(s);
    s.(cells := ShiftUp(s.cells, RowStart(s, s.top), RowStart(s, s.bottom) + s.width, s.width))
  }

  function ScrollDown(s: Screen): (r: Screen)
    requires Shaped(s) && s.top <= s.bottom < s.height
    ensures Shaped(r) && r == s.(cells := r.cells)
  {
    RegionInside(s);
    s.(cells := ShiftDown(s.cells, RowStart(s, s.top), RowStart(s, s.bottom) + s.width, s.width))
  }

  lemma RegionInside(s: Screen)
    requires Shaped(s) && s.top <= s.bottom < s.height
    ensures RowStart(s, s.top) <= RowStart(s, s.bottom) && RowStart(s, s.bottom) + s.width <= |s.cells|
    ensures RowStart(s, s.bottom) == RowStart(s, s.top) + Times(s.bottom - s.top, s.width)
  {
    RowInside(s, s.bottom);
    TimesAdds(s.top, s.bottom - s.top, s.width);
  }

  /** n blank rows at the cursor's row push the rows from there on down. */
  function InsertLines(s: Screen, n: nat): (r: Screen)
    requires Valid(s)
    ensures Valid(r) && r == s.(cells := r.cells)
  {
    RowInside(s, s.cy);
    s.(cells := ShiftDown(s.cells, RowStart(s, s.cy), |s.cells|, Times(n, s.width)))
  }

  function DeleteLines(s: Screen, n: nat): (r: Screen)
    requires Valid(s)
    ensures Valid(r) && r == s.(cells := r.cells)
  {
    RowInside(s, s.cy);
    s.(cells := ShiftUp(s.cells, RowStart(s, s.cy), |s.cells|, Times(n, s.width)))
  }

  /** The characters of one row. */
  function Row(s: Screen, r: nat): seq<Byte>
    requires Shaped(s) && r < s.height
  {
    RowInside(s, r);
    s.cells[RowStart(s, r)..RowStart(s, r) + s.width]
  }

  /** Where rows lie relative to each other. */
  lemma RowsApart(s: Screen, r: nat, n: nat)
    ensures RowStart(s, r + n) == RowStart(s, r) + Times(n, s.width)
    ensures n > 0 ==> RowStart(s, r) + s.width <= RowStart(s, r + n)
  {
    TimesAdds(r, n, s.width);
    if n > 0 {
      TimesGrows(r, r + n, s.width);
    }
  }

  lemma SliceOfShiftDown(c: seq<Byte>, start: nat, k: nat, at: nat, w: nat)
    requires start <= |c| && at + w <= |c|
    ensures var d := ShiftDown(c, start, |c|, k)[at..at + w];
      && (at + w <= start ==> d == c[at..at + w])
      && (start <= at && at + w <= start + k ==> d == Zeros(w))
  {
    var r := ShiftDown(c, start, |c|, k);
    if at + w <= start {
      assert forall i | at <= i < at + w :: r[i] == c[at + i - at];
      SlicesAgree(r, at, c, at, w);
    }
    if start <= at && at + w <= start + k {
      assert forall i | at <= i < at + w :: r[i] == 0;
      BlankSlice(r, at, w);
    }
  }

  lemma BelowShiftDown(c: seq<Byte>, start: nat, k: nat, at: nat, src: nat, w: nat)
    requires start <= src && src + k == at && at + w <= |c|
    ensures ShiftDown(c, start, |c|, k)[at..at + w] == c[src..src + w]
  {
    var r := ShiftDown(c, start, |c|, k);
    assert forall i | at <= i < at + w :: r[i] == c[src + i - at];
    SlicesAgree(r, at, c, src, w);
  }

  lemma BehindShiftUp(c: seq<Byte>, start: nat, k: nat, at: nat, src: nat, w: nat)
    requires start <= at && at + k == src && src + w <= |c|
    ensures ShiftUp(c, start, |c|, k)[at..at + w] == c[src..src + w]
  {
    var r := ShiftUp(c, start, |c|, k);
    assert forall i | at <= i < at + w :: r[i] == c[src + i - at];
    SlicesAgree(r, at, c, src, w);
  }

  lemma SliceOfShiftUp(c: seq<Byte>, start: nat, k: nat, at: nat, w: nat)
    requires start <= |c| && at + w <= |c|
    ensures var d := ShiftUp(c, start, |c|, k)[at..at + w];
      && (at + w <= start ==> d == c[at..at + w])
      && (start <= at && |c| <= at + k ==> d == Zeros(w))
  {
    var r := ShiftUp(c, start, |c|, k);
    if at + w <= start {
      assert forall i | at <= i < at + w :: r[i] == c[at + i - at];
      SlicesAgree(r, at, c, at, w);
    }
    if start <= at && |c| <= at + k {
      assert forall i | at <= i < at + w :: r[i] == 0;
      BlankSlice(r, at, w);
    }
  }

  lemma SlicesAgree(r: seq<Byte>, at: nat, c: seq<Byte>, src: nat, w: nat)
    requires at + w <= |r| && src + w <= |c|
    requires forall i {:trigger r[i]} | at <= i < at + w :: r[i] == c[src + i - at]
    ensures r[at..at + w] == c[src..src + w]
  {
    var x, y := r[at..at + w], c[src..src + w];
    forall j | 0 <= j < w
      ensures x[j] == y[j]
    {
      assert x[j] == r[at + j] && y[j] == c[src + j];
    }
  }

  lemma BlankSlice(r: seq<Byte>, at: nat, w: nat)
    requires at + w <= |r|
    requires forall i | at <= i < at + w :: r[i] == 0
    ensures r[at..at + w] == Zeros(w)
  {
  }

  lemma InsertedSlice(s: Screen, n: nat, r: nat)
    requires Valid(s) && r < s.height
    ensures RowStart(s, s.cy) <= |s.cells| && RowStart(s, r) + s.width <= |s.cells|
    ensures Row(InsertLines(s, n), r) ==
      ShiftDown(s.cells, RowStart(s, s.cy), |s.cells|, Times(n, s.width))[RowStart(s, r)..RowStart(s, r) + s.width]
  {
    RowInside(s, r);
    RowInside(s, s.cy);
  }

  lemma DeletedSlice(s: Screen, n: nat, r: nat)
    requires Valid(s) && r < s.height
    ensures RowStart(s, s.cy) <= |s.cells| && RowStart(s, r) + s.width <= |s.cells|
    ensures Row(DeleteLines(s, n), r) ==
      ShiftUp(s.cells, RowStart(s, s.cy), |s.cells|, Times(n, s.width))[RowStart(s, r)..RowStart(s, r) + s.width]
  {
    RowInside(s, r);
    RowInside(s, s.cy);
  }

  lemma InsertedAbove(s: Screen, n: nat, r: nat)
    requires Valid(s) && r < s.cy
    ensures Row(InsertLines(s, n), r) == Row(s, r)
  {
    InsertedSlice(s, n, r);
    RowsApart(s, r, s.cy - r);
    SliceOfShiftDown(s.cells, RowStart(s, s.cy), Times(n, s.width), RowStart(s, r), s.width);
  }

  lemma InsertedBlank(s: Screen, n: nat, r: nat)
    requires Valid(s) && r < s.height && s.cy <= r < s.cy + n
    ensures Row(InsertLines(s, n), r) == Zeros(s.width)
  {
    InsertedSlice(s, n, r);
    hide InsertLines, ShiftDown, Times, RowStart;
    RowsApart(s, s.cy, n);
    RowsApart(s, s.cy, r - s.cy);
    RowsApart(s, r, s.cy + n - r);
    SliceOfShiftDown(s.cells, RowStart(s, s.cy), Times(n, s.width), RowStart(s, r), s.width);
  }

  lemma InsertedBelow(s: Screen, n: nat, r: nat)
    requires Valid(s) && s.cy + n <= r < s.height
    ensures Row(InsertLines(s, n), r) == Row(s, r - n)
  {
    InsertedSlice(s, n, r);
    hide InsertLines, ShiftDown, Times, RowStart;
    RowsApart(s, r - n, n);
    RowInside(s, r - n);
    RowsApart(s, s.cy, r - n - s.cy);
    BelowShiftDown(s.cells, RowStart(s, s.cy), Times(n, s.width), RowStart(s, r), RowStart(s, r - n), s.width);
  }

  lemma DeletedAbove(s: Screen, n: nat, r: nat)
    requires Valid(s) && r < s.cy
    ensures Row(DeleteLines(s, n), r) == Row(s, r)
  {
    DeletedSlice(s, n, r);
    RowsApart(s, r, s.cy - r);
    SliceOfShiftUp(s.cells, RowStart(s, s.cy), Times(n, s.width), RowStart(s, r), s.width);
  }

  lemma DeletedMoved(s: Screen, n: nat, r: nat)
    requires Valid(s) && s.cy <= r && r + n < s.height
    ensures Row(DeleteLines(s, n), r) == Row(s, r + n)
  {
    DeletedSlice(s, n, r);
    hide DeleteLines, ShiftUp, Times, RowStart;
    RowsApart(s, s.cy, r - s.cy);
    RowsApart(s, r, n);
    RowInside(s, r + n);
    BehindShiftUp(s.cells, RowStart(s, s.cy), Times(n, s.width), RowStart(s, r), RowStart(s, r + n), s.width);
  }

  lemma DeletedBlank(s: Screen, n: nat, r: nat)
    requires Valid(s) && s.cy <= r < s.height <= r + n
    ensures Row(DeleteLines(s, n), r) == Zeros(s.width)
  {
    DeletedSlice(s, n, r);
    assert RowStart(s, s.height) == |s.cells|;
    hide DeleteLines, ShiftUp, Times, RowStart;
    RowsApart(s, s.cy, r - s.cy);
    RowsApart(s, r, n);
    RowsApart(s, s.height, r + n - s.height);
    SliceOfShiftUp(s.cells, RowStart(s, s.cy), Times(n, s.width), RowStart(s, r), s.width);
  }

  /** IL in terms of rows: those above the cursor stay, n rows are blank, the rest are what was
      n rows above. */
  lemma InsertedRows(s: Screen, n: nat, r: nat)
    requires Valid(s) && r < s.height
    ensures r < s.cy ==> Row(InsertLines(s, n), r) == Row(s, r)
    ensures s.cy <= r < s.cy + n ==> Row(InsertLines(s, n), r) == Zeros(s.width)
    ensures s.cy + n <= r ==> Row(InsertLines(s, n), r) == Row(s, r - n)
  {
    hide Row, InsertLines;
    if r < s.cy {
      InsertedAbove(s, n, r);
    } else if r < s.cy + n {
      InsertedBlank(s, n, r);
    } else {
      InsertedBelow(s, n, r);
    }
  }

  /** DL in terms of rows. */
  lemma DeletedRows(s: Screen, n: nat, r: nat)
    requires Valid(s) && r < s.height
    ensures r < s.cy ==> Row(DeleteLines(s, n), r) == Row(s, r)
    ensures s.cy <= r && r + n < s.height ==> Row(DeleteLines(s, n), r) == Row(s, r + n)
    ensures s.cy <= r && s.height <= r + n ==> Row(DeleteLines(s, n), r) == Zeros(s.width)
  {
    hide Row, DeleteLines;
    if r < s.cy {
      DeletedAbove(s, n, r);
    } else if r + n < s.height {
      DeletedMoved(s, n, r);
    } else {
      DeletedBlank(s, n, r);
    }
  }

  /** Deleting the lines inserted restores every row that was not pushed off the bottom. */
  lemma DeleteUndoesInsert(s: Screen, n: nat, r: nat)
    requires Valid(s) && r < s.height
    ensures r < s.cy || r + n < s.height ==> Row(DeleteLines(InsertLines(s, n), n), r) == Row(s, r)
    ensures s.cy <= r && s.height <= r + n ==> Row(DeleteLines(InsertLines(s, n), n), r) == Zeros(s.width)
  {
    DeletedRows(InsertLines(s, n), n, r);
    if r < s.cy {
      InsertedRows(s, n, r);
    } else if r + n < s.height {
      InsertedRows(s, n, r + n);
    }
  }
}
