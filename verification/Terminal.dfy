/** What each token does to the screen, and runs of tokens (sys/drivers/virtual_console.c). */
module Terminal {
  import opened Bytes
  import opened Memory
  import opened ScreenModel
  import opened EscapeCodes
  import opened Attributes

  const CARRIAGE_RETURN: Byte := 13
  const LINE_FEED: Byte := 10
  const BACKSPACE: Byte := 8
  const TAB_STOP: nat := 8

  // ---------------------------------------------------------------------------------
  // Cursor movements
  // ---------------------------------------------------------------------------------

  function LineFeed(s: Screen): Screen
    requires Valid(s)
  {
    if s.cy + 1 < s.height then s.(cy := s.cy + 1) else ScrollUp(s)
  }

  /** Where ESC H takes the cursor: never left of the margin, but possibly onto it. */
  function TabStop(s: Screen): nat {
    var x := s.cx + (TAB_STOP - s.cx % TAB_STOP);
    if x > s.width then s.width else x
  }

  /** Forward by n with 32-bit wrap, at most to `last`. */
  function Forward(at: nat, n: nat, last: nat): nat {
    if (at + n) % WORD <= last then (at + n) % WORD else last
  }

  function Backward(at: nat, n: nat): nat {
    if at >= n then at - n else 0
  }

  // ---------------------------------------------------------------------------------
  // Editing
  // ---------------------------------------------------------------------------------

  lemma PosInside(s: Screen)
    requires Valid(s)
    ensures Pos(s) < |s.cells| && Pos(s) + (s.width - s.cx) <= |s.cells|
  {
    RowInside(s, s.cy);
  }

  /** Cells from `at` on are blanked. */
  function Blanked(s: Screen, at: nat, n: nat): (r: Screen)
    requires Valid(s) && at + n <= |s.cells|
    ensures Valid(r) && r == s.(cells := r.cells)
  {
    s.(cells := Filled(s.cells, at, n, 0))
  }

  /** n blanks at pos push the rest of the line, `room` characters, to the right. */
  function BlanksInserted(c: seq<Byte>, pos: nat, room: nat, n: nat): (r: seq<Byte>)
    requires pos + room <= |c|
    ensures |r| == |c|
  {
    if n >= room then Filled(c, pos, room, 0) else Filled(Moved(c, pos + n, pos, room - n), pos, n, 0)
  }

  function InsertBlanks(s: Screen, n: nat): (r: Screen)
    requires Valid(s)
    ensures Valid(r) && r == s.(cells := r.cells)
  {
    PosInside(s);
    s.(cells := BlanksInserted(s.cells, Pos(s), s.width - s.cx, n))
  }

  function Least(m: nat, n: nat): nat {
    if m < n then m else n
  }

  /** The rest of the line moves left by n. As the code has it, what is blanked then starts n
      characters behind pos. */
  function CharsDeleted(c: seq<Byte>, pos: nat, room: nat, n: nat): (r: seq<Byte>)
    requires pos + room <= |c|
    ensures |r| == |c|
  {
    var k := Least(n, room);
    Filled(Moved(c, pos, pos + k, room - k), pos + k, room - k, 0)
  }

  /** The code deletes characters, that is, moves the rest of the line to the left and blanks
      what becomes free, exactly if no character stands where it blanks too much, nor in what
      it fails to blank. */
  lemma DeletesExactly(c: seq<Byte>, pos: nat, room: nat, n: nat)
    requires pos + room <= |c|
    ensures var k := Least(n, room);
      CharsDeleted(c, pos, room, n) == ShiftUp(c, pos, pos + room, k) <==>
      && (forall i | pos + 2 * k <= i < pos + room :: c[i] == 0)
      && (forall i | pos + room - k <= i < pos + k :: c[i] == 0)
  {
    var k := Least(n, room);
    var d, u := CharsDeleted(c, pos, room, n), ShiftUp(c, pos, pos + room, k);
    forall i | 0 <= i < |c|
      ensures d[i] == u[i] <==> (pos + k <= i < pos + room - k ==> c[i + k] == 0) && (pos + room - k <= i < pos + k ==> c[i] == 0)
    {
      DeletedAt(c, pos, room, n, i);
    }
    if d == u {
      forall i | pos + 2 * k <= i < pos + room ensures c[i] == 0 {
        assert d[i - k] == u[i - k];
      }
      forall i | pos + room - k <= i < pos + k ensures c[i] == 0 {
        assert d[i] == u[i];
      }
    }
  }

  lemma DeletedAt(c: seq<Byte>, pos: nat, room: nat, n: nat, i: nat)
    requires pos + room <= |c| && i < |c|
    ensures var k := Least(n, room);
      && CharsDeleted(c, pos, room, n)[i] ==
           (if pos + k <= i < pos + room then 0 else if pos <= i < pos + room - k then c[i + k] else c[i])
      && ShiftUp(c, pos, pos + room, k)[i] ==
           (if !(pos <= i < pos + room) then c[i] else if i + k < pos + room then c[i + k] else 0)
  {
  }

  /** One deletion at the start of a line of three leaves one character, not two. */
  lemma DeletionLosesText()
    ensures CharsDeleted([1, 2, 3], 0, 3, 1) == [2, 0, 0] && ShiftUp([1, 2, 3], 0, 3, 1) == [2, 3, 0]
  {
    forall i: nat | i < 3
      ensures CharsDeleted([1, 2, 3], 0, 3, 1)[i] == [2, 0, 0][i] && ShiftUp([1, 2, 3], 0, 3, 1)[i] == [2, 3, 0][i]
    {
      DeletedAt([1, 2, 3], 0, 3, 1, i);
    }
  }

  function DeleteChars(s: Screen, n: nat): (r: Screen)
    requires Valid(s)
    ensures Valid(r) && r == s.(cells := r.cells)
  {
    PosInside(s);
    s.(cells := CharsDeleted(s.cells, Pos(s), s.width - s.cx, n))
  }

  function ClearScreen(s: Screen, mode: nat): (r: Screen)
    requires Valid(s)
    ensures Valid(r) && r == s.(cells := r.cells)
  {
    PosInside(s);
    if mode == 0 then Blanked(s, Pos(s), |s.cells| - Pos(s))
    else if mode == 1 then Blanked(s, 0, Pos(s))
    else if mode == 2 then Blanked(s, 0, |s.cells|)
    else s
  }

  function ClearLine(s: Screen, mode: nat): (r: Screen)
    requires Valid(s)
    ensures Valid(r) && r == s.(cells := r.cells)
  {
    PosInside(s);
    if mode == 0 then Blanked(s, Pos(s), s.width - s.cx)
    else if mode == 1 then Blanked(s, Pos(s) - s.cx, s.cx)
    else if mode == 2 then Blanked(s, Pos(s) - s.cx, s.width)
    else s
  }

  /** A character goes to the cursor, which moves on; past the last cell the screen scrolls. */
  function Put(s: Screen, b: Byte): (r: Screen)
    requires Valid(s)
    ensures Valid(r)
  {
    PosInside(s);
    var t := s.(cells := s.cells[Pos(s) := b]);
    if t.cx == t.width - 1 && t.cy == t.height - 1 then ScrollUp(t).(cx := 0)
    else if t.cx == t.width - 1 then LineFeed(t.(cx := 0))
    else t.(cx := t.cx + 1)
  }

  // ---------------------------------------------------------------------------------
  // Tokens
  // ---------------------------------------------------------------------------------

  /** The counts of CSI L and M are counted down as signed numbers; that of CSI @ is added to
      the cursor's column before anything is done with it. */
  predicate CountOk(s: Screen, par: seq<nat>, final: Byte)
    requires |par| == NPAR
  {
    && (final == '@' as nat ==> s.cx + par[0] < WORD)
    && (final == 'L' as nat || final == 'M' as nat ==> par[0] < WORD / 2)
  }

  /** The C code is defined, and ends. */
  predicate Defined(s: Screen, t: Token) {
    t.Csi? ==>
      && |t.par| == NPAR && CountOk(s, t.par, t.final)
      && (t.final == 'm' as nat ==> Fate(t.par, t.given).Over?)
  }

  /** CSI m whose loop never ends. */
  predicate Hangs(t: Token) {
    t.Csi? && |t.par| == NPAR && t.final == 'm' as nat && Fate(t.par, t.given).At?
  }

  function ApplyPlain(s: Screen, b: Byte): Screen
    requires Valid(s)
  {
    if b == CARRIAGE_RETURN then s.(cx := 0)
    else if b == LINE_FEED then LineFeed(s)
    else if b == BACKSPACE then s.(cx := Backward(s.cx, 1))
    else Put(s, b)
  }

  function ApplyEscape(s: Screen, b: Byte): Screen
    requires Valid(s)
  {
    if b == 'D' as nat then LineFeed(s)
    else if b == 'E' as nat then LineFeed(s).(cx := 0)
    else if b == 'H' as nat then s.(cx := TabStop(s))
    else if b == 'M' as nat then s.(cy := Backward(s.cy, 1))
    else if b == '7' as nat then s.(savedCx := s.cx, savedCy := s.cy)
    else if b == '8' as nat then s.(cx := s.savedCx, cy := s.savedCy)
    else s
  }

  predicate IsMovement(final: Byte) {
    final as char in "ABeaCDEFGfHd"
  }

  /** CSI sequences that move the cursor. */
  function ApplyMovement(s: Screen, par: seq<nat>, final: Byte): Screen
    requires Valid(s) && |par| == NPAR && IsMovement(final)
  {
    var n := par[0];
    if final == 'A' as nat then s.(cy := Backward(s.cy, n))
    else if final == 'B' as nat || final == 'e' as nat then s.(cy := Forward(s.cy, n, s.height - 1))
    else if final == 'C' as nat || final == 'a' as nat then s.(cx := Forward(s.cx, n, s.width - 1))
    else if final == 'D' as nat then s.(cx := Backward(s.cx, n))
    else if final == 'E' as nat then s.(cy := Forward(s.cy, n, s.height - 1), cx := 0)
    else if final == 'F' as nat then s.(cy := Backward(s.cy, n), cx := 0)
    else if final == 'G' as nat then s.(cx := if n < s.width then n else s.cx)
    else if final == 'd' as nat then s.(cy := if n < s.height then n else s.cy)
    else s.(cy := if 1 <= n <= s.height then n - 1 else s.cy, cx := if 1 <= par[1] <= s.width then par[1] - 1 else s.cx)
  }

  /** The rest: editing, attributes (which leave the screen alone), and the region. */
  function ApplyEdit(s: Screen, par: seq<nat>, final: Byte): Screen
    requires Valid(s) && |par| == NPAR && CountOk(s, par, final)
  {
    var n := par[0];
    PosInside(s);
    if final == '@' as nat then InsertBlanks(s, n)
    else if final == 'J' as nat then ClearScreen(s, n)
    else if final == 'K' as nat then ClearLine(s, n)
    else if final == 'L' as nat then InsertLines(s, n)
    else if final == 'M' as nat then DeleteLines(s, n)
    else if final == 'P' as nat then DeleteChars(s, n)
    else if final == 'X' as nat then Blanked(s, Pos(s), Least(n, s.width - s.cx))
    else if final == 'r' as nat then s.(top := n, bottom := par[1])
    else s
  }

  function Apply(s: Screen, t: Token): Screen
    requires Valid(s) && Defined(s, t)
  {
    match t
    case Plain(b) => ApplyPlain(s, b)
    case Escape(b) => ApplyEscape(s, b)
    case Csi(par, _, final) => if IsMovement(final) then ApplyMovement(s, par, final) else ApplyEdit(s, par, final)
  }

  /** The two sequences that can leave the screen invalid are fine under these conditions. */
  predicate Harmless(s: Screen, t: Token)
    requires t.Csi? ==> |t.par| == NPAR
  {
    match t
    case Plain(_) => true
    case Escape(b) => b == 'H' as nat ==> (s.cx / TAB_STOP + 1) * TAB_STOP < s.width
    case Csi(par, _, final) => final == 'r' as nat ==> par[0] <= par[1] < s.height
  }

  lemma EscapeValid(s: Screen, b: Byte)
    requires Valid(s)
    ensures Valid(ApplyEscape(s, b)) <==> Harmless(s, Escape(b))
  {
    assert s.cx + (TAB_STOP - s.cx % TAB_STOP) == (s.cx / TAB_STOP + 1) * TAB_STOP;
  }

  lemma MovementValid(s: Screen, par: seq<nat>, final: Byte)
    requires Valid(s) && |par| == NPAR && IsMovement(final)
    ensures Valid(ApplyMovement(s, par, final))
  {
  }

  lemma EditValid(s: Screen, par: seq<nat>, given: nat, final: Byte)
    requires Valid(s) && |par| == NPAR && CountOk(s, par, final)
    ensures Valid(ApplyEdit(s, par, final)) <==> Harmless(s, Csi(par, given, final))
  {
  }

  /** A token keeps the cursor, the saved cursor and the region valid exactly if it is not a
      tab past the margin and does not set an impossible region. */
  lemma ApplyValid(s: Screen, t: Token)
    requires Valid(s) && Defined(s, t)
    ensures Valid(Apply(s, t)) <==> Harmless(s, t)
  {
    match t
    case Plain(b) =>
    case Escape(b) => EscapeValid(s, b);
    case Csi(par, given, final) =>
      if IsMovement(final) {
        MovementValid(s, par, final);
      } else {
        EditValid(s, par, given, final);
      }
  }

  function SmallScreen(): Screen {
    Screen(8, 2, seq(16, _ => 0), 0, 0, 0, 0, 0, 1)
  }

  /** On a screen of eight columns the first tab is already off the screen... */
  lemma TabLeavesScreen()
    ensures Valid(SmallScreen())
    ensures ApplyEscape(SmallScreen(), 'H' as nat).cx == 8 && !Valid(ApplyEscape(SmallScreen(), 'H' as nat))
  {
  }

  /** ...and on one of two rows CSI 2 ; 1 r sets a region that ends before it starts. */
  lemma RegionLeavesScreen()
    ensures Valid(SmallScreen())
    ensures var t := ApplyEdit(SmallScreen(), NoParameters()[0 := 2][1 := 1], 'r' as nat);
      t.top == 2 && t.bottom == 1 && !Valid(t)
  {
  }

  // ---------------------------------------------------------------------------------
  // Streams
  // ---------------------------------------------------------------------------------

  /** Every token of the stream is defined and harmless in the state it meets. */
  predicate Fit(s: Screen, buf: seq<Byte>, p: nat)
    requires Valid(s) && Complete(buf, p)
    decreases |buf| - p
  {
    p == |buf| ||
    (var t := TokenAt(buf, p);
     Defined(s, t) && Harmless(s, t) && (ApplyValid(s, t); Fit(Apply(s, t), buf, TokenEnd(buf, p) + 1)))
  }

  /** The screen once the stream from p on has been written. It stays valid. */
  function Interpret(s: Screen, buf: seq<Byte>, p: nat): (r: Screen)
    requires Valid(s) && Complete(buf, p) && Fit(s, buf, p)
    ensures Valid(r)
    decreases |buf| - p
  {
    if p == |buf| then s
    else
      ApplyValid(s, TokenAt(buf, p));
      Interpret(Apply(s, TokenAt(buf, p)), buf, TokenEnd(buf, p) + 1)
  }

  /** How writing a stream ends: well; where the C code leaves the stream or an array or is not
      defined; not at all; or with the cursor or the region off the screen. */
  datatype Ending = Finished | Astray | Hung | OffScreen

  /** The screen, how far the stream was read, and how that ended. */
  datatype Progress = Progress(s: Screen, p: nat, ending: Ending)

  /** How the sequence at p ends. */
  function EndingAt(s: Screen, buf: seq<Byte>, p: nat): (e: Ending)
    ensures e.Finished? <==> HasToken(buf, p) && Defined(s, TokenAt(buf, p))
  {
    if !HasToken(buf, p) then Astray
    else if Hangs(TokenAt(buf, p)) then Hung
    else if Defined(s, TokenAt(buf, p)) then Finished
    else Astray
  }

  /** Writing any stream from p on, up to the first token that cannot be followed further. */
  function Written(s: Screen, buf: seq<Byte>, p: nat): Progress
    requires Valid(s) && p <= |buf|
    decreases |buf| - p
  {
    if p == |buf| then Progress(s, p, Finished)
    else if !EndingAt(s, buf, p).Finished? then Progress(s, p, EndingAt(s, buf, p))
    else
      var t := TokenAt(buf, p);
      ApplyValid(s, t);
      if Harmless(s, t) then Written(Apply(s, t), buf, TokenEnd(buf, p) + 1)
      else Progress(Apply(s, t), p, OffScreen)
  }

  /** Writing ends well exactly if the stream consists of whole tokens that are fit for the
      state they meet, and then it is their interpretation. */
  lemma {:induction false} WrittenIsInterpreted(s: Screen, buf: seq<Byte>, p: nat)
    requires Valid(s) && p <= |buf|
    ensures Written(s, buf, p).ending.Finished? <==> Complete(buf, p) && Fit(s, buf, p)
    ensures Complete(buf, p) && Fit(s, buf, p) ==> Written(s, buf, p) == Progress(Interpret(s, buf, p), |buf|, Finished)
    decreases |buf| - p
  {
    hide Apply, Valid, Harmless;
    if p < |buf| && HasToken(buf, p) && Defined(s, TokenAt(buf, p)) {
      ApplyValid(s, TokenAt(buf, p));
      if Harmless(s, TokenAt(buf, p)) {
        WrittenIsInterpreted(Apply(s, TokenAt(buf, p)), buf, TokenEnd(buf, p) + 1);
      }
    }
  }

  /** No CSI m that does not end well, and no count of 2^31 or more for CSI @, L and M. */
  predicate Sober(t: Token) {
    t.Csi? ==>
      && |t.par| == NPAR
      && (t.final == '@' as nat || t.final == 'L' as nat || t.final == 'M' as nat ==> t.par[0] < WORD / 2)
      && (t.final == 'm' as nat ==> Fate(t.par, t.given).Over?)
  }

  /** Sober tokens, and no ESC H and no CSI r. */
  predicate Tame(buf: seq<Byte>, p: nat)
    requires Complete(buf, p)
    decreases |buf| - p
  {
    p == |buf| ||
    (var t := TokenAt(buf, p);
     Sober(t) && t != Escape('H' as nat) && !(t.Csi? && t.final == 'r' as nat) && Tame(buf, TokenEnd(buf, p) + 1))
  }

  /** Such a stream can be written in any state. */
  lemma {:induction false} TameIsFit(s: Screen, buf: seq<Byte>, p: nat)
    requires Valid(s) && Complete(buf, p) && Tame(buf, p)
    ensures Fit(s, buf, p)
    decreases |buf| - p
  {
    if p < |buf| {
      ApplyValid(s, TokenAt(buf, p));
      TameIsFit(Apply(s, TokenAt(buf, p)), buf, TokenEnd(buf, p) + 1);
    }
  }

  /** ESC [ 0 ; 0 ; 38 m as it is written. */
  function ColourText(): seq<Byte> {
    [ESC, OPEN_BRACKET, 48, SEMICOLON, 48, SEMICOLON, 51, 56, 'm' as nat]
  }

  lemma ColourParses()
    ensures HasToken(ColourText(), 0) && TokenEnd(ColourText(), 0) == 8
    ensures TokenAt(ColourText(), 0) == Csi(NoParameters()[2 := 38], 3, 'm' as nat)
  {
    var ns := [0, 0, 38];
    assert ns[1..] == [0, 38] && ns[1..][1..] == [38];
    assert Digits(38) == Digits(3) + [56];
    assert Printed(ns) == [48, SEMICOLON, 48, SEMICOLON, 51, 56];
    CsiReadsBack(ns, 'm' as nat, []);
    assert [ESC, OPEN_BRACKET] + Printed(ns) + ['m' as nat] + [] == ColourText();
    assert Padded(NoParameters(), 0, ns) == NoParameters()[2 := 38];
  }

  /** It is one whole token, and writing it never ends, whatever is on the screen: from its
      third parameter the loop is sent to its third parameter. */
  lemma ColourHangs(s: Screen)
    requires Valid(s)
    ensures Complete(ColourText(), 0) && Endless(NoParameters()[2 := 38], 3)
    ensures Written(s, ColourText(), 0) == Progress(s, 0, Hung)
  {
    ColourParses();
    var par := NoParameters()[2 := 38];
    assert Stretch(par, 3, 2) == At(2);
    assert Stretch(par, 3, 1) == At(2);
    FateIsExact(par, 3);
  }

  // ---------------------------------------------------------------------------------
  // Writing in pieces
  // ---------------------------------------------------------------------------------

  lemma {:induction false} CsiEndBefore(a: seq<Byte>, b: seq<Byte>, p: nat)
    requires p <= |a| && CsiEnd(a, p) < |a|
    ensures CsiEnd(a + b, p) == CsiEnd(a, p)
    decreases |a| - p
  {
    if IsParameter(a[p]) {
      CsiEndBefore(a, b, p + 1);
    }
  }

  lemma {:induction false} CsiEndAfter(a: seq<Byte>, b: seq<Byte>, p: nat)
    requires p <= |b|
    ensures CsiEnd(a + b, |a| + p) == |a| + CsiEnd(b, p)
    decreases |b| - p
  {
    if p < |b| && IsParameter(b[p]) {
      CsiEndAfter(a, b, p + 1);
    }
  }

  /** Tokens before the seam... */
  lemma TokenBefore(a: seq<Byte>, b: seq<Byte>, p: nat)
    requires HasToken(a, p)
    ensures HasToken(a + b, p) && TokenEnd(a + b, p) == TokenEnd(a, p) && TokenAt(a + b, p) == TokenAt(a, p)
  {
    if IsCsi(a, p) {
      CsiEndBefore(a, b, p + 2);
      var e := CsiEnd(a, p + 2);
      assert (a + b)[p + 2..e] == a[p + 2..e];
    }
  }

  /** ...and after it. */
  lemma TokenAfter(a: seq<Byte>, b: seq<Byte>, p: nat)
    requires HasToken(b, p)
    ensures HasToken(a + b, |a| + p)
    ensures TokenEnd(a + b, |a| + p) == |a| + TokenEnd(b, p) && TokenAt(a + b, |a| + p) == TokenAt(b, p)
  {
    if IsCsi(b, p) {
      CsiEndAfter(a, b, p + 2);
      var e := CsiEnd(b, p + 2);
      assert (a + b)[|a| + p + 2..|a| + e] == b[p + 2..e];
    }
  }

  lemma {:induction false} InterpretAfter(s: Screen, a: seq<Byte>, b: seq<Byte>, p: nat)
    requires Valid(s) && Complete(b, p) && Fit(s, b, p) && p <= |b|
    ensures Complete(a + b, |a| + p) && Fit(s, a + b, |a| + p)
    ensures Interpret(s, a + b, |a| + p) == Interpret(s, b, p)
    decreases |b| - p
  {
    hide Apply, Valid;
    if p < |b| {
      TokenAfter(a, b, p);
      ApplyValid(s, TokenAt(b, p));
      InterpretAfter(Apply(s, TokenAt(b, p)), a, b, TokenEnd(b, p) + 1);
    }
  }

  /** Writing a stream in two pieces, each of whole tokens, is writing it in one. */
  lemma {:induction false} InterpretInPieces(s: Screen, a: seq<Byte>, b: seq<Byte>, p: nat)
    requires Valid(s) && Complete(a, p) && Fit(s, a, p) && p <= |a|
    requires Complete(b, 0) && Fit(Interpret(s, a, p), b, 0)
    ensures Complete(a + b, p) && Fit(s, a + b, p)
    ensures Interpret(s, a + b, p) == Interpret(Interpret(s, a, p), b, 0)
    decreases |a| - p
  {
    hide Apply, Valid;
    if p == |a| {
      InterpretAfter(s, a, b, 0);
    } else {
      TokenBefore(a, b, p);
      ApplyValid(s, TokenAt(a, p));
      InterpretInPieces(Apply(s, TokenAt(a, p)), a, b, TokenEnd(a, p) + 1);
    }
  }

  // ---------------------------------------------------------------------------------
  // What writing text, moving and saving mean
  // ---------------------------------------------------------------------------------

  predicate IsText(b: Byte) {
    b != CARRIAGE_RETURN && b != LINE_FEED && b != BACKSPACE && b != ESC
  }

  /** A character goes to the cursor's cell, and the cursor to the next cell of the flat
      buffer; from the last cell it goes to the start of the last row, and the region scrolls. */
  lemma PutAdvances(s: Screen, b: Byte)
    requires Valid(s)
    ensures Pos(s) < |s.cells|
    ensures var t := Put(s, b); var written := s.(cells := s.cells[Pos(s) := b]);
      if Pos(s) + 1 < |s.cells| then Pos(t) == Pos(s) + 1 && t == written.(cx := t.cx, cy := t.cy)
      else t == ScrollUp(written).(cx := 0)
  {
    PosInside(s);
    RowsApart(s, s.cy, 1);
    RowsApart(s, s.cy, s.height - s.cy);
    if s.cy + 1 < s.height {
      RowInside(s, s.cy + 1);
    }
  }

  /** Text that ends before the last cell is written to consecutive cells, over the ends of
      rows, and nothing else on the screen changes. */
  lemma {:induction false} TextLands(s: Screen, buf: seq<Byte>, p: nat)
    requires Valid(s) && p <= |buf| && (forall i | p <= i < |buf| :: IsText(buf[i]))
    requires Pos(s) + (|buf| - p) < |s.cells|
    ensures Complete(buf, p) && Fit(s, buf, p)
    ensures var t := Interpret(s, buf, p);
      && Pos(t) == Pos(s) + (|buf| - p)
      && t == s.(cells := t.cells, cx := t.cx, cy := t.cy) && |t.cells| == |s.cells|
      && forall i | 0 <= i < |t.cells| ::
           t.cells[i] == if Pos(s) <= i < Pos(t) then buf[p + i - Pos(s)] else s.cells[i]
    decreases |buf| - p
  {
    if p < |buf| {
      PutAdvances(s, buf[p]);
      ApplyValid(s, Plain(buf[p]));
      TextLands(Put(s, buf[p]), buf, p + 1);
    }
  }

  function Cursor(s: Screen): (nat, nat) {
    (s.cx, s.cy)
  }

  function MovedBy(s: Screen, n: nat, final: char): Screen
    requires Valid(s) && final as nat < 256 && IsMovement(final as nat)
  {
    ApplyMovement(s, NoParameters()[0 := n], final as nat)
  }

  /** Moving down undoes moving up exactly if the top edge does not stop the first move, or the
      bottom edge stops the second where the first started. */
  lemma DownUndoesUp(s: Screen, n: nat)
    requires Valid(s) && n < WORD
    ensures Valid(MovedBy(s, n, 'A'))
    ensures MovedBy(MovedBy(s, n, 'A'), n, 'B') == s <==> n <= s.cy || s.cy == s.height - 1
  {
  }

  lemma RightUndoesLeft(s: Screen, n: nat)
    requires Valid(s) && n < WORD
    ensures Valid(MovedBy(s, n, 'D'))
    ensures MovedBy(MovedBy(s, n, 'D'), n, 'C') == s <==> n <= s.cx || s.cx == s.width - 1
  {
  }

  /** ESC [ n ; m H as it is printed. */
  function CupText(n: nat, m: nat): seq<Byte> {
    [ESC, OPEN_BRACKET] + Printed([n, m]) + ['H' as nat]
  }

  lemma CupParses(n: nat, m: nat)
    requires n < WORD && m < WORD
    ensures var buf := CupText(n, m);
      && HasToken(buf, 0) && TokenEnd(buf, 0) + 1 == |buf| && |buf| > 0
      && TokenAt(buf, 0) == Csi(NoParameters()[0 := n][1 := m], 2, 'H' as nat)
  {
    var buf := CupText(n, m);
    CsiReadsBack([n, m], 'H' as nat, []);
    assert [ESC, OPEN_BRACKET] + Printed([n, m]) + ['H' as nat] + [] == buf;
    hide Printed, TokenAt, TokenEnd, HasToken;
    var par := Padded(NoParameters(), 0, [n, m]);
    assert par == NoParameters()[0 := n][1 := m];
  }

  function AfterCup(s: Screen, n: nat, m: nat): Screen {
    s.(cx := if 1 <= m <= s.width then m - 1 else s.cx, cy := if 1 <= n <= s.height then n - 1 else s.cy)
  }

  lemma CupMoves(s: Screen, n: nat, m: nat)
    requires Valid(s) && n < WORD && m < WORD
    ensures var t := Csi(NoParameters()[0 := n][1 := m], 2, 'H' as nat);
      Defined(s, t) && Harmless(s, t) && Apply(s, t) == AfterCup(s, n, m)
  {
    hide Valid;
  }

  /** A buffer that is one token. */
  lemma OneToken(s: Screen, buf: seq<Byte>, t: Token)
    requires Valid(s) && |buf| > 0 && HasToken(buf, 0) && TokenEnd(buf, 0) + 1 == |buf| && TokenAt(buf, 0) == t
    requires Defined(s, t) && Harmless(s, t)
    ensures Complete(buf, 0) && Fit(s, buf, 0) && Interpret(s, buf, 0) == Apply(s, t)
  {
    hide TokenAt, TokenEnd, HasToken, Apply, Harmless, Defined, Valid;
    ApplyValid(s, t);
  }

  /** Writing ESC [ n ; m H, with the numbers in decimal, is safe in every state and takes the
      cursor to row n and column m, counting from 1; a coordinate that is not on the screen
      stays as it was, and so does everything else. */
  lemma CupByStream(s: Screen, n: nat, m: nat)
    requires Valid(s) && n < WORD && m < WORD
    ensures var buf := CupText(n, m);
      && Complete(buf, 0) && Fit(s, buf, 0)
      && (1 <= n <= s.height && 1 <= m <= s.width <==> Cursor(Interpret(s, buf, 0)) == (m - 1, n - 1))
      && Interpret(s, buf, 0) == s.(cx := if 1 <= m <= s.width then m - 1 else s.cx, cy := if 1 <= n <= s.height then n - 1 else s.cy)
  {
    CupParses(n, m);
    CupMoves(s, n, m);
    assert s.cx < s.width && s.cy < s.height;
    hide CupText, TokenAt, TokenEnd, HasToken, Apply, Harmless, Defined, Valid, Complete, Fit, Interpret;
    OneToken(s, CupText(n, m), Csi(NoParameters()[0 := n][1 := m], 2, 'H' as nat));
  }

  /** No ESC 7 from p on. */
  predicate NoSave(buf: seq<Byte>, p: nat)
    requires Complete(buf, p)
    decreases |buf| - p
  {
    p == |buf| || (TokenAt(buf, p) != Escape('7' as nat) && NoSave(buf, TokenEnd(buf, p) + 1))
  }

  lemma ApplyKeepsSaved(s: Screen, t: Token)
    requires Valid(s) && Defined(s, t) && t != Escape('7' as nat)
    ensures Apply(s, t).savedCx == s.savedCx && Apply(s, t).savedCy == s.savedCy
  {
  }

  lemma {:induction false} InterpretKeepsSaved(s: Screen, buf: seq<Byte>, p: nat)
    requires Valid(s) && Complete(buf, p) && Fit(s, buf, p) && NoSave(buf, p)
    ensures var r := Interpret(s, buf, p); r.savedCx == s.savedCx && r.savedCy == s.savedCy
    decreases |buf| - p
  {
    if p < |buf| {
      ApplyValid(s, TokenAt(buf, p));
      ApplyKeepsSaved(s, TokenAt(buf, p));
      InterpretKeepsSaved(Apply(s, TokenAt(buf, p)), buf, TokenEnd(buf, p) + 1);
    }
  }

  /** ESC 8 takes the cursor back to where ESC 7 was, whatever is written in between. */
  lemma RestoreAfterSave(s: Screen, buf: seq<Byte>)
    requires Valid(s) && Complete(buf, 0) && NoSave(buf, 0)
    ensures Valid(ApplyEscape(s, '7' as nat))
    ensures var saved := ApplyEscape(s, '7' as nat);
      Fit(saved, buf, 0) ==> Cursor(ApplyEscape(Interpret(saved, buf, 0), '8' as nat)) == Cursor(s)
  {
    var saved := ApplyEscape(s, '7' as nat);
    if Fit(saved, buf, 0) {
      InterpretKeepsSaved(saved, buf, 0);
    }
  }
}
