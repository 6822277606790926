/** The grammar of what is written to a virtual console: characters, and complete escape and
    CSI sequences (sys/drivers/virtual_console.c). */
module EscapeCodes {
  import opened Bytes

  const ESC: Byte := 27
  const OPEN_BRACKET: Byte := 91
  const SEMICOLON: Byte := 59
  const NPAR: nat := 16

  /** One character, ESC and one byte, or a CSI sequence with its 16 parameters and how many
      of them were written. */
  datatype Token = Plain(b: Byte) | Escape(b: Byte) | Csi(par: seq<nat>, given: nat, final: Byte)

  predicate IsDigit(b: Byte) {
    48 <= b <= 57
  }

  predicate IsParameter(b: Byte) {
    IsDigit(b) || b == SEMICOLON
  }

  /** The first byte from p on that is no part of the parameters, or the end. */
  function CsiEnd(buf: seq<Byte>, p: nat): (e: nat)
    requires p <= |buf|
    ensures p <= e <= |buf| && (e < |buf| ==> !IsParameter(buf[e]))
    ensures forall i | p <= i < e :: IsParameter(buf[i])
    decreases |buf| - p
  {
    if p < |buf| && IsParameter(buf[p]) then CsiEnd(buf, p + 1) else p
  }

  function Semicolons(text: seq<Byte>): nat {
    if text == [] then 0 else (if text[0] == SEMICOLON then 1 else 0) + Semicolons(text[1..])
  }

  /** From place i on, there is a place for every digit: none comes behind the sixteenth
      parameter. */
  predicate Roomy(text: seq<Byte>, i: nat)
    requires forall b | b in text :: IsParameter(b)
  {
    text == [] ||
    (assert IsParameter(text[0]);
     if text[0] == SEMICOLON then Roomy(text[1..], i + 1) else i < NPAR && Roomy(text[1..], i))
  }

  /** Reads decimal numbers in 32-bit arithmetic into par, from place i on. */
  function Scan(text: seq<Byte>, par: seq<nat>, i: nat): (r: seq<nat>)
    requires forall b | b in text :: IsParameter(b)
    requires |par| == NPAR && Roomy(text, i)
    ensures |r| == NPAR
  {
    if text == [] then par
    else
      assert IsParameter(text[0]);
      if text[0] == SEMICOLON then Scan(text[1..], par, i + 1)
      else Scan(text[1..], par[i := Appended(par[i], text[0])], i)
  }

  function Appended(n: nat, b: Byte): nat
    requires IsDigit(b)
  {
    (10 * n + (b - 48)) % WORD
  }

  function NoParameters(): (par: seq<nat>)
    ensures |par| == NPAR && forall i | 0 <= i < NPAR :: par[i] == 0
  {
    seq(NPAR, _ => 0)
  }

  // ---------------------------------------------------------------------------------
  // Tokens
  // ---------------------------------------------------------------------------------

  predicate IsCsi(buf: seq<Byte>, p: nat) {
    p + 1 < |buf| && buf[p] == ESC && buf[p + 1] == OPEN_BRACKET
  }

  /** A whole token starts at p: its last byte is there, and there is a place for its digits. */
  predicate HasToken(buf: seq<Byte>, p: nat) {
    && p < |buf|
    && (buf[p] == ESC ==> p + 1 < |buf|)
    && (IsCsi(buf, p) ==> CsiEnd(buf, p + 2) < |buf| && Roomy(buf[p + 2..CsiEnd(buf, p + 2)], 0))
  }

  /** Its last byte. */
  function TokenEnd(buf: seq<Byte>, p: nat): (e: nat)
    requires HasToken(buf, p)
    ensures p <= e < |buf|
  {
    if buf[p] != ESC then p else if IsCsi(buf, p) then CsiEnd(buf, p + 2) else p + 1
  }

  function TokenAt(buf: seq<Byte>, p: nat): (t: Token)
    requires HasToken(buf, p)
    ensures t.Csi? ==> |t.par| == NPAR
  {
    if buf[p] != ESC then Plain(buf[p])
    else if IsCsi(buf, p) then
      var e := CsiEnd(buf, p + 2);
      Csi(Scan(buf[p + 2..e], NoParameters(), 0), Semicolons(buf[p + 2..e]) + 1, buf[e])
    else Escape(buf[p + 1])
  }

  /** From p on, the buffer is a row of whole tokens. */
  predicate Complete(buf: seq<Byte>, p: nat)
    decreases |buf| - p
  {
    p == |buf| || (HasToken(buf, p) && Complete(buf, TokenEnd(buf, p) + 1))
  }

  // ---------------------------------------------------------------------------------
  // Reading back what was printed
  // ---------------------------------------------------------------------------------

  function Digits(n: nat): (text: seq<Byte>)
    ensures forall b | b in text :: IsDigit(b)
  {
    if n < 10 then [48 + n] else Digits(n / 10) + [48 + n % 10]
  }

  /** Numbers in decimal, with semicolons between them. */
  function Printed(ns: seq<nat>): (text: seq<Byte>)
    requires ns != []
    ensures forall b | b in text :: IsParameter(b)
  {
    if |ns| == 1 then Digits(ns[0]) else Digits(ns[0]) + [SEMICOLON] + Printed(ns[1..])
  }

  function Padded(par: seq<nat>, i: nat, ns: seq<nat>): seq<nat>
    requires i + |ns| <= |par|
  {
    par[..i] + ns + par[i + |ns|..]
  }

  lemma {:induction false} SemicolonsAdd(xs: seq<Byte>, ys: seq<Byte>)
    ensures Semicolons(xs + ys) == Semicolons(xs) + Semicolons(ys)
  {
    if xs == [] {
      assert xs + ys == ys;
    } else {
      assert (xs + ys)[1..] == xs[1..] + ys;
      SemicolonsAdd(xs[1..], ys);
    }
  }

  lemma {:induction false} DigitsHaveNone(text: seq<Byte>)
    requires forall b | b in text :: IsDigit(b)
    ensures Semicolons(text) == 0
  {
    if text != [] {
      assert IsParameter(text[0]);
      DigitsHaveNone(text[1..]);
    }
  }

  lemma {:induction false} PrintedSemicolons(ns: seq<nat>)
    requires ns != []
    ensures Semicolons(Printed(ns)) == |ns| - 1
  {
    DigitsHaveNone(Digits(ns[0]));
    if |ns| > 1 {
      PrintedSemicolons(ns[1..]);
      SemicolonsAdd(Digits(ns[0]) + [SEMICOLON], Printed(ns[1..]));
      SemicolonsAdd(Digits(ns[0]), [SEMICOLON]);
    }
  }

  lemma AppendedWraps(n: nat)
    ensures Appended(n / 10 % WORD, 48 + n % 10) == n % WORD
  {
    var q, r, d := n / 10 / WORD, n / 10 % WORD, n % 10;
    var k := (10 * r + d) / WORD;
    DivisionIsUnique(n, WORD, 10 * q + k, (10 * r + d) % WORD);
  }

  /** A printed number is read back, modulo 2^32. */
  lemma {:induction false} ScanDigits(n: nat, rest: seq<Byte>, par: seq<nat>, i: nat)
    requires |par| == NPAR && i < NPAR && (forall b | b in rest :: IsParameter(b)) && Roomy(rest, i)
    requires par[i] == 0
    ensures Roomy(Digits(n) + rest, i)
    ensures Scan(Digits(n) + rest, par, i) == Scan(rest, par[i := n % WORD], i)
  {
    if n < 10 {
      assert (Digits(n) + rest)[1..] == rest;
    } else {
      var more := [48 + n % 10] + rest;
      assert more[1..] == rest;
      ScanDigits(n / 10, more, par, i);
      AppendedWraps(n);
      hide Appended;
      assert Digits(n) + rest == Digits(n / 10) + more;
      assert par[i := n / 10 % WORD][i := n % WORD] == par[i := n % WORD];
    }
  }

  /** So is a list of them. */
  lemma {:induction false} ScanPrinted(ns: seq<nat>, par: seq<nat>, i: nat)
    requires ns != [] && (forall n | n in ns :: n < WORD) && |par| == NPAR && i + |ns| <= NPAR
    requires forall j | i <= j < NPAR :: par[j] == 0
    ensures Roomy(Printed(ns), i)
    ensures Scan(Printed(ns), par, i) == Padded(par, i, ns)
  {
    var n := ns[0];
    assert n in ns && forall m | m in ns[1..] :: m in ns;
    if |ns| == 1 {
      assert Printed(ns) == Digits(n) + [];
      ScanDigits(n, [], par, i);
      assert par[i := n] == Padded(par, i, ns);
    } else {
      ScanPrinted(ns[1..], par[i := n], i + 1);
      ScanNext(ns, par, i);
      assert Padded(par[i := n], i + 1, ns[1..]) == Padded(par, i, ns);
    }
  }

  lemma ScanNext(ns: seq<nat>, par: seq<nat>, i: nat)
    requires |ns| > 1 && ns[0] < WORD && |par| == NPAR && i + |ns| <= NPAR && par[i] == 0
    requires Roomy(Printed(ns[1..]), i + 1)
    ensures Roomy(Printed(ns), i)
    ensures Scan(Printed(ns), par, i) == Scan(Printed(ns[1..]), par[i := ns[0]], i + 1)
  {
    hide Scan, Printed, Digits, Roomy;
    ScanSemicolon(Printed(ns[1..]), par[i := ns[0]], i);
    PrintedSplit(ns);
    ScanDigits(ns[0], [SEMICOLON] + Printed(ns[1..]), par, i);
  }

  lemma PrintedSplit(ns: seq<nat>)
    requires |ns| > 1
    ensures Printed(ns) == Digits(ns[0]) + ([SEMICOLON] + Printed(ns[1..]))
  {
  }

  lemma ScanSemicolon(text: seq<Byte>, par: seq<nat>, i: nat)
    requires (forall b | b in text :: IsParameter(b)) && |par| == NPAR && Roomy(text, i + 1)
    ensures Roomy([SEMICOLON] + text, i)
    ensures Scan([SEMICOLON] + text, par, i) == Scan(text, par, i + 1)
  {
    assert ([SEMICOLON] + text)[1..] == text;
  }

  /** A CSI sequence printed with up to 16 numbers is one token with those numbers. */
  lemma CsiReadsBack(ns: seq<nat>, final: Byte, rest: seq<Byte>)
    requires 0 < |ns| <= NPAR && (forall n | n in ns :: n < WORD) && !IsParameter(final)
    ensures var buf := [ESC, OPEN_BRACKET] + Printed(ns) + [final] + rest;
      && HasToken(buf, 0) && TokenEnd(buf, 0) == |Printed(ns)| + 2
      && TokenAt(buf, 0) == Csi(Padded(NoParameters(), 0, ns), |ns|, final)
  {
    hide Scan, Semicolons, Printed, Digits, CsiEnd, Roomy;
    var text := Printed(ns);
    var buf := [ESC, OPEN_BRACKET] + text + [final] + rest;
    assert forall j | 2 <= j < |text| + 2 :: buf[j] == text[j - 2] && text[j - 2] in text;
    EndIs(buf, 2, |text| + 2);
    assert buf[2..|text| + 2] == text;
    ScanPrinted(ns, NoParameters(), 0);
    PrintedSemicolons(ns);
  }

  /** A number of any length wraps. */
  lemma NumberWraps(n: nat, final: Byte)
    requires !IsParameter(final)
    ensures var buf := [ESC, OPEN_BRACKET] + Digits(n) + [final];
      HasToken(buf, 0) && TokenAt(buf, 0) == Csi(NoParameters()[0 := n % WORD], 1, final)
  {
    hide Scan, Semicolons, Digits, CsiEnd, Roomy;
    var text := Digits(n);
    var buf := [ESC, OPEN_BRACKET] + text + [final];
    assert forall j | 2 <= j < |text| + 2 :: buf[j] == text[j - 2] && text[j - 2] in text;
    EndIs(buf, 2, |text| + 2);
    assert buf[2..|text| + 2] == text;
    ScanNothing(NoParameters()[0 := n % WORD]);
    ScanDigits(n, [], NoParameters(), 0);
    assert text + [] == text;
    DigitsHaveNone(text);
  }

  lemma ScanNothing(par: seq<nat>)
    requires |par| == NPAR
    ensures Roomy([], 0) && Scan([], par, 0) == par
  {
  }

  lemma EndIs(buf: seq<Byte>, p: nat, e: nat)
    requires p <= e < |buf| && !IsParameter(buf[e]) && forall i | p <= i < e :: IsParameter(buf[i])
    ensures CsiEnd(buf, p) == e
  {
  }
}
