/** Bytes, bits of a bitmap block, and the 32-bit words of a pointer block. */
module Bytes {

  type Byte = b: nat | b < 256

  type Block = seq<Byte>

  /** Unsigned 32-bit numbers are below this. */
  const WORD: nat := 0x1_0000_0000

  type Word32 = n: nat | n < WORD

  // ---------------------------------------------------------------------------------
  // Bits
  // ---------------------------------------------------------------------------------

  /** b & (1 << k) is not 0: binary digit k of b. */
  predicate BitOf(b: nat, k: nat) {
    if k == 0 then b % 2 == 1 else BitOf(b / 2, k - 1)
  }

  /** b | (1 << k) if `on`, b & ~(1 << k) if not. */
  function WithBit(b: nat, k: nat, on: bool): nat {
    if k == 0 then b - b % 2 + (if on then 1 else 0) else 2 * WithBit(b / 2, k - 1, on) + b % 2
  }

  lemma {:induction false} WithBitOf(b: nat, k: nat, on: bool, j: nat)
    ensures BitOf(WithBit(b, k, on), j) == if j == k then on else BitOf(b, j)
  {
    if k > 0 && j > 0 {
      WithBitOf(b / 2, k - 1, on, j - 1);
    }
  }

  /** Setting a digit below the width of a number stays within that width. */
  lemma {:induction false} WithBitBound(b: nat, k: nat, on: bool, width: nat)
    requires b < Power2(width) && k < width
    ensures WithBit(b, k, on) < Power2(width)
  {
    if k > 0 {
      WithBitBound(b / 2, k - 1, on, width - 1);
    }
  }

  function Power2(n: nat): (p: nat)
    ensures p > 0 && (n > 0 ==> p % 2 == 0)
  {
    if n == 0 then 1 else 2 * Power2(n - 1)
  }

  function WithByteBit(b: Byte, k: nat, on: bool): Byte
    requires k < 8
  {
    assert Power2(8) == 2 * Power2(7) == 4 * Power2(6) == 8 * Power2(5) == 16 * Power2(4) == 256;
    WithBitBound(b, k, on, 8);
    WithBit(b, k, on)
  }

  /** 255 has all its eight bits set, and 251 all but bit 2. */
  lemma AllOnes(k: nat)
    requires k < 8
    ensures BitOf(255, k)
  {
    assert BitOf(255, k) == if k == 0 then true else BitOf(127, k - 1);
    assert k > 1 ==> BitOf(127, k - 1) == BitOf(63, k - 2);
    assert k > 2 ==> BitOf(63, k - 2) == BitOf(31, k - 3);
    assert k > 3 ==> BitOf(31, k - 3) == BitOf(15, k - 4);
    assert k > 4 ==> BitOf(15, k - 4) == BitOf(7, k - 5);
    assert k > 5 ==> BitOf(7, k - 5) == BitOf(3, k - 6);
    assert k > 6 ==> BitOf(3, k - 6) == BitOf(1, k - 7);
  }

  /** BitOf in arithmetic. */
  lemma {:induction false} BitIsBinary(b: nat, k: nat)
    ensures BitOf(b, k) <==> b / Power2(k) % 2 == 1
  {
    if k > 0 {
      BitIsBinary(b / 2, k - 1);
      DivideInSteps(b, 2, Power2(k - 1));
    }
  }

  predicate BitAt(bm: Block, off: nat)
    requires off / 8 < |bm|
  {
    BitOf(bm[off / 8], off % 8)
  }

  /** The bits of a byte come from the least significant one. */
  lemma BitAtIsBinary(bm: Block, off: nat)
    requires off / 8 < |bm|
    ensures BitAt(bm, off) <==> bm[off / 8] / Power2(off % 8) % 2 == 1
    ensures Power2(0) == 1 && Power2(1) == 2 && Power2(2) == 4 && Power2(7) == 128
  {
    BitIsBinary(bm[off / 8], off % 8);
    assert Power2(7) == 2 * Power2(6) == 4 * Power2(5) == 8 * Power2(4) == 16 * Power2(3) == 32 * Power2(2);
  }

  function WithBitAt(bm: Block, off: nat, on: bool): Block
    requires off / 8 < |bm|
  {
    bm[off / 8 := WithByteBit(bm[off / 8], off % 8, on)]
  }

  /** Changing one bit of a bitmap changes that bit only. */
  lemma WithBitAtBit(bm: Block, off: nat, on: bool, j: nat)
    requires off / 8 < |bm| && j / 8 < |bm|
    ensures BitAt(WithBitAt(bm, off, on), j) == if j == off then on else BitAt(bm, j)
  {
    WithBitOf(bm[off / 8], off % 8, on, j % 8);
    assert j / 8 == off / 8 && j % 8 == off % 8 ==> j == off;
  }

  // ---------------------------------------------------------------------------------
  // Words
  // ---------------------------------------------------------------------------------

  function Horner(b0: nat, b1: nat, b2: nat, b3: nat): nat {
    b0 + 256 * (b1 + 256 * (b2 + 256 * b3))
  }

  /** Little-endian word i of a block. */
  function WordAt(bl: Block, i: nat): nat
    requires 4 * i + 3 < |bl|
  {
    Horner(bl[4 * i], bl[4 * i + 1], bl[4 * i + 2], bl[4 * i + 3])
  }

  /** The least significant byte comes first. */
  lemma WordBytes(bl: Block, i: nat)
    requires 4 * i + 3 < |bl|
    ensures var b0: nat, b1: nat, b2: nat, b3: nat := bl[4 * i], bl[4 * i + 1], bl[4 * i + 2], bl[4 * i + 3];
      WordAt(bl, i) == b0 + 0x100 * b1 + 0x1_0000 * b2 + 0x100_0000 * b3
  {
  }

  function WithWordAt(bl: Block, i: nat, v: nat): Block
    requires 4 * i + 3 < |bl|
  {
    bl[4 * i := v % 256][4 * i + 1 := v / 256 % 256][4 * i + 2 := v / 256 / 256 % 256][4 * i + 3 := v / 256 / 256 / 256 % 256]
  }

  lemma HornerOf(v: nat)
    requires v < 0x1_0000_0000
    ensures Horner(v % 256, v / 256 % 256, v / 256 / 256 % 256, v / 256 / 256 / 256 % 256) == v
  {
    var q0 := v / 256;
    var q1 := q0 / 256;
    var q2 := q1 / 256;
    assert q2 < 256;
    assert q2 % 256 == q2;
  }

  /** Storing a 32-bit word changes that word only. */
  lemma WithWordAtWord(bl: Block, i: nat, v: nat, j: nat)
    requires 4 * i + 3 < |bl| && 4 * j + 3 < |bl| && v < 0x1_0000_0000
    ensures WordAt(WithWordAt(bl, i, v), j) == if j == i then v else WordAt(bl, j)
  {
    HornerOf(v);
  }

  lemma WordBound(bl: Block, i: nat)
    requires 4 * i + 3 < |bl|
    ensures WordAt(bl, i) < 0x1_0000_0000
  {
  }

  function WithByteAt(bl: Block, i: nat, b: Byte): Block
    requires i < |bl|
  {
    bl[i := b]
  }

  /** The block with `bytes` written over it from off on. */
  function Spliced(bl: Block, off: nat, bytes: seq<Byte>): (r: Block)
    requires off + |bytes| <= |bl|
    ensures |r| == |bl|
    ensures forall i | 0 <= i < |bl| :: r[i] == if off <= i < off + |bytes| then bytes[i - off] else bl[i]
  {
    bl[..off] + bytes + bl[off + |bytes|..]
  }

  function Zeros(n: nat): Block {
    seq(n, _ => 0)
  }

  lemma ZeroWord(n: nat, i: nat)
    requires 4 * i + 3 < n
    ensures WordAt(Zeros(n), i) == 0
  {
  }

  // ---------------------------------------------------------------------------------
  // Multiplication and division by repeated addition and subtraction
  // ---------------------------------------------------------------------------------

  function Times(n: nat, w: nat): nat {
    if n == 0 then 0 else w + Times(n - 1, w)
  }

  function Quotient(l: nat, w: nat): nat
    requires w > 0
  {
    if l < w then 0 else 1 + Quotient(l - w, w)
  }

  function Remainder(l: nat, w: nat): (r: nat)
    requires w > 0
    ensures r < w
  {
    if l < w then l else Remainder(l - w, w)
  }

  lemma {:induction false} Division(l: nat, w: nat)
    requires w > 0
    ensures l == Times(Quotient(l, w), w) + Remainder(l, w)
  {
    if l >= w {
      Division(l - w, w);
    }
  }

  lemma {:induction false} TimesIs(n: nat, w: nat)
    ensures Times(n, w) == n * w
  {
    if n > 0 {
      TimesIs(n - 1, w);
    }
  }

  /** These are the quotient and the remainder of the built-in operators. */
  lemma DivisionIs(l: nat, w: nat)
    requires w > 0
    ensures Quotient(l, w) == l / w && Remainder(l, w) == l % w
  {
    Division(l, w);
    TimesIs(Quotient(l, w), w);
    DivisionIsUnique(l, w, Quotient(l, w), Remainder(l, w));
  }

  lemma AtLeastOnce(a: nat, n: nat)
    requires a >= 1
    ensures a * n >= n
  {
  }

  lemma DivisionIsUnique(x: nat, n: nat, q: nat, r: nat)
    requires r < n && x == q * n + r
    ensures x / n == q && x % n == r
  {
    var q', r' := x / n, x % n;
    assert x == n * q' + r' && r' < n;
    if q' > q {
      assert (q' - q) * n == r - r';
      AtLeastOnce(q' - q, n);
    } else if q' < q {
      assert (q - q') * n == r' - r;
      AtLeastOnce(q - q', n);
    }
  }

  lemma Factored(m: nat, n: nat, k: nat, j: nat)
    ensures m * (n * k + j) == k * (m * n) + m * j
  {
    assert m * (n * k + j) == m * (n * k) + m * j;
    assert m * (n * k) == m * n * k;
  }

  lemma BelowProduct(m: nat, n: nat, j: nat, r: nat)
    requires r < m && j < n
    ensures m * j + r < m * n
  {
    assert m * (n - 1 - j) >= 0;
    assert m * (n - 1 - j) == m * n - m - m * j;
  }

  lemma Composed(m: nat, n: nat, q: nat, r: nat, k: nat, j: nat)
    requires r < m && j < n && q == n * k + j
    ensures m * q + r == k * (m * n) + (m * j + r) && m * j + r < m * n
  {
    Factored(m, n, k, j);
    BelowProduct(m, n, j, r);
  }

  /** Dividing by m and then by n. */
  lemma DivideInSteps(b: nat, m: nat, n: nat)
    requires m > 0 && n > 0
    ensures m * n > 0 && b / m / n == b / (m * n)
  {
    var q, r := b / m, b % m;
    var k, j := q / n, q % n;
    Composed(m, n, q, r, k, j);
    DivisionIsUnique(b, m * n, k, m * j + r);
  }

  lemma {:induction false} QuotientBelow(l: nat, w: nat, n: nat)
    requires w > 0
    ensures Quotient(l, w) < n <==> l < Times(n, w)
  {
    if l >= w && n > 0 {
      QuotientBelow(l - w, w, n - 1);
    }
  }

  /** Moving on within a block of w. */
  lemma {:induction false} StayInBlock(pos: nat, d: nat, w: nat)
    requires w > 0 && Remainder(pos, w) + d < w
    ensures Quotient(pos + d, w) == Quotient(pos, w) && Remainder(pos + d, w) == Remainder(pos, w) + d
  {
    if pos >= w {
      StayInBlock(pos - w, d, w);
    }
  }

  lemma {:induction false} TimesAdds(a: nat, b: nat, w: nat)
    ensures Times(a + b, w) == Times(a, w) + Times(b, w)
  {
    if a > 0 {
      TimesAdds(a - 1, b, w);
    }
  }

  lemma TimesGrows(a: nat, b: nat, w: nat)
    requires a < b
    ensures Times(a, w) + w <= Times(b, w)
  {
    TimesAdds(b - a - 1, a + 1, w);
  }
}
