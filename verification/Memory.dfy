/** memmove and memset (sys/lib/string.c). */
module Memory {
  import opened Bytes

  /** The bytes of s with n of them, as they were before, copied from src to dst. */
  function Moved(s: seq<Byte>, dst: nat, src: nat, n: nat): (r: seq<Byte>)
    requires dst + n <= |s| && src + n <= |s|
    ensures |r| == |s|
  {
    seq(|s|, i requires 0 <= i < |s| => if dst <= i < dst + n then s[src + i - dst] else s[i])
  }

  function Filled(s: seq<Byte>, at: nat, n: nat, c: Byte): (r: seq<Byte>)
    requires at + n <= |s|
    ensures |r| == |s|
  {
    seq(|s|, i requires 0 <= i < |s| => if at <= i < at + n then c else s[i])
  }

  /** A buffer that agrees with Moved byte by byte is Moved. */
  lemma IsMoved(s: seq<Byte>, dst: nat, src: nat, n: nat, r: seq<Byte>)
    requires dst + n <= |s| == |r| && src + n <= |s|
    requires forall i {:trigger r[i]} | 0 <= i < |s| :: r[i] == if dst <= i < dst + n then s[src + i - dst] else s[i]
    ensures r == Moved(s, dst, src, n)
  {
  }

  lemma IsFilled(s: seq<Byte>, at: nat, n: nat, c: Byte, r: seq<Byte>)
    requires at + n <= |s| == |r|
    requires forall i {:trigger r[i]} | 0 <= i < |s| :: r[i] == if at <= i < at + n then c else s[i]
    ensures r == Filled(s, at, n, c)
  {
  }

  /** memmove copies a snapshot, however the ranges overlap. */
  method Memmove(a: array<Byte>, dst: nat, src: nat, n: nat)
    requires dst + n <= a.Length && src + n <= a.Length
    modifies a
    ensures a[..] == Moved(old(a[..]), dst, src, n)
  {
    hide Moved;
    if dst < src {
      var i := 0;
      while i < n
        invariant i <= n
        invariant forall j {:trigger a[j]} | 0 <= j < a.Length :: a[j] == if dst <= j < dst + i then old(a[src + j - dst]) else old(a[j])
      {
        a[dst + i] := a[src + i];
        i := i + 1;
      }
    } else {
      var count := n;
      while count > 0
        invariant 0 <= count <= n
        invariant forall j {:trigger a[j]} | 0 <= j < a.Length ::
                    a[j] == if dst + count <= j < dst + n then old(a[src + j - dst]) else old(a[j])
      {
        count := count - 1;
        a[dst + count] := a[src + count];
      }
    }
    IsMoved(old(a[..]), dst, src, n, a[..]);
  }

  method Memset(a: array<Byte>, at: nat, c: Byte, n: nat)
    requires at + n <= a.Length
    modifies a
    ensures a[..] == Filled(old(a[..]), at, n, c)
  {
    var i := 0;
    while i < n
      invariant i <= n
      invariant forall j {:trigger a[j]} | 0 <= j < a.Length :: a[j] == if at <= j < at + i then c else old(a[j])
    {
      a[at + i] := c;
      i := i + 1;
    }
    IsFilled(old(a[..]), at, n, c, a[..]);
  }
}
