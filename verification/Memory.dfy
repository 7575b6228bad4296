// Bytes, fixed-width words and the C memory primitives the firmware relies on.
module Memory {
  newtype byte = x: int | 0 <= x < 256

  // Number of distinct values of the ESP32's 32-bit size_t / uint32_t.
  const WORD: int := 0x1_0000_0000

  // No heap block can reach half the address space.
  const MAX_BLOCK: int := 0x8000_0000

  function Min(a: int, b: int): (m: int)
    ensures m <= a && m <= b && (m == a || m == b)
  {
    if a <= b then a else b
  }

  function Max(a: int, b: int): (m: int)
    ensures a <= m && b <= m && (m == a || m == b)
  {
    if a <= b then b else a
  }

  // The block s after the n bytes at src are copied to dst.
  function Copied(s: seq<byte>, dst: nat, src: nat, n: nat): (t: seq<byte>)
    requires dst + n <= |s| && src + n <= |s|
    ensures |t| == |s|
  {
    seq(|s|, i requires 0 <= i < |s| => if dst <= i < dst + n then s[src + (i - dst)] else s[i])
  }

  // The block s after new bytes are stored at dst.
  function Stored(s: seq<byte>, dst: nat, bytes: seq<byte>): (t: seq<byte>)
    requires dst + |bytes| <= |s|
    ensures |t| == |s|
  {
    seq(|s|, i requires 0 <= i < |s| => if dst <= i < dst + |bytes| then bytes[i - dst] else s[i])
  }

  // memmove within one array: source and destination may overlap.
  method MemMove(a: array<byte>, dst: nat, src: nat, n: nat)
    requires dst + n <= a.Length && src + n <= a.Length
    modifies a
    ensures a[..] == Copied(old(a[..]), dst, src, n)
  {
    forall i | dst <= i < dst + n {
      a[i] := a[src + (i - dst)];
    }
  }

  // memcpy within one array: undefined when the ranges overlap, hence the third precondition.
  method MemCpy(a: array<byte>, dst: nat, src: nat, n: nat)
    requires dst + n <= a.Length && src + n <= a.Length
    requires dst + n <= src || src + n <= dst || n == 0
    modifies a
    ensures a[..] == Copied(old(a[..]), dst, src, n)
  {
    MemMove(a, dst, src, n);
  }

  // memcpy from another block.
  method Store(a: array<byte>, dst: nat, bytes: seq<byte>)
    requires dst + |bytes| <= a.Length
    modifies a
    ensures a[..] == Stored(old(a[..]), dst, bytes)
  {
    forall i | dst <= i < dst + |bytes| {
      a[i] := bytes[i - dst];
    }
  }

  lemma MultipleAway(k: int, d: int)
    requires 0 < d
    ensures k >= 1 ==> k * d >= d
    ensures k <= -1 ==> k * d <= -d
  {
    if k >= 1 {
      assert (k - 1) * d >= 0;
    } else if k <= -1 {
      assert (-k - 1) * d >= 0;
    }
  }

  lemma QuotientUnique(q: int, r: int, q': int, r': int, d: int)
    requires 0 <= r < d && 0 <= r' < d && q * d + r == q' * d + r'
    ensures q == q' && r == r'
  {
    assert (q - q') * d == r' - r;
    MultipleAway(q - q', d);
  }

  // The quotient and the remainder of a division are the only such pair.
  lemma DivModUnique(x: int, q: int, d: int, r: int)
    requires 0 <= r < d && x == q * d + r
    ensures x / d == q && x % d == r
  {
    QuotientUnique(q, r, x / d, x % d, d);
  }

  lemma DivBound(n: nat, d: nat, k: nat)
    requires 0 < d
    ensures k * d <= n <==> k <= n / d
  {
    DivSplit(n, d);
    MultipleAway(k - n / d, d);
    Distribute(k, n / d, d);
  }

  lemma DivSplit(n: nat, d: nat)
    requires 0 < d
    ensures 0 <= n - n / d * d < d
  {
  }

  lemma MulMonotonic(a: nat, b: nat, c: nat)
    requires a <= b
    ensures a * c <= b * c && c * b == b * c
  {
    assert (b - a) * c >= 0;
    Distribute(b, a, c);
  }

  lemma Successor(a: int, d: int)
    ensures (a + 1) * d == a * d + d
  {
  }

  lemma Distribute(a: int, b: int, d: int)
    ensures (a - b) * d == a * d - b * d
  {
  }
}
