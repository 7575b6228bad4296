/** components/raop/raop.c: the base64 routines behind the Apple-Challenge exchange
    (alphabet and padding of section 4 of RFC 4648). Masks and shifts are written as / and %. */
module Base64 {
  import opened Memory

  datatype Result = Bytes(bytes: seq<byte>) | Failed

  const DECODE_ERROR: int := 0xFFFF_FFFF

  // ---------------------------------------------------------------- alphabet

  // base64_chars
  function CharOf(i: int): (c: char)
    requires 0 <= i < 64
    ensures c != '='
  {
    if i < 26 then 'A' + i as char
    else if i < 52 then 'a' + (i - 26) as char
    else if i < 62 then '0' + (i - 52) as char
    else if i == 62 then '+'
    else '/'
  }

  // The index of c in the alphabet, -1 without one.
  function PosOf(c: char): (i: int)
    ensures -1 <= i < 64
    ensures i >= 0 ==> CharOf(i) == c
  {
    if 'A' <= c <= 'Z' then (c - 'A') as int
    else if 'a' <= c <= 'z' then 26 + (c - 'a') as int
    else if '0' <= c <= '9' then 52 + (c - '0') as int
    else if c == '+' then 62
    else if c == '/' then 63
    else -1
  }

  lemma PosOfChar(i: int)
    requires 0 <= i < 64
    ensures PosOf(CharOf(i)) == i
  {
  }

  // pos
  method Pos(c: char) returns (i: int)
    ensures i == PosOf(c)
  {
    for p := 0 to 64
      invariant forall k :: 0 <= k < p ==> CharOf(k) != c
    {
      if CharOf(p) == c {
        PosOfChar(p);
        return p;
      }
    }
    i := -1;
  }

  // ---------------------------------------------------------------- encoding

  // Four characters of a 24-bit group.
  function Quad(c: int): (s: string)
    requires 0 <= c < 0x100_0000
    ensures |s| == 4
  {
    [CharOf(c / 0x4_0000 % 64), CharOf(c / 0x1000 % 64), CharOf(c / 64 % 64), CharOf(c % 64)]
  }

  function Group(a: byte, b: byte, c: byte): (g: int)
    ensures 0 <= g < 0x100_0000
  {
    a as int * 0x1_0000 + b as int * 0x100 + c as int
  }

  // The text of the first three bytes, or of what there is.
  function FirstGroup(d: seq<byte>): (s: string)
    requires d != []
    ensures |s| == 4
  {
    if |d| == 1 then Quad(Group(d[0], 0, 0))[..2] + "=="
    else if |d| == 2 then Quad(Group(d[0], d[1], 0))[..3] + "="
    else Quad(Group(d[0], d[1], d[2]))
  }

  function Encoded(d: seq<byte>): (s: string)
    ensures |s| == TextLength(|d|)
    decreases |d|
  {
    if d == [] then "" else FirstGroup(d) + Encoded(d[Min(3, |d|)..])
  }

  function TextLength(size: int): (n: nat)
    ensures n % 4 == 0
  {
    if size <= 0 then 0 else 4 + TextLength(size - 3)
  }

  lemma {:induction false} TextLengthIs(size: nat)
    ensures TextLength(size) == (size + 2) / 3 * 4
  {
    if size > 3 {
      TextLengthIs(size - 3);
    }
  }

  // The block base64_encode allocates holds the text and its terminator, with no byte to spare
  // exactly when one byte is left over.
  lemma AllocationFits(size: nat)
    ensures TextLength(size) + 1 <= size * 4 / 3 + 4
    ensures TextLength(size) + 1 == size * 4 / 3 + 4 <==> size % 3 == 1
  {
    TextLengthIs(size);
    var q, r := size / 3, size % 3;
    assert size == 3 * q + r;
    assert size * 4 / 3 == 4 * q + 4 * r / 3;
    assert (size + 2) / 3 == q + (r + 2) / 3;
  }

  // One turn of the loop of base64_encode.
  method EncodeGroup(data: seq<byte>, start: nat, out: array<char>, n: nat) returns (i: nat)
    requires start < |data| && n + 4 <= out.Length
    modifies out
    ensures i == start + 3
    ensures out[..n] == old(out[..n]) && out[n..n + 4] == FirstGroup(data[start..])
  {
    i := start;
    var size := |data|;
    ghost var d := data[start..];
    var c := data[i] as int * 256;
    i := i + 1;
    if i < size {
      c := c + data[i] as int;
    }
    i := i + 1;
    c := c * 256;
    if i < size {
      c := c + data[i] as int;
    }
    i := i + 1;
    assert c == Group(d[0], if |d| > 1 then d[1] else 0, if |d| > 2 then d[2] else 0);
    hide CharOf, Group;
    out[n] := CharOf(c / 0x4_0000 % 64);
    out[n + 1] := CharOf(c / 0x1000 % 64);
    out[n + 2] := CharOf(c / 64 % 64);
    out[n + 3] := CharOf(c % 64);
    assert out[n..n + 4] == Quad(c);
    if i > size {
      out[n + 3] := '=';
    }
    if i > size + 1 {
      out[n + 2] := '=';
    }
  }

  lemma EncodedStep(d: seq<byte>)
    requires d != []
    ensures Encoded(d) == FirstGroup(d) + Encoded(d[Min(3, |d|)..])
  {
  }

  lemma EncodedNothing(d: seq<byte>)
    requires d == []
    ensures Encoded(d) == ""
  {
  }

  // base64_encode: text in out[..n], terminator behind it.
  method Encode(data: seq<byte>) returns (out: array<char>, n: nat)
    ensures fresh(out) && out.Length == |data| * 4 / 3 + 4
    ensures n < out.Length && out[n] == '\0' && out[..n] == Encoded(data)
  {
    hide FirstGroup, TextLength, Encoded;
    var size := |data|;
    out := new char[size * 4 / 3 + 4];
    AllocationFits(size);
    n := 0;
    var i: nat := 0;
    assert data[0..] == data;
    while i < size
      invariant n <= TextLength(size)
      invariant Encoded(data) == out[..n] + Encoded(data[Min(i, size)..])
      decreases size - i
    {
      ghost var rest, done := data[i..], out[..n];
      EncodedStep(rest);
      i := EncodeGroup(data, i, out, n);
      n := n + 4;
      assert rest[Min(3, |rest|)..] == data[Min(i, size)..];
      assert out[..n] == done + FirstGroup(rest);
      assert done + FirstGroup(rest) + Encoded(data[Min(i, size)..]) == done + Encoded(rest);
    }
    assert Encoded(data[Min(i, size)..]) == "" by { EncodedNothing(data[Min(i, size)..]); }
    out[n] := '\0';
  }

  // ---------------------------------------------------------------- decoding

  // Bitwise or of two-bit numbers.
  function Or2(a: int, b: int): int
    requires 0 <= a < 4 && 0 <= b < 4
  {
    if a == b || b == 0 then a else if a == 0 then b else 3
  }

  // (marker << 24) | val
  function OrMarker(marker: int, val: int): (r: int)
    requires 0 <= marker < 4 && 0 <= val < WORD
    ensures 0 <= r < WORD
    ensures val < 0x100_0000 ==> r == marker * 0x100_0000 + val
  {
    var bits := val / 0x100_0000 % 4;
    val + (Or2(bits, marker) - bits) * 0x100_0000
  }

  // Conversion to unsigned int.
  function Wrap(x: int): (r: int)
    ensures 0 <= r < WORD
    ensures 0 <= x < WORD ==> r == x
  {
    x % WORD
  }

  // token_decode's loop from character i on: val wraps as unsigned, None is DECODE_ERROR.
  datatype Token = Token(val: int, marker: int) | BadToken

  function TokenFrom(s: string, i: nat, val: int, marker: int): (t: Token)
    requires i <= 4 <= |s| && 0 <= val < WORD && 0 <= marker <= i
    ensures t.Token? ==> 0 <= t.val < WORD && 0 <= t.marker <= 4
    decreases 4 - i
  {
    if i == 4 then Token(val, marker)
    else if s[i] == '=' then TokenFrom(s, i + 1, Wrap(val * 64), marker + 1)
    else if marker > 0 then BadToken
    else TokenFrom(s, i + 1, Wrap(Wrap(val * 64) + PosOf(s[i])), marker)
  }

  // token_decode of the string s.
  function TokenValue(s: string): (v: int)
    ensures 0 <= v < WORD
  {
    if |s| < 4 then DECODE_ERROR
    else
      var t := TokenFrom(s, 0, 0, 0);
      if t.BadToken? || t.marker > 2 then DECODE_ERROR else OrMarker(t.marker, t.val)
  }

  method TokenDecode(s: string) returns (r: int)
    ensures r == TokenValue(s)
  {
    hide PosOf, OrMarker, Wrap, TokenFrom;
    var val, marker := 0, 0;
    if |s| < 4 {
      return DECODE_ERROR;
    }
    var i := 0;
    while i < 4
      invariant 0 <= i <= 4 && 0 <= val < WORD && 0 <= marker <= i
      invariant TokenFrom(s, 0, 0, 0) == TokenFrom(s, i, val, marker)
    {
      TokenUnrolled(s, i, val, marker);
      val := Wrap(val * 64);
      if s[i] == '=' {
        marker := marker + 1;
      } else if marker > 0 {
        return DECODE_ERROR;
      } else {
        val := Wrap(val + PosOf(s[i]));
      }
      i := i + 1;
    }
    TokenUnrolled(s, 4, val, marker);
    if marker > 2 {
      return DECODE_ERROR;
    }
    r := OrMarker(marker, val);
  }

  lemma TokenUnrolled(s: string, i: nat, val: int, marker: int)
    requires i <= 4 <= |s| && 0 <= val < WORD && 0 <= marker <= i
    ensures TokenFrom(s, i, val, marker) ==
            if i == 4 then Token(val, marker)
            else if s[i] == '=' then TokenFrom(s, i + 1, Wrap(val * 64), marker + 1)
            else if marker > 0 then BadToken
            else TokenFrom(s, i + 1, Wrap(Wrap(val * 64) + PosOf(s[i])), marker)
  {
    hide Wrap, PosOf;
  }

  // The bytes base64_decode stores for one token.
  function TokenBytes(val: int): (b: seq<byte>)
    requires 0 <= val < WORD
  {
    var marker := val / 0x100_0000;
    [(val / 0x1_0000 % 256) as byte]
    + (if marker < 2 then [(val / 0x100 % 256) as byte] else [])
    + (if marker < 1 then [(val % 256) as byte] else [])
  }

  predicate Starts(c: char) {
    c == '=' || PosOf(c) >= 0
  }

  // What base64_decode makes of a string: it stops at the end or at a token that starts with
  // a foreign character, and fails at a token it cannot decode.
  function Decoded(s: string): Result
    decreases |s|
  {
    if s == "" || !Starts(s[0]) then Bytes([])
    else if TokenValue(s) == DECODE_ERROR then Failed
    else match Decoded(s[4..])
      case Bytes(rest) => Bytes(TokenBytes(TokenValue(s)) + rest)
      case Failed => Failed
  }

  // The bytes base64_decode stores, up to the end or the token it fails at.
  function Stores(s: string): seq<byte>
    decreases |s|
  {
    if s == "" || !Starts(s[0]) || TokenValue(s) == DECODE_ERROR then []
    else TokenBytes(TokenValue(s)) + Stores(s[4..])
  }

  // Never more than three bytes a token.
  lemma {:induction false} StoresBound(s: string)
    ensures |Stores(s)| <= |s| / 4 * 3
    decreases |s|
  {
    hide TokenValue, TokenBytes, Starts, Stores;
    StoresStep(s);
    TokenLength(s);
    if s != "" && TokenValue(s) != DECODE_ERROR {
      StoresBound(s[4..]);
    }
  }

  // base64_decode into a block that holds what it stores; -1 when it fails.
  method Decode(s: string, data: array<byte>) returns (n: int)
    requires |Stores(s)| <= data.Length
    modifies data
    ensures data[..|Stores(s)|] == Stores(s)
    ensures n == if Decoded(s) == Failed then -1 else |Stores(s)|
    ensures n >= 0 ==> Decoded(s) == Bytes(data[..n])
  {
    hide TokenValue, TokenBytes, Starts, Prefixed, Decoded, Stores;
    var p, q: nat := 0, 0;
    assert s[0..] == s;
    PrefixedTwice([], [], Decoded(s));
    while p < |s| && Starts(s[p])
      invariant 0 <= p <= |s| && q <= data.Length
      invariant Decoded(s) == Prefixed(data[..q], Decoded(s[p..]))
      invariant Stores(s) == data[..q] + Stores(s[p..])
      decreases |s| - p
    {
      var val := TokenDecode(s[p..]);
      DecodedStep(s[p..]);
      StoresStep(s[p..]);
      PrefixedTwice(data[..q], [], Failed);
      if val == DECODE_ERROR {
        return -1;
      }
      TokenLength(s[p..]);
      var b := TokenBytes(val);
      ghost var done := data[..q];
      assert s[p..][4..] == s[p + 4..];
      assert Stores(s) == done + (b + Stores(s[p + 4..])) == (done + b) + Stores(s[p + 4..]);
      forall k | 0 <= k < |b| {
        data[q + k] := b[k];
      }
      assert data[..q + |b|] == done + b;
      PrefixedTwice(done, b, Decoded(s[p + 4..]));
      q := q + |b|;
      p := p + 4;
    }
    DecodedStep(s[p..]);
    StoresStep(s[p..]);
    PrefixedTwice(data[..q], [], Bytes([]));
    n := q;
  }

  // What one token contributes.
  lemma DecodedStep(s: string)
    ensures Decoded(s) ==
            if s == "" || !Starts(s[0]) then Bytes([])
            else if TokenValue(s) == DECODE_ERROR then Failed
            else Prefixed(TokenBytes(TokenValue(s)), Decoded(s[4..]))
  {
  }

  lemma StoresStep(s: string)
    ensures Stores(s) == if s == "" || !Starts(s[0]) || TokenValue(s) == DECODE_ERROR then []
                         else TokenBytes(TokenValue(s)) + Stores(s[4..])
  {
  }

  function Prefixed(a: seq<byte>, r: Result): Result {
    match r
    case Bytes(b) => Bytes(a + b)
    case Failed => Failed
  }

  lemma PrefixedTwice(a: seq<byte>, b: seq<byte>, r: Result)
    ensures Prefixed(a, Prefixed(b, r)) == Prefixed(a + b, r)
    ensures Prefixed([], r) == r && Prefixed(a, Failed) == Failed && Prefixed(a, Bytes([])) == Bytes(a)
  {
    assert a + [] == a;
    if r.Bytes? {
      assert a + (b + r.bytes) == a + b + r.bytes;
    }
  }

  lemma TokenLength(s: string)
    ensures 0 <= TokenValue(s) < WORD
    ensures TokenValue(s) != DECODE_ERROR ==> |s| >= 4 && 1 <= |TokenBytes(TokenValue(s))| <= 3
  {
  }

  // ---------------------------------------------------------------- round trips

  // One character of a token.
  lemma TokenStep(s: string, i: nat, val: int, marker: int)
    requires i < 4 <= |s| && 0 <= val < 0x4_0000 && 0 <= marker <= i
    ensures s[i] == '=' ==> TokenFrom(s, i, val, marker) == TokenFrom(s, i + 1, val * 64, marker + 1)
    ensures s[i] != '=' && marker == 0 && PosOf(s[i]) >= 0 ==>
              TokenFrom(s, i, val, marker) == TokenFrom(s, i + 1, val * 64 + PosOf(s[i]), 0)
  {
    hide PosOf, Wrap, TokenFrom;
    TokenUnrolled(s, i, val, marker);
  }

  // Four characters whose first n are of the alphabet and whose others are padding.
  lemma TokenSpelled(s: string, n: nat, a: int, b: int, c: int, d: int)
    requires |s| >= 4 && 2 <= n <= 4
    requires 0 <= a < 64 && 0 <= b < 64 && 0 <= c < 64 && 0 <= d < 64
    requires PosOf(s[0]) == a && PosOf(s[1]) == b && s[0] != '=' && s[1] != '='
    requires if n >= 3 then PosOf(s[2]) == c && s[2] != '=' else s[2] == '=' && c == 0
    requires if n == 4 then PosOf(s[3]) == d && s[3] != '=' else s[3] == '=' && d == 0
    ensures TokenValue(s) == (4 - n) * 0x100_0000 + ((a * 64 + b) * 64 + c) * 64 + d
  {
    hide PosOf, OrMarker, TokenFrom;
    TokenStep(s, 0, 0, 0);
    TokenStep(s, 1, a, 0);
    TokenStep(s, 2, a * 64 + b, 0);
    TokenStep(s, 3, (a * 64 + b) * 64 + c, if n >= 3 then 0 else 1);
    TokenEnd(s, ((a * 64 + b) * 64 + c) * 64 + d, 4 - n);
  }

  lemma TokenEnd(s: string, val: int, marker: int)
    requires |s| >= 4 && 0 <= val < WORD && 0 <= marker <= 4
    ensures TokenFrom(s, 4, val, marker) == Token(val, marker)
  {
  }

  // The first token of an encoding gives back the bytes it was made of.
  lemma FirstToken(d: seq<byte>, rest: string)
    requires d != []
    ensures var s := FirstGroup(d) + rest;
            && Starts(s[0]) && TokenValue(s) != DECODE_ERROR
            && TokenBytes(TokenValue(s)) == d[..Min(3, |d|)]
  {
    var g := Group(d[0], if |d| > 1 then d[1] else 0, if |d| > 2 then d[2] else 0);
    var s := FirstGroup(d) + rest;
    Sextets(g);
    FirstGroupShape(d, g);
    GroupBytes(d, g);
    var n := if |d| == 1 then 2 else if |d| == 2 then 3 else 4;
    hide *;
    SpelledGroup(s, n, g, g / 0x4_0000 % 64, g / 0x1000 % 64, g / 64 % 64, g % 64);
  }

  lemma SpelledGroup(s: string, n: nat, g: int, a: int, b: int, c: int, e: int)
    requires |s| >= 4 && 2 <= n <= 4 && 0 <= a < 64 && 0 <= b < 64 && 0 <= c < 64 && 0 <= e < 64
    requires 0 <= g < 0x100_0000 && g == ((a * 64 + b) * 64 + c) * 64 + e
    requires PosOf(CharOf(a)) == a && PosOf(CharOf(b)) == b && PosOf(CharOf(c)) == c && PosOf(CharOf(e)) == e
    requires s[0] == CharOf(a) && s[1] == CharOf(b)
    requires if n >= 3 then s[2] == CharOf(c) else s[2] == '=' && c == 0
    requires if n == 4 then s[3] == CharOf(e) else s[3] == '=' && e == 0
    ensures Starts(s[0]) && TokenValue(s) != DECODE_ERROR && TokenValue(s) == (4 - n) * 0x100_0000 + g
  {
    hide PosOf, CharOf, TokenValue;
    TokenSpelled(s, n, a, b, c, e);
  }

  // The characters of the first group are those of its sextets, but for the signs.
  lemma FirstGroupShape(d: seq<byte>, g: int)
    requires d != [] && g == Group(d[0], if |d| > 1 then d[1] else 0, if |d| > 2 then d[2] else 0)
    ensures var s := FirstGroup(d);
            && s[0] == CharOf(g / 0x4_0000 % 64) && s[1] == CharOf(g / 0x1000 % 64)
            && (if |d| >= 2 then s[2] == CharOf(g / 64 % 64) else s[2] == '=' && g / 64 % 64 == 0)
            && (if |d| >= 3 then s[3] == CharOf(g % 64) else s[3] == '=' && g % 64 == 0)
  {
    hide CharOf;
    if |d| == 1 {
      DivModUnique(g, d[0] as int * 1024, 64, 0);
      DivModUnique(d[0] as int * 1024, d[0] as int * 16, 64, 0);
    } else if |d| == 2 {
      DivModUnique(g, d[0] as int * 1024 + d[1] as int * 4, 64, 0);
    }
  }

  // A 24-bit group is its four sextets.
  lemma Sextets(g: int)
    requires 0 <= g < 0x100_0000
    ensures g == ((g / 0x4_0000 % 64 * 64 + g / 0x1000 % 64) * 64 + g / 64 % 64) * 64 + g % 64
    ensures PosOf(CharOf(g / 0x4_0000 % 64)) == g / 0x4_0000 % 64
    ensures PosOf(CharOf(g / 0x1000 % 64)) == g / 0x1000 % 64
    ensures PosOf(CharOf(g / 64 % 64)) == g / 64 % 64
    ensures PosOf(CharOf(g % 64)) == g % 64
  {
    hide PosOf, CharOf;
    SextetSum(g);
    PosOfChar(g / 0x4_0000 % 64);
    PosOfChar(g / 0x1000 % 64);
    PosOfChar(g / 64 % 64);
    PosOfChar(g % 64);
  }

  lemma SextetSum(g: int)
    requires 0 <= g < 0x100_0000
    ensures g == ((g / 0x4_0000 % 64 * 64 + g / 0x1000 % 64) * 64 + g / 64 % 64) * 64 + g % 64
  {
    var a, d := g / 64, g % 64;
    var b, e := a / 64, a % 64;
    var c, f := b / 64, b % 64;
    assert g == 64 * a + d && a == 64 * b + e && b == 64 * c + f;
    DivModUnique(g, b, 0x1000, 64 * e + d);
    DivModUnique(g, c, 0x4_0000, 0x1000 * f + 64 * e + d);
  }

  // ... and, with the marker above it, its three bytes.
  lemma ThreeBytes(m: int, a: int, b: int, c: int)
    requires 0 <= m < 4 && 0 <= a < 256 && 0 <= b < 256 && 0 <= c < 256
    ensures var v := m * 0x100_0000 + (a * 0x1_0000 + b * 0x100 + c);
            v / 0x100_0000 == m && v / 0x1_0000 % 256 == a && v / 0x100 % 256 == b && v % 256 == c
  {
    var v := m * 0x100_0000 + (a * 0x1_0000 + b * 0x100 + c);
    DivModUnique(v, m, 0x100_0000, a * 0x1_0000 + b * 0x100 + c);
    DivModUnique(v, m * 256 + a, 0x1_0000, b * 0x100 + c);
    DivModUnique(v, (m * 256 + a) * 256 + b, 0x100, c);
    DivModUnique(m * 256 + a, m, 256, a);
    DivModUnique((m * 256 + a) * 256 + b, m * 256 + a, 256, b);
  }

  lemma GroupBytes(d: seq<byte>, g: int)
    requires d != []
    requires g == Group(d[0], if |d| > 1 then d[1] else 0, if |d| > 2 then d[2] else 0)
    ensures TokenBytes((if |d| == 1 then 2 else if |d| == 2 then 1 else 0) * 0x100_0000 + g) == d[..Min(3, |d|)]
  {
    var m := if |d| == 1 then 2 else if |d| == 2 then 1 else 0;
    ThreeBytes(m, d[0] as int, if |d| > 1 then d[1] as int else 0, if |d| > 2 then d[2] as int else 0);
    StoredBytes(m * 0x100_0000 + g, m, d[0], if |d| > 1 then d[1] else 0, if |d| > 2 then d[2] else 0);
    if |d| == 1 {
      assert d[..1] == [d[0]];
    } else if |d| == 2 {
      assert d[..2] == [d[0], d[1]];
    } else {
      assert d[..3] == [d[0], d[1], d[2]];
    }
  }

  lemma StoredBytes(v: int, m: int, a: byte, b: byte, c: byte)
    requires 0 <= v < WORD && 0 <= m <= 2
    requires v / 0x100_0000 == m && v / 0x1_0000 % 256 == a as int && v / 0x100 % 256 == b as int && v % 256 == c as int
    ensures TokenBytes(v) == if m == 2 then [a] else if m == 1 then [a, b] else [a, b, c]
  {
  }

  // Decoding an encoding gives back the bytes and carries on with what follows.
  lemma {:induction false} DecodesThen(d: seq<byte>, tail: string)
    ensures Decoded(Encoded(d) + tail) == Prefixed(d, Decoded(tail))
    decreases |d|
  {
    hide FirstGroup, TokenValue, TokenBytes, Starts, Decoded, Prefixed, Encoded;
    if d == [] {
      EncodedNothing(d);
      assert Encoded(d) + tail == tail;
      PrefixedTwice([], [], Decoded(tail));
    } else {
      var k := Min(3, |d|);
      var s := Encoded(d[k..]) + tail;
      EncodedStep(d);
      assert Encoded(d) + tail == FirstGroup(d) + s;
      assert (FirstGroup(d) + s)[4..] == s;
      FirstToken(d, s);
      DecodesThen(d[k..], tail);
      DecodedStep(FirstGroup(d) + s);
      PrefixedTwice(d[..k], d[k..], Decoded(tail));
      assert d == d[..k] + d[k..];
    }
  }

  // ... and stores them in front of what that stores.
  lemma {:induction false} StoresThen(d: seq<byte>, tail: string)
    ensures Stores(Encoded(d) + tail) == d + Stores(tail)
    decreases |d|
  {
    hide FirstGroup, TokenValue, TokenBytes, Starts, Stores, Encoded;
    if d == [] {
      EncodedNothing(d);
      assert Encoded(d) + tail == tail;
    } else {
      var k := Min(3, |d|);
      var s := Encoded(d[k..]) + tail;
      EncodedStep(d);
      assert Encoded(d) + tail == FirstGroup(d) + s;
      assert (FirstGroup(d) + s)[4..] == s;
      FirstToken(d, s);
      StoresThen(d[k..], tail);
      StoresStep(FirstGroup(d) + s);
      Joined(d, k, Stores(tail));
    }
  }

  lemma Joined(d: seq<byte>, k: nat, rest: seq<byte>)
    requires k <= |d|
    ensures d[..k] + (d[k..] + rest) == d + rest
  {
  }

  // Decoding an encoding gives back the bytes and their number, whatever their number.
  lemma RoundTrip(d: seq<byte>)
    ensures Decoded(Encoded(d)) == Bytes(d)
  {
    DecodesThen(d, "");
    assert Encoded(d) + "" == Encoded(d);
  }

  // ---------------------------------------------------------------- padding

  function Equals(n: nat): (s: string) {
    seq(n, _ => '=')
  }

  // base64_pad: strlen % 4 signs are added, which is what is missing only for remainders 0 and 2.
  function Padded(s: string): string {
    s + Equals(|s| % 4)
  }

  // The loop after base64_encode that drops trailing signs, but never the first character.
  function Stripped(s: string): string
    decreases |s|
  {
    if |s| > 1 && s[|s| - 1] == '=' then Stripped(s[..|s| - 1]) else s
  }

  // base64_pad
  method Pad(src: string) returns (padded: array<char>)
    ensures fresh(padded) && padded.Length == |Padded(src)| + 1
    ensures padded[..|Padded(src)|] == Padded(src) && padded[|Padded(src)|] == '\0'
  {
    var n := |src| + |src| % 4;
    padded := new char[n + 1](_ => '=');
    forall i | 0 <= i < |src| {
      padded[i] := src[i];
    }
    padded[n] := '\0';
  }

  // The stripping loop on the text text[..len]: signs become terminators.
  method StripInPlace(text: array<char>, len: nat) returns (n: nat)
    requires len < text.Length
    modifies text
    ensures n <= len && text[..n] == Stripped(old(text[..len]))
    ensures n < len ==> text[n] == '\0'
  {
    n := len;
    ghost var before := text[..len];
    assert before[..len] == before;
    while n > 1 && text[n - 1] == '='
      invariant n <= len && text[..n] == before[..n]
      invariant Stripped(before[..n]) == Stripped(before)
      invariant n < len ==> text[n] == '\0'
    {
      assert before[..n][..n - 1] == before[..n - 1];
      text[n - 1] := '\0';
      n := n - 1;
    }
  }

  // How many signs an encoding ends with.
  function Signs(d: seq<byte>): nat {
    (3 - |d| % 3) % 3
  }

  lemma StripOne(s: string)
    requires s != ""
    ensures Stripped(s + "=") == Stripped(s)
  {
    assert (s + "=")[..|s|] == s;
  }

  // An encoding is its characters of the alphabet and then its signs.
  lemma {:induction false} CoreOf(d: seq<byte>)
    requires d != []
    ensures var s := Encoded(d);
            && |s| >= Signs(d) + 2 && s[|s| - Signs(d)..] == Equals(Signs(d))
            && s[|s| - Signs(d) - 1] != '='
    decreases |d|
  {
    EncodedStep(d);
    if |d| > 3 {
      SameSigns(d);
      hide FirstGroup, Encoded, TextLength, Signs;
      CoreOf(d[3..]);
      var s, rest := Encoded(d), Encoded(d[3..]);
      assert s[|s| - Signs(d)..] == rest[|rest| - Signs(d)..];
    } else {
      EncodedNothing(d[|d|..]);
      assert Encoded(d) == FirstGroup(d);
      CoreOfGroup(d);
    }
  }

  lemma CoreOfGroup(d: seq<byte>)
    requires 0 < |d| <= 3
    ensures var s := FirstGroup(d);
            s[4 - Signs(d)..] == Equals(Signs(d)) && s[4 - Signs(d) - 1] != '='
  {
    var g := Group(d[0], if |d| > 1 then d[1] else 0, if |d| > 2 then d[2] else 0);
    FirstGroupShape(d, g);
    hide CharOf, FirstGroup, Group;
    if |d| == 1 {
      assert Signs(d) == 2;
    } else if |d| == 2 {
      assert Signs(d) == 1;
    } else {
      assert Signs(d) == 0;
    }
  }

  lemma SameSigns(d: seq<byte>)
    requires |d| > 3
    ensures Signs(d[3..]) == Signs(d)
  {
  }

  // Stripping an encoding drops exactly its signs.
  lemma StrippedEncoding(d: seq<byte>) returns (core: string)
    ensures core == Stripped(Encoded(d)) && Encoded(d) == core + Equals(Signs(d))
    ensures |core| % 4 == if Signs(d) == 0 then 0 else 4 - Signs(d)
  {
    if d == [] {
      core := "";
      EncodedNothing(d);
    } else {
      core := StrippedSome(d);
    }
  }

  lemma StrippedSome(d: seq<byte>) returns (core: string)
    requires d != []
    ensures core == Stripped(Encoded(d)) && Encoded(d) == core + Equals(Signs(d))
    ensures |core| % 4 == if Signs(d) == 0 then 0 else 4 - Signs(d)
  {
    hide Encoded, Signs, TextLength, Stripped, Equals;
    CoreOf(d);
    var s, k := Encoded(d), Signs(d);
    SignsOf(d);
    core := s[..|s| - k];
    CutSigns(s, k);
    StripSigns(core, k);
    LessThanFour(|s|, k);
  }

  lemma CutSigns(s: string, k: nat)
    requires |s| >= k + 2 && s[|s| - k..] == Equals(k)
    ensures s == s[..|s| - k] + Equals(k)
    ensures s[..|s| - k][|s| - k - 1] == s[|s| - k - 1]
  {
    hide Equals;
  }

  lemma LessThanFour(n: nat, k: nat)
    requires n % 4 == 0 && k <= 2 && k <= n
    ensures (n - k) % 4 == if k == 0 then 0 else 4 - k
  {
  }

  lemma StripSigns(core: string, k: nat)
    requires |core| >= 2 && core[|core| - 1] != '=' && k <= 2
    ensures Stripped(core + Equals(k)) == core
  {
    if k == 0 {
      assert core + Equals(0) == core;
    } else if k == 1 {
      StripOne(core);
      assert core + Equals(1) == core + "=";
    } else {
      StripOne(core);
      StripOne(core + "=");
      assert core + Equals(2) == core + "=" + "=";
    }
  }

  // Stripping, padding and decoding gives the bytes back unless their number leaves two over:
  // then three signs are added where one is missing, and decoding fails.
  lemma PaddedRoundTrip(d: seq<byte>)
    ensures Decoded(Padded(Stripped(Encoded(d)))) == if |d| % 3 == 2 then Failed else Bytes(d)
  {
    var core := StrippedEncoding(d);
    SignsOf(d);
    hide Encoded, Stripped, Signs, Decoded, TextLength;
    PadCore(core, Encoded(d), Signs(d));
    if Signs(d) == 1 {
      DecodesThen(d, "==");
      ShortToken();
      PrefixedTwice(d, [], Failed);
    } else {
      RoundTrip(d);
    }
  }

  // Whether decoding fails or not, it stores the bytes that were encoded: a block is large enough for the
  // stripped encoding exactly when it holds them.
  lemma PaddedStores(d: seq<byte>)
    ensures Stores(Padded(Stripped(Encoded(d)))) == d
  {
    var core := StrippedEncoding(d);
    SignsOf(d);
    hide Encoded, Stripped, Signs, Stores, TextLength;
    PadCore(core, Encoded(d), Signs(d));
    if Signs(d) == 1 {
      StoresThen(d, "==");
      StoresStep("==");
      assert TokenValue("==") == DECODE_ERROR;
    } else {
      StoresThen(d, "");
      StoresStep("");
      assert Encoded(d) + "" == Encoded(d);
    }
    assert d + [] == d;
  }

  lemma PadCore(core: string, s: string, k: nat)
    requires s == core + Equals(k) && k <= 2 && |core| % 4 == if k == 0 then 0 else 4 - k
    ensures Padded(core) == if k == 1 then s + "==" else s
  {
    if k == 1 {
      assert Equals(3) == Equals(1) + "==";
      assert core + (Equals(1) + "==") == (core + Equals(1)) + "==";
    }
  }

  lemma ShortToken()
    ensures Decoded("==") == Failed
  {
    DecodedStep("==");
  }

  lemma SignsOf(d: seq<byte>)
    ensures Signs(d) <= 2 && (Signs(d) == 1 <==> |d| % 3 == 2)
  {
  }
}
