/** components/raop/raop.c: what the base64 text of some bytes is, and which texts decode, in the terms
    of section 4 of RFC 4648. */
module Base64Text {
  import opened Base64
  import opened Memory

  // Table 1 of RFC 4648.
  const CAPITALS := "ABCDEFGHIJKLMNOPQRSTUVWXYZ"
  const SMALL := "abcdefghijklmnopqrstuvwxyz"
  const OTHERS := "0123456789+/"
  const ALPHABET := CAPITALS + SMALL + OTHERS

  lemma AlphabetIs(i: int)
    requires 0 <= i < 64
    ensures |ALPHABET| == 64 && CharOf(i) == ALPHABET[i]
  {
    hide CAPITALS, SMALL, OTHERS;
    Capitals(i);
    Smalls(i - 26);
    Digits(i - 52);
  }

  lemma Capitals(i: int)
    ensures |CAPITALS| == 26 && (0 <= i < 26 ==> CAPITALS[i] == 'A' + i as char)
  {
    assert |CAPITALS| == 26;
    assert CAPITALS[0] == 'A' && CAPITALS[1] == 'B' && CAPITALS[2] == 'C' && CAPITALS[3] == 'D' && CAPITALS[4] == 'E';
  }

  lemma Smalls(i: int)
    ensures |SMALL| == 26 && (0 <= i < 26 ==> SMALL[i] == 'a' + i as char)
  {
    assert |SMALL| == 26;
    assert SMALL[0] == 'a' && SMALL[1] == 'b' && SMALL[2] == 'c' && SMALL[3] == 'd' && SMALL[4] == 'e';
  }

  lemma Digits(i: int)
    ensures |OTHERS| == 12 && (0 <= i < 10 ==> OTHERS[i] == '0' + i as char) && OTHERS[10] == '+' && OTHERS[11] == '/'
  {
  }

  // ---------------------------------------------------------------- bits

  function Power2(n: nat): (p: int)
    ensures p > 0
  {
    if n == 0 then 1 else 2 * Power2(n - 1)
  }

  // Bit j of the bytes, most significant first; zeros behind them.
  function BitAt(d: seq<byte>, j: nat): (b: int)
    ensures 0 <= b <= 1
  {
    if j / 8 < |d| then d[j / 8] as int / Power2(7 - j % 8) % 2 else 0
  }

  // Bits 6k to 6k + 5.
  function Sextet(d: seq<byte>, k: nat): (v: int)
    ensures 0 <= v < 64
  {
    32 * BitAt(d, 6 * k) + 16 * BitAt(d, 6 * k + 1) + 8 * BitAt(d, 6 * k + 2)
    + 4 * BitAt(d, 6 * k + 3) + 2 * BitAt(d, 6 * k + 4) + BitAt(d, 6 * k + 5)
  }

  // Four characters for three bytes or what is left of them. Each character that some bit of the bytes falls
  // to is the one of the alphabet at its six bits; the others are signs.
  lemma {:induction false} EncodedIs(d: seq<byte>, k: nat)
    requires k < (|d| + 2) / 3 * 4
    ensures |Encoded(d)| == (|d| + 2) / 3 * 4
    ensures Encoded(d)[k] == if 6 * k < 8 * |d| then ALPHABET[Sextet(d, k)] else '='
    decreases |d|
  {
    hide FirstGroup, Sextet;
    TextLengthIs(|d|);
    EncodedStep(d);
    if k < 4 {
      FirstFour(d, k);
    } else {
      EncodedIs(d[3..], k - 4);
      SextetBehind(d, k);
    }
  }

  lemma SextetBehind(d: seq<byte>, k: nat)
    requires k >= 4 && |d| >= 3
    ensures Sextet(d[3..], k - 4) == Sextet(d, k)
  {
    hide BitAt;
    BitBehind(d, 6 * k);
    BitBehind(d, 6 * k + 1);
    BitBehind(d, 6 * k + 2);
    BitBehind(d, 6 * k + 3);
    BitBehind(d, 6 * k + 4);
    BitBehind(d, 6 * k + 5);
  }

  lemma BitBehind(d: seq<byte>, j: nat)
    requires j >= 24 && |d| >= 3
    ensures BitAt(d[3..], j - 24) == BitAt(d, j)
  {
    hide Power2;
    assert (j - 24) / 8 == j / 8 - 3 && (j - 24) % 8 == j % 8;
  }

  lemma FirstFour(d: seq<byte>, k: nat)
    requires d != [] && k < 4
    ensures FirstGroup(d)[k] == if 6 * k < 8 * |d| then ALPHABET[Sextet(d, k)] else '='
  {
    hide CharOf, Sextet, Group, FirstGroup, ALPHABET;
    var a, b, c := d[0], if |d| > 1 then d[1] else 0, if |d| > 2 then d[2] else 0;
    var g := Group(a, b, c);
    FirstGroupShape(d, g);
    GroupIs(a, b, c);
    SextetsOf(d, a as int, b as int, c as int);
    AlphabetIs(g / 0x4_0000 % 64);
    AlphabetIs(g / 0x1000 % 64);
    AlphabetIs(g / 64 % 64);
    AlphabetIs(g % 64);
  }

  lemma GroupIs(a: byte, b: byte, c: byte)
    ensures var g := Group(a, b, c);
            && g / 0x4_0000 % 64 == a as int / 4 && g / 0x1000 % 64 == a as int % 4 * 16 + b as int / 16
            && g / 64 % 64 == b as int % 16 * 4 + c as int / 64 && g % 64 == c as int % 64
  {
    GroupSextets(a as int, b as int, c as int);
  }

  lemma GroupSextets(a: int, b: int, c: int)
    requires 0 <= a < 256 && 0 <= b < 256 && 0 <= c < 256
    ensures var g := a * 0x1_0000 + b * 0x100 + c;
            && g / 0x4_0000 % 64 == a / 4 && g / 0x1000 % 64 == a % 4 * 16 + b / 16
            && g / 64 % 64 == b % 16 * 4 + c / 64 && g % 64 == c % 64
  {
    var g := a * 0x1_0000 + b * 0x100 + c;
    DivModUnique(g, a / 4, 0x4_0000, a % 4 * 0x1_0000 + b * 0x100 + c);
    DivModUnique(g, a * 16 + b / 16, 0x1000, b % 16 * 0x100 + c);
    DivModUnique(a * 16 + b / 16, a / 4, 64, a % 4 * 16 + b / 16);
    DivModUnique(g, a * 0x400 + b * 4 + c / 64, 64, c % 64);
    DivModUnique(a * 0x400 + b * 4 + c / 64, a * 16 + b / 16, 64, b % 16 * 4 + c / 64);
  }

  // The first four sextets, byte by byte.
  lemma SextetsOf(d: seq<byte>, a: int, b: int, c: int)
    requires d != [] && a == d[0] as int && b == (if |d| > 1 then d[1] as int else 0)
    requires c == if |d| > 2 then d[2] as int else 0
    ensures Sextet(d, 0) == a / 4 && Sextet(d, 1) == a % 4 * 16 + b / 16
    ensures Sextet(d, 2) == b % 16 * 4 + c / 64 && Sextet(d, 3) == c % 64
  {
    FirstTwo(d, a, b);
    LastTwo(d, b, c);
  }

  lemma FirstTwo(d: seq<byte>, a: int, b: int)
    requires d != [] && a == d[0] as int && b == (if |d| > 1 then d[1] as int else 0)
    ensures Sextet(d, 0) == a / 4 && Sextet(d, 1) == a % 4 * 16 + b / 16
  {
    hide BitAt;
    ByteAt(d, 0, a);
    ByteAt(d, 1, b);
    ByteBits(a);
    ByteBits(b);
  }

  lemma LastTwo(d: seq<byte>, b: int, c: int)
    requires d != [] && b == (if |d| > 1 then d[1] as int else 0) && c == if |d| > 2 then d[2] as int else 0
    ensures Sextet(d, 2) == b % 16 * 4 + c / 64 && Sextet(d, 3) == c % 64
  {
    hide BitAt;
    ByteAt(d, 1, b);
    ByteAt(d, 2, c);
    ByteBits(b);
    ByteBits(c);
  }

  lemma ByteAt(d: seq<byte>, n: nat, a: int)
    requires a == if n < |d| then d[n] as int else 0
    ensures BitAt(d, 8 * n) == a / 128 % 2 && BitAt(d, 8 * n + 1) == a / 64 % 2
    ensures BitAt(d, 8 * n + 2) == a / 32 % 2 && BitAt(d, 8 * n + 3) == a / 16 % 2
    ensures BitAt(d, 8 * n + 4) == a / 8 % 2 && BitAt(d, 8 * n + 5) == a / 4 % 2
    ensures BitAt(d, 8 * n + 6) == a / 2 % 2 && BitAt(d, 8 * n + 7) == a % 2
  {
    Powers();
    hide BitAt;
    BitOf(d, n, 0);
    BitOf(d, n, 1);
    BitOf(d, n, 2);
    BitOf(d, n, 3);
    BitOf(d, n, 4);
    BitOf(d, n, 5);
    BitOf(d, n, 6);
    BitOf(d, n, 7);
  }

  lemma BitOf(d: seq<byte>, n: nat, i: nat)
    requires i < 8
    ensures BitAt(d, 8 * n + i) == if n < |d| then d[n] as int / Power2(7 - i) % 2 else 0
  {
    hide Power2;
    DivModUnique(8 * n + i, n, 8, i);
  }

  lemma Powers()
    ensures Power2(0) == 1 && Power2(1) == 2 && Power2(2) == 4 && Power2(3) == 8
    ensures Power2(4) == 16 && Power2(5) == 32 && Power2(6) == 64 && Power2(7) == 128
  {
    assert Power2(4) == 16;
  }

  lemma ByteBits(a: int)
    requires 0 <= a < 256
    ensures a / 4 == 32 * (a / 128 % 2) + 16 * (a / 64 % 2) + 8 * (a / 32 % 2)
                     + 4 * (a / 16 % 2) + 2 * (a / 8 % 2) + a / 4 % 2
    ensures a % 4 == 2 * (a / 2 % 2) + a % 2
    ensures a / 16 == 8 * (a / 128 % 2) + 4 * (a / 64 % 2) + 2 * (a / 32 % 2) + a / 16 % 2
    ensures a % 16 == 8 * (a / 8 % 2) + 4 * (a / 4 % 2) + 2 * (a / 2 % 2) + a % 2
    ensures a / 64 == 2 * (a / 128 % 2) + a / 64 % 2
    ensures a % 64 == 32 * (a / 32 % 2) + 16 * (a / 16 % 2) + 8 * (a / 8 % 2)
                      + 4 * (a / 4 % 2) + 2 * (a / 2 % 2) + a % 2
  {
    Halved(a, 1);
    Halved(a, 2);
    Halved(a, 4);
    Halved(a, 8);
    Halved(a, 16);
    Halved(a, 32);
    Halved(a, 64);
    assert a / 128 % 2 == a / 128;
    Rests(a);
  }

  lemma Halved(a: int, p: int)
    requires 0 <= a && p in {1, 2, 4, 8, 16, 32, 64}
    ensures a / p == 2 * (a / (2 * p)) + a / p % 2
  {
    match p
    case 1 =>
    case 2 =>
    case 4 =>
    case 8 =>
    case 16 =>
    case 32 =>
    case 64 =>
  }

  lemma Rests(a: int)
    requires 0 <= a
    ensures a == 4 * (a / 4) + a % 4 == 16 * (a / 16) + a % 16 == 64 * (a / 64) + a % 64
  {
  }

  // ---------------------------------------------------------------- what decodes

  // Four characters of the alphabet are decoded exactly when the signs among them stand at the end and are
  // at most two.
  lemma TokenExactly(s: string)
    requires |s| >= 4 && forall i :: 0 <= i < 4 ==> s[i] == '=' || s[i] in ALPHABET
    ensures TokenValue(s) != DECODE_ERROR
       <==> s[0] != '=' && s[1] != '=' && (s[2] == '=' ==> s[3] == '=')
  {
    if s[0] != '=' && s[1] != '=' && (s[2] == '=' ==> s[3] == '=') {
      TokenTaken(s);
    } else {
      TokenRefused(s);
    }
  }

  predicate Tokens(s: string) {
    && |s| % 4 == 0
    && forall k :: 0 <= k < |s| / 4 ==> Proper(s, 4 * k)
  }

  predicate Proper(s: string, i: nat)
    requires i + 4 <= |s|
  {
    s[i] != '=' && s[i + 1] != '=' && (s[i + 2] == '=' ==> s[i + 3] == '=')
  }

  // A text of such characters decodes exactly when it is a number of whole tokens, each of that form.
  lemma {:induction false} DecodesExactly(s: string)
    requires forall i :: 0 <= i < |s| ==> s[i] == '=' || s[i] in ALPHABET
    ensures Decoded(s) != Failed <==> Tokens(s)
    decreases |s|
  {
    hide TokenValue, Starts, Decoded, Tokens, ALPHABET;
    DecodedStep(s);
    if s == "" {
      NoTokens(s);
    } else {
      StartsSo(s[0]);
      if |s| < 4 {
        TokenLength(s);
        NoTokens(s);
      } else {
        TokenExactly(s);
        DecodesExactly(s[4..]);
        OneToken(s);
      }
    }
  }

  lemma NoTokens(s: string)
    requires |s| < 4
    ensures Tokens(s) <==> s == ""
  {
  }

  lemma OneToken(s: string)
    requires |s| >= 4
    ensures Tokens(s) <==> Proper(s, 0) && Tokens(s[4..])
  {
    var rest := s[4..];
    if Tokens(s) {
      assert Proper(s, 4 * 0);
      forall k | 0 <= k < |rest| / 4
        ensures Proper(rest, 4 * k)
      {
        assert Proper(s, 4 * (k + 1));
      }
    }
    if Proper(s, 0) && Tokens(rest) {
      forall k | 0 <= k < |s| / 4
        ensures Proper(s, 4 * k)
      {
        if k > 0 {
          assert Proper(rest, 4 * (k - 1));
        }
      }
    }
  }

  lemma StartsSo(c: char)
    ensures Starts(c) <==> c == '=' || c in ALPHABET
  {
    hide CharOf, PosOf;
    if c in ALPHABET {
      InAlphabet(c);
    } else if PosOf(c) >= 0 {
      AlphabetIs(PosOf(c));
    }
  }

  // What a token that starts with a foreign character ends is decoded all the same.
  lemma ForeignEnds(d: seq<byte>, tail: string)
    requires tail != "" && tail[0] != '=' && tail[0] !in ALPHABET
    ensures Decoded(Encoded(d) + tail) == Bytes(d)
  {
    hide Starts, Encoded;
    DecodesThen(d, tail);
    StartsSo(tail[0]);
    PrefixedTwice(d, [], Failed);
  }

  lemma TokenTaken(s: string)
    requires |s| >= 4 && forall i :: 0 <= i < 4 ==> s[i] == '=' || s[i] in ALPHABET
    requires s[0] != '=' && s[1] != '=' && (s[2] == '=' ==> s[3] == '=')
    ensures TokenValue(s) != DECODE_ERROR
  {
    hide PosOf, TokenValue;
    var n := if s[2] == '=' then 2 else if s[3] == '=' then 3 else 4;
    InAlphabet(s[0]);
    InAlphabet(s[1]);
    if n >= 3 {
      InAlphabet(s[2]);
    }
    if n == 4 {
      InAlphabet(s[3]);
    }
    TokenSpelled(s, n, PosOf(s[0]), PosOf(s[1]), if n >= 3 then PosOf(s[2]) else 0, if n == 4 then PosOf(s[3]) else 0);
  }

  lemma TokenRefused(s: string)
    requires |s| >= 4 && (s[0] == '=' || s[1] == '=' || (s[2] == '=' && s[3] != '='))
    ensures TokenValue(s) == DECODE_ERROR
  {
    hide PosOf, OrMarker;
  }

  lemma InAlphabet(c: char)
    requires c in ALPHABET
    ensures PosOf(c) >= 0 && ALPHABET[PosOf(c)] == c
  {
    var i :| 0 <= i < |ALPHABET| && ALPHABET[i] == c;
    AlphabetIs(i);
    PosOfChar(i);
    hide CharOf, PosOf;
  }

  // A foreign character behind the first of a token is not noticed: one byte of ones is stored.
  lemma ForeignAccepted()
    ensures Decoded("A*AA") == Bytes([255])
  {
    hide TokenValue, Starts;
    ForeignToken();
    StartsA();
    DecodedStep("A*AA");
    assert "A*AA"[4..] == "";
    assert TokenBytes(0xFFFF_F000) == [255];
  }

  lemma StartsA()
    ensures Starts("A*AA"[0])
  {
  }

  lemma ForeignToken()
    ensures TokenValue("A*AA") == 0xFFFF_F000
  {
    hide TokenFrom;
    TokenUnrolled("A*AA", 0, 0, 0);
    TokenUnrolled("A*AA", 1, 0, 0);
    TokenUnrolled("A*AA", 2, 0xFFFF_FFFF, 0);
    TokenUnrolled("A*AA", 3, 0xFFFF_FFC0, 0);
    TokenUnrolled("A*AA", 4, 0xFFFF_F000, 0);
  }
}
