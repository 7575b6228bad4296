/** Big-endian numbers: dmap_read_u16, u32 and u64 of components/raop/dmap_parser.c, and unpackN of the
    decoders. */
module BigEndian {
  import opened Memory

  // The number that some bytes are.
  function ReadBE(s: seq<byte>): (v: int)
    ensures 0 <= v
  {
    if s == [] then 0 else ReadBE(s[..|s| - 1]) * 256 + s[|s| - 1] as int
  }

  // The bytes of a number.
  function BE(width: nat, v: nat): (s: seq<byte>)
    ensures |s| == width
  {
    if width == 0 then [] else BE(width - 1, v / 256) + [(v % 256) as byte]
  }

  function Range(width: nat): (n: int)
    ensures 0 < n
  {
    if width == 0 then 1 else 256 * Range(width - 1)
  }

  lemma {:induction false} ReadWritten(width: nat, v: nat)
    requires v < Range(width)
    ensures ReadBE(BE(width, v)) == v
  {
    if width > 0 {
      ReadWritten(width - 1, v / 256);
      assert BE(width, v)[..width - 1] == BE(width - 1, v / 256);
    }
  }

  lemma {:induction false} WrittenRead(s: seq<byte>)
    ensures ReadBE(s) < Range(|s|) && BE(|s|, ReadBE(s)) == s
  {
    if s != [] {
      WrittenRead(s[..|s| - 1]);
      assert s == s[..|s| - 1] + [s[|s| - 1]];
    }
  }

  // The first byte is the most significant.
  lemma {:induction false} MostSignificantFirst(b: byte, s: seq<byte>)
    ensures ReadBE([b] + s) == b as int * Range(|s|) + ReadBE(s)
    decreases |s|
  {
    if s == [] {
      assert [b] + s == [b];
      assert ReadBE([b]) == ReadBE([]) * 256 + b as int;
    } else {
      var n := |s| - 1;
      assert ([b] + s)[..n + 1] == [b] + s[..n];
      MostSignificantFirst(b, s[..n]);
      Distributes(b as int, Range(n), ReadBE(s[..n]));
    }
  }

  lemma Distributes(b: int, r: int, v: int)
    ensures (b * r + v) * 256 == b * (256 * r) + v * 256
  {
  }

  lemma TwoAndFour(a: byte, b: byte, c: byte, d: byte)
    ensures ReadBE([a, b]) == 0x100 * a as int + b as int
    ensures ReadBE([a, b, c, d]) == 0x100_0000 * a as int + 0x1_0000 * b as int + 0x100 * c as int + d as int
  {
    assert [a, b, c, d][..3] == [a, b, c] && [a, b, c][..2] == [a, b] && [a, b][..1] == [a] && [a][..0] == [];
    assert ReadBE([a]) == a as int;
    assert ReadBE([a, b]) == ReadBE([a]) * 256 + b as int;
    assert ReadBE([a, b, c]) == ReadBE([a, b]) * 256 + c as int;
  }
}
