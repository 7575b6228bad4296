/** components/display/SSD132x.c in one-bit mode: eight horizontal pixels a byte, lowest bit left.
    Shows that the fast forms draw what a loop over the pixels would. */
module MonoDraw {
  import opened Memory

  datatype Colour = Black | White | Xor

  // BIT(i)
  function Bit(i: int): bv8
    requires 0 <= i < 8
  {
    if i == 0 then 1 else if i == 1 then 2 else if i == 2 then 4 else if i == 3 then 8
    else if i == 4 then 16 else if i == 5 then 32 else if i == 6 then 64 else 128
  }

  predicate Has(b: bv8, i: int)
    requires 0 <= i < 8
  {
    b & Bit(i) != 0
  }

  // Setting, clearing and flipping a bit leave the other seven alone.
  lemma SetBit(b: bv8, i: int, j: int)
    requires 0 <= i < 8 && 0 <= j < 8
    ensures Has(b | Bit(i), j) == (i == j || Has(b, j))
  {
  }

  lemma ClearBit(b: bv8, i: int, j: int)
    requires 0 <= i < 8 && 0 <= j < 8
    ensures Has(b & !Bit(i), j) == (i != j && Has(b, j))
  {
  }

  lemma FlipBit(b: bv8, i: int, j: int)
    requires 0 <= i < 8 && 0 <= j < 8
    ensures Has(b ^ Bit(i), j) == (Has(b, j) != (i == j))
  {
    FlipIs(b, i);
    SetBit(b, i, j);
    ClearBit(b, i, j);
  }

  lemma FlipIs(b: bv8, i: int)
    requires 0 <= i < 8
    ensures b ^ Bit(i) == if Has(b, i) then b & !Bit(i) else b | Bit(i)
  {
  }

  // A byte is its eight bits.
  lemma ByteIsItsBits(a: bv8, b: bv8)
    requires forall i :: 0 <= i < 8 ==> Has(a, i) == Has(b, i)
    ensures a == b
  {
    assert Has(a, 0) == Has(b, 0) && Has(a, 1) == Has(b, 1) && Has(a, 2) == Has(b, 2) && Has(a, 3) == Has(b, 3);
    assert Has(a, 4) == Has(b, 4) && Has(a, 5) == Has(b, 5) && Has(a, 6) == Has(b, 6) && Has(a, 7) == Has(b, 7);
  }

  // BitReverseTable256
  function Reversed(b: bv8): bv8 {
    var s := (b >> 4) | (b << 4);
    var t := ((s & 0xCC) >> 2) | ((s & 0x33) << 2);
    ((t & 0xAA) >> 1) | ((t & 0x55) << 1)
  }

  lemma ReversedBits(b: bv8, i: int)
    requires 0 <= i < 8
    ensures Has(Reversed(b), i) == Has(b, 7 - i)
  {
  }

  // ---------------------------------------------------------------- windows

  // The column across the middle of its byte.
  function Mirror(x: int): (m: int)
    ensures Mirror(x) / 8 == x / 8 && m % 8 == 7 - x % 8
  {
    x / 8 * 8 + 7 - x % 8
  }

  // Pixel x of a row after the columns lo..hi were drawn one by one.
  predicate After(colour: Colour, lo: int, hi: int, x: int, was: bool) {
    if colour == Xor then was != (lo <= Mirror(x) < hi)
    else if lo <= x < hi then colour == White
    else was
  }

  lemma NoneDrawn(colour: Colour, lo: int)
    ensures forall x, was :: After(colour, lo, lo, x, was) == was
  {
  }

  lemma OneMore(colour: Colour, lo: int, c: int)
    requires lo <= c
    ensures forall x, was ::
              After(colour, c, c + 1, x, After(colour, lo, c, x, was)) == After(colour, lo, c + 1, x, was)
  {
    hide Mirror;
  }

  // The byte _DrawPixel1Fast stores for bit xBit of a byte.
  function DrawnByte(b: bv8, xBit: int, colour: Colour): bv8
    requires 0 <= xBit < 8
  {
    match colour
    case Xor => b ^ Bit(7 - xBit)
    case Black => b & !Bit(xBit)
    case White => b | Bit(xBit)
  }

  lemma Columns(x: int, c: int)
    ensures c == x <==> c / 8 == x / 8 && x % 8 == c % 8
    ensures Mirror(c) == x <==> c / 8 == x / 8 && 7 - x % 8 == c % 8
  {
  }

  lemma DrawnBits(b: bv8, x: int, colour: Colour, c: int, was: bool)
    ensures c / 8 == x / 8 ==>
              Has(DrawnByte(b, x % 8, colour), c % 8) == After(colour, x, x + 1, c, Has(b, c % 8))
    ensures c / 8 != x / 8 ==> After(colour, x, x + 1, c, was) == was
  {
    hide Has, Bit, Mirror, After;
    Columns(x, c);
    AfterOne(colour, x, c, was);
    AfterOne(colour, x, c, Has(b, c % 8));
    DrawnBit(b, x % 8, colour, c % 8);
  }

  lemma DrawnBit(b: bv8, i: int, colour: Colour, k: int)
    requires 0 <= i < 8 && 0 <= k < 8
    ensures Has(DrawnByte(b, i, colour), k) ==
            if colour.Xor? then Has(b, k) != (7 - i == k) else if k == i then colour.White? else Has(b, k)
  {
    hide Has, Bit;
    match colour
    case Xor => FlipBit(b, 7 - i, k);
    case Black => ClearBit(b, i, k);
    case White => SetBit(b, i, k);
  }

  lemma AfterOne(colour: Colour, x: int, c: int, was: bool)
    ensures After(colour, x, x + 1, c, was) ==
            if colour.Xor? then was != (Mirror(c) == x) else if c == x then colour.White? else was
  {
    hide Mirror;
  }

  // The byte-aligned columns ClearWindow fills at once: from the first byte boundary on.
  function Aligned(x1: int): (a: int)
    ensures x1 <= a < x1 + 8 && a % 8 == 0
  {
    (x1 + 7) / 8 * 8
  }

  function ChunkEnd(x1: int, x2: int): int {
    if Aligned(x1) <= x2 then Aligned(x1) + (x2 - Aligned(x1) + 1) / 8 * 8 else Aligned(x1)
  }

  predicate FastAfter(colour: Colour, x1: int, x2: int, x: int, was: bool) {
    if Aligned(x1) <= x < ChunkEnd(x1, x2) then colour != Black
    else After(colour, x1, x2 + 1, x, was)
  }

  // At the byte boundary, or past the window without one, the whole bytes end at ChunkEnd.
  lemma AlignedRest(x1: int, x2: int, c: int, chunk: int, width: int)
    requires 0 <= x1 <= x2 + 1 <= width && width % 8 == 0
    requires x1 <= c <= x2 + 1 && c <= Aligned(x1) && (c % 8 == 0 || c > x2)
    requires chunk == (x2 - c + 1) / 8
    ensures 0 <= chunk && c / 8 + chunk <= width / 8 && c + 8 * chunk <= x2 + 1
    ensures chunk > 0 ==> c % 8 == 0
    ensures c <= x2 ==> c == Aligned(x1) && c + 8 * chunk == ChunkEnd(x1, x2)
    ensures c > x2 ==> chunk == 0 && !(Aligned(x1) < ChunkEnd(x1, x2))
  {
  }

  // The fast form agrees with the loop over pixels at a pixel exactly when it is not inverting,
  // or is outside the whole bytes, or the pixel was off.
  lemma FastExact(colour: Colour, x1: int, x2: int, x: int, was: bool)
    requires 0 <= x1 <= x2 + 1
    ensures FastAfter(colour, x1, x2, x, was) == After(colour, x1, x2 + 1, x, was)
       <==> colour != Xor || !(Aligned(x1) <= x < ChunkEnd(x1, x2)) || !was
  {
    if Aligned(x1) <= x < ChunkEnd(x1, x2) {
      InWholeByte(Aligned(x1), ChunkEnd(x1, x2), x);
    }
  }

  lemma InWholeByte(a: int, b: int, x: int)
    requires a % 8 == 0 && b % 8 == 0
    ensures a <= x < b <==> a <= Mirror(x) < b
  {
  }

  // Drawing up to c, filling up to d and drawing the rest is what the fast form amounts to.
  lemma ThreeSteps(colour: Colour, x1: int, c: int, d: int, x2: int, x: int, was: bool)
    requires x1 <= c <= d <= x2 + 1
    requires c < d ==> c % 8 == 0 && d % 8 == 0
    requires (Aligned(x1) == c && ChunkEnd(x1, x2) == d) || (c == d && ChunkEnd(x1, x2) <= Aligned(x1))
    ensures var first := After(colour, x1, c, x, was);
            var filled := if c <= x < d then colour != Black else first;
            After(colour, d, x2 + 1, x, filled) == FastAfter(colour, x1, x2, x, was)
  {
    if c < d {
      InWholeByte(c, d, x);
    }
    hide Mirror, Aligned, ChunkEnd;
  }

  // ---------------------------------------------------------------- the framebuffer

  class MonoDevice {
    const width: nat
    const height: nat
    const framebuffer: array2<bv8>

    ghost predicate Valid() {
      width % 8 == 0 && framebuffer.Length0 == height && framebuffer.Length1 == width / 8
    }

    predicate Pixel(x: int, y: int)
      requires Valid() && 0 <= x < width && 0 <= y < height
      reads framebuffer
    {
      Has(framebuffer[y, x / 8], x % 8)
    }

    // _DrawPixel1Fast. Inverting flips bit 7 - x%8, never the pixel asked for.
    method DrawPixel(x: int, y: int, colour: Colour)
      requires Valid() && 0 <= x < width && 0 <= y < height
      modifies framebuffer
      ensures forall i, j :: 0 <= i < width && 0 <= j < height ==>
                Pixel(i, j) == if j == y then After(colour, x, x + 1, i, old(Pixel(i, j))) else old(Pixel(i, j))
    {
      hide Has, Bit, DrawnByte, After;
      ghost var before := framebuffer[y, x / 8];
      framebuffer[y, x / 8] := DrawnByte(framebuffer[y, x / 8], x % 8, colour);
      forall i | 0 <= i < width
        ensures i / 8 == x / 8 ==>
                  Has(DrawnByte(before, x % 8, colour), i % 8) == After(colour, x, x + 1, i, Has(before, i % 8))
        ensures i / 8 != x / 8 ==>
                  After(colour, x, x + 1, i, old(Pixel(i, y))) == old(Pixel(i, y))
      {
        DrawnBits(before, x, colour, i, old(Pixel(i, y)));
      }
    }

    // Columns lo..hi of row y, one pixel at a time.
    method DrawRun(lo: nat, hi: nat, y: int, colour: Colour)
      requires Valid() && lo <= hi <= width && 0 <= y < height
      modifies framebuffer
      ensures forall i, j :: 0 <= i < width && 0 <= j < height ==>
                Pixel(i, j) == if j == y then After(colour, lo, hi, i, old(Pixel(i, j))) else old(Pixel(i, j))
    {
      hide After, MonoDevice.Pixel;
      NoneDrawn(colour, lo);
      for c := lo to hi
        invariant forall i, j :: 0 <= i < width && 0 <= j < height ==>
                    Pixel(i, j) == if j == y then After(colour, lo, c, i, old(Pixel(i, j))) else old(Pixel(i, j))
      {
        OneMore(colour, lo, c);
        DrawPixel(c, y, colour);
      }
    }

    // memset over n whole bytes of row y from the byte-aligned column c on.
    method FillBytes(y: int, c: nat, n: nat, value: bv8)
      requires Valid() && 0 <= y < height && (n > 0 ==> c % 8 == 0) && c / 8 + n <= width / 8
      requires value in {0, 0xFF}
      modifies framebuffer
      ensures forall i, j :: 0 <= i < width && 0 <= j < height ==>
                Pixel(i, j) == if j == y && c <= i < c + 8 * n then value != 0 else old(Pixel(i, j))
    {
      for k := 0 to n
        invariant forall i, j :: 0 <= i < width / 8 && 0 <= j < height ==>
                    framebuffer[j, i] == if j == y && c / 8 <= i < c / 8 + k then value else old(framebuffer[j, i])
      {
        framebuffer[y, c / 8 + k] := value;
      }
      forall i, j | 0 <= i < width && 0 <= j < height
        ensures Pixel(i, j) == if j == y && c <= i < c + 8 * n then value != 0 else old(Pixel(i, j))
      {
        assert Has(value, i % 8) == (value != 0);
        assert c / 8 <= i / 8 < c / 8 + n <==> c <= i < c + 8 * n;
      }
    }

    // One row of ClearWindow: pixels up to a byte boundary, whole bytes, the pixels left.
    method ClearRow(x1: nat, x2: int, y: int, colour: Colour)
      requires Valid() && x1 <= x2 + 1 && -1 <= x2 < width && 0 <= y < height
      modifies framebuffer
      ensures forall i, j :: 0 <= i < width && 0 <= j < height ==>
                Pixel(i, j) == if j == y then FastAfter(colour, x1, x2, i, old(Pixel(i, j))) else old(Pixel(i, j))
    {
      hide Mirror, MonoDevice.Pixel, After, FastAfter, Aligned, ChunkEnd;
      var c := x1;
      NoneDrawn(colour, x1);
      while c % 8 != 0 && c <= x2
        invariant x1 <= c <= x2 + 1 && c <= Aligned(x1)
        invariant forall i, j :: 0 <= i < width && 0 <= j < height ==>
                    Pixel(i, j) == if j == y then After(colour, x1, c, i, old(Pixel(i, j))) else old(Pixel(i, j))
        decreases x2 + 1 - c
      {
        OneMore(colour, x1, c);
        DrawPixel(c, y, colour);
        c := c + 1;
      }
      var chunk := (x2 - c + 1) / 8;
      AlignedRest(x1, x2, c, chunk, width);
      FillBytes(y, c, chunk, if colour.Black? then 0 else 0xFF);
      var d := c + chunk * 8;
      DrawRun(d, x2 + 1, y, colour);
      forall i, j | 0 <= i < width && 0 <= j < height
        ensures Pixel(i, j) == if j == y then FastAfter(colour, x1, x2, i, old(Pixel(i, j))) else old(Pixel(i, j))
      {
        ThreeSteps(colour, x1, c, d, x2, i, old(Pixel(i, j)));
      }
    }

    // ClearWindow, but for inverting, does what drawing each pixel does; inverting too where
    // the whole bytes were clear.
    method ClearWindow(x1: nat, y1: nat, x2: int, y2: int, colour: Colour)
      requires Valid() && x1 <= x2 + 1 && -1 <= x2 < width && y2 < height
      modifies framebuffer
      ensures forall i, j :: 0 <= i < width && 0 <= j < height ==>
                Pixel(i, j) == if y1 <= j <= y2 then FastAfter(colour, x1, x2, i, old(Pixel(i, j)))
                               else old(Pixel(i, j))
    {
      hide FastAfter, MonoDevice.Pixel;
      var r := y1;
      while r <= y2
        invariant y1 <= r && (r == y1 || r <= y2 + 1)
        invariant forall i, j :: 0 <= i < width && 0 <= j < height ==>
                    Pixel(i, j) == if y1 <= j < r then FastAfter(colour, x1, x2, i, old(Pixel(i, j)))
                                   else old(Pixel(i, j))
      {
        ClearRow(x1, x2, r, colour);
        r := r + 1;
      }
    }

    // The loop over pixels that ClearWindow replaces.
    method DrawWindow(x1: nat, y1: nat, x2: int, y2: int, colour: Colour)
      requires Valid() && x1 <= x2 + 1 && -1 <= x2 < width && y2 < height
      modifies framebuffer
      ensures forall i, j :: 0 <= i < width && 0 <= j < height ==>
                Pixel(i, j) == if y1 <= j <= y2 then After(colour, x1, x2 + 1, i, old(Pixel(i, j)))
                               else old(Pixel(i, j))
    {
      hide After, MonoDevice.Pixel;
      var r := y1;
      while r <= y2
        invariant y1 <= r && (r == y1 || r <= y2 + 1)
        invariant forall i, j :: 0 <= i < width && 0 <= j < height ==>
                    Pixel(i, j) == if y1 <= j < r then After(colour, x1, x2 + 1, i, old(Pixel(i, j)))
                                   else old(Pixel(i, j))
      {
        DrawRun(x1, x2 + 1, r, colour);
        r := r + 1;
      }
    }

    // Devices with the same pixels have the same framebuffer.
    lemma PixelsDecide(other: MonoDevice)
      requires Valid() && other.Valid() && other.width == width && other.height == height
      requires forall i, j :: 0 <= i < width && 0 <= j < height ==> Pixel(i, j) == other.Pixel(i, j)
      ensures forall b, j :: 0 <= b < width / 8 && 0 <= j < height ==>
                framebuffer[j, b] == other.framebuffer[j, b]
    {
      forall b, j | 0 <= b < width / 8 && 0 <= j < height
        ensures framebuffer[j, b] == other.framebuffer[j, b]
      {
        forall i | 0 <= i < 8
          ensures Has(framebuffer[j, b], i) == Has(other.framebuffer[j, b], i)
        {
          assert Pixel(8 * b + i, j) == other.Pixel(8 * b + i, j);
        }
        ByteIsItsBits(framebuffer[j, b], other.framebuffer[j, b]);
      }
    }

    // Stores the lowest bit of b at (x, y), as each linearised line of DrawBitmapCBR does.
    method PutBit(x: int, y: int, b: bv8)
      requires Valid() && 0 <= x < width && 0 <= y < height
      modifies framebuffer
      ensures forall i, j :: 0 <= i < width && 0 <= j < height ==>
                Pixel(i, j) == if i == x && j == y then Has(b, 0) else old(Pixel(i, j))
    {
      hide Has, Bit;
      ghost var was := framebuffer[y, x / 8];
      framebuffer[y, x / 8] := (framebuffer[y, x / 8] & !(1 << (x % 8))) | ((b & 1) << (x % 8));
      forall i | 0 <= i < width && i / 8 == x / 8
        ensures Has(framebuffer[y, x / 8], i % 8) == if i == x then Has(b, 0) else Has(was, i % 8)
      {
        MergedBit(was, b, x % 8, i % 8);
      }
    }

    // One byte of a bitmap column: eight pixels downwards, highest bit first.
    method PutByte(c: nat, j: nat, d: bv8)
      requires Valid() && c < width && 8 * j + 8 <= height
      modifies framebuffer
      ensures forall x, y :: 0 <= x < width && 0 <= y < height ==>
                Pixel(x, y) == if x == c && 8 * j <= y < 8 * j + 8 then Has(d, 7 - (y - 8 * j)) else old(Pixel(x, y))
    {
      hide MonoDevice.Pixel, Has, Bit, Reversed, Shifted;
      var b := Reversed(d);
      NotShifted(Reversed(d));
      for k := 0 to 8
        invariant b == Shifted(Reversed(d), k)
        invariant forall x, y :: 0 <= x < width && 0 <= y < height ==>
                    Pixel(x, y)
                    == if x == c && 8 * j <= y < 8 * j + k then Has(d, 7 - (y - 8 * j)) else old(Pixel(x, y))
      {
        LowestBit(Reversed(d), k);
        ShiftedOnce(Reversed(d), k);
        ReversedBits(d, k);
        PutBit(c, 8 * j + k, b);
        b := b >> 1;
      }
    }

    // DrawBitmapCBR: columns of bytes, each byte eight rows. A zero size means the whole display.
    method DrawBitmapCBR(data: seq<bv8>, w: nat, h: nat)
      requires Valid() && w <= width && h <= height
      requires |data| >= (if w == 0 then width else w) * ((if h == 0 then height else h) / 8)
      modifies framebuffer
      ensures var cols, bytes := if w == 0 then width else w, (if h == 0 then height else h) / 8;
              forall x, y :: 0 <= x < width && 0 <= y < height ==>
                Pixel(x, y) == if x < cols && y / 8 < bytes then BitmapBit(data, bytes, x, y) else old(Pixel(x, y))
    {
      hide MonoDevice.Pixel, Has, Bit, BitmapBit;
      var cols, bytes := if w == 0 then width else w, (if h == 0 then height else h) / 8;
      var next: nat := 0;
      for c := 0 to cols
        invariant next == c * bytes
        invariant forall x, y :: 0 <= x < width && 0 <= y < height ==>
                    Pixel(x, y) == if x < c && y / 8 < bytes then BitmapBit(data, bytes, x, y) else old(Pixel(x, y))
      {
        ColumnInside(c, cols, bytes);
        for j := 0 to bytes
          invariant next == c * bytes + j
          invariant forall x, y :: 0 <= x < width && 0 <= y < height ==>
                      Pixel(x, y) == if y / 8 < bytes && (x < c || (x == c && y / 8 < j))
                                     then BitmapBit(data, bytes, x, y) else old(Pixel(x, y))
        {
          forall y | 8 * j <= y < 8 * j + 8
            ensures BitmapBit(data, bytes, c, y) == Has(data[next], 7 - (y - 8 * j))
          {
            BitmapAt(data, bytes, c, y, next);
          }
          PutByte(c, j, data[next]);
          next := next + 1;
        }
      }
    }
  }

  // Displays with the same framebuffer.
  ghost predicate Same(a: MonoDevice, b: MonoDevice)
    requires a.Valid() && b.Valid() && a.width == b.width && a.height == b.height
    reads a.framebuffer, b.framebuffer
  {
    forall k, j :: 0 <= k < a.width / 8 && 0 <= j < a.height ==> a.framebuffer[j, k] == b.framebuffer[j, k]
  }

  lemma SamePixels(a: MonoDevice, b: MonoDevice)
    requires a.Valid() && b.Valid() && a.width == b.width && a.height == b.height
    ensures Same(a, b) <==> forall x, y :: 0 <= x < a.width && 0 <= y < a.height ==> a.Pixel(x, y) == b.Pixel(x, y)
  {
    if Same(a, b) {
      hide Has;
    } else if forall x, y :: 0 <= x < a.width && 0 <= y < a.height ==> a.Pixel(x, y) == b.Pixel(x, y) {
      a.PixelsDecide(b);
    }
  }

  // Clearing a window does to a display what drawing its pixels one by one does, exactly when it is
  // not done by inverting, or every pixel of the whole bytes was off.
  method ClearBoth(fast: MonoDevice, slow: MonoDevice, x1: nat, y1: nat, x2: int, y2: int, colour: Colour)
    requires fast.Valid() && slow.Valid() && fast.width == slow.width && fast.height == slow.height
    requires fast.framebuffer != slow.framebuffer && Same(fast, slow)
    requires x1 <= x2 + 1 <= fast.width && y2 < fast.height
    modifies fast.framebuffer, slow.framebuffer
    ensures Same(fast, slow) <==>
            colour != Xor ||
            forall x, y :: Aligned(x1) <= x < ChunkEnd(x1, x2) && y1 <= y <= y2 ==> !old(fast.Pixel(x, y))
  {
    hide MonoDevice.Pixel, FastAfter, After, Same;
    ghost var w, h := fast.width, fast.height;
    SamePixels(fast, slow);
    fast.ClearWindow(x1, y1, x2, y2, colour);
    slow.DrawWindow(x1, y1, x2, y2, colour);
    SamePixels(fast, slow);
    forall x, y | 0 <= x < w && 0 <= y < h
      ensures fast.Pixel(x, y) == slow.Pixel(x, y) <==>
              !(y1 <= y <= y2) || colour != Xor || !(Aligned(x1) <= x < ChunkEnd(x1, x2)) || !old(fast.Pixel(x, y))
    {
      FastExact(colour, x1, x2, x, old(fast.Pixel(x, y)));
    }
    WholeBytesInside(x1, x2);
  }

  lemma WholeBytesInside(x1: nat, x2: int)
    requires x1 <= x2 + 1
    ensures x1 <= Aligned(x1) && (Aligned(x1) < ChunkEnd(x1, x2) ==> ChunkEnd(x1, x2) <= x2 + 1)
  {
  }

  // The bitmap's pixel (x, y): bit 7 - y%8 of the byte y/8 of column x.
  predicate BitmapBit(data: seq<bv8>, bytes: nat, x: int, y: int) {
    0 <= x * bytes + y / 8 < |data| && Has(data[x * bytes + y / 8], 7 - y % 8)
  }

  lemma BitmapAt(data: seq<bv8>, bytes: nat, x: int, y: int, i: nat)
    requires i < |data| && i == x * bytes + y / 8
    ensures BitmapBit(data, bytes, x, y) == Has(data[i], 7 - y % 8)
  {
  }

  lemma ColumnInside(c: nat, cols: nat, bytes: nat)
    requires c < cols
    ensures c * bytes + bytes == (c + 1) * bytes <= cols * bytes
  {
    MulMonotonic(c + 1, cols, bytes);
    Successor(c, bytes);
  }

  function Shifted(b: bv8, k: int): bv8
    requires 0 <= k <= 8
  {
    b >> k
  }

  lemma NotShifted(b: bv8)
    ensures Shifted(b, 0) == b
  {
  }

  lemma LowestBit(b: bv8, k: int)
    requires 0 <= k < 8
    ensures Has(Shifted(b, k), 0) == Has(b, k)
  {
  }

  lemma ShiftedOnce(b: bv8, k: int)
    requires 0 <= k < 8
    ensures Shifted(b, k) >> 1 == Shifted(b, k + 1)
  {
  }

  lemma MergedBit(was: bv8, b: bv8, i: int, k: int)
    requires 0 <= i < 8 && 0 <= k < 8
    ensures Has((was & !(1 << i)) | ((b & 1) << i), k) == if k == i then Has(b, 0) else Has(was, k)
  {
    hide Has, Bit;
    ShiftedBits(b, i);
    ClearBit(was, i, k);
    SetBit(was & !Bit(i), i, k);
    ZeroOr(was & !Bit(i));
  }

  lemma ShiftedBits(b: bv8, i: int)
    requires 0 <= i < 8
    ensures 1 << i == Bit(i)
    ensures (b & 1) << i == if Has(b, 0) then Bit(i) else 0
  {
    assert b & 1 == if Has(b, 0) then 1 else 0;
  }

  lemma ZeroOr(b: bv8)
    ensures b | 0 == b
  {
  }

  // Inverting a pixel inverts the one across its byte instead.
  lemma InvertMisses(x: int, was: bool)
    ensures After(Xor, x, x + 1, x, was) == was
    ensures After(Xor, x, x + 1, Mirror(x), was) == !was
  {
    assert Mirror(Mirror(x)) == x;
  }
}
