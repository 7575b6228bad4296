/** A display controller as its drivers see it: RAM, a column and a row window, and a pointer
    that advances through the window. Columns count bytes, `right` is exclusive. */
module Panel {
  import opened Memory

  // Bytes one transfer of the drivers is to hold.
  const PAGE_BLOCK: int := 2048

  // Bytes lo..hi of a row of a shadow buffer or framebuffer.
  function RowBytes(a: array2<byte>, r: nat, lo: nat, hi: nat): (s: seq<byte>)
    requires r < a.Length0 && lo <= hi <= a.Length1
    reads a
    ensures |s| == hi - lo && forall k :: 0 <= k < |s| ==> s[k] == a[r, lo + k]
  {
    seq(hi - lo, k requires 0 <= k < hi - lo reads a => a[r, lo + k])
  }

  // The bytes lo..hi of the rows first..last.
  function RowsOf(a: array2<byte>, first: nat, last: nat, lo: nat, hi: nat): (s: seq<seq<byte>>)
    requires first <= last <= a.Length0 && lo <= hi <= a.Length1
    reads a
    ensures |s| == last - first && forall k :: 0 <= k < |s| ==> s[k] == RowBytes(a, first + k, lo, hi)
  {
    seq(last - first, k requires 0 <= k < last - first reads a => RowBytes(a, first + k, lo, hi))
  }

  datatype Panel = Panel(ram: (int, int) -> byte, top: int, bottom: int, left: int, right: int, row: int, x: int)

  // Setting one axis of the window resets the pointer of that axis only.
  function SetRows(p: Panel, top: int, bottom: int): Panel {
    p.(top := top, bottom := bottom, row := top)
  }

  function SetColumns(p: Panel, left: int, right: int): Panel {
    p.(left := left, right := right, x := left)
  }

  // The write command of the colour controllers takes the pointer to the start of the window.
  function EnableWrite(p: Panel): Panel {
    p.(row := p.top, x := p.left)
  }

  function NextRow(p: Panel): int {
    if p.row < p.bottom then p.row + 1 else p.top
  }

  function WriteByte(p: Panel, b: byte): Panel {
    var ram := (r, c) => if r == p.row && c == p.x then b else p.ram(r, c);
    if p.x + 1 < p.right then p.(ram := ram, x := p.x + 1)
    else p.(ram := ram, x := p.left, row := NextRow(p))
  }

  function WriteData(p: Panel, bytes: seq<byte>): Panel
    decreases |bytes|
  {
    if bytes == [] then p else WriteData(WriteByte(p, bytes[0]), bytes[1..])
  }

  // What is sent in one transfer or in several makes no difference.
  lemma {:induction false} WriteConcat(p: Panel, a: seq<byte>, b: seq<byte>)
    ensures WriteData(p, a + b) == WriteData(WriteData(p, a), b)
    decreases |a|
  {
    if a == [] {
      assert a + b == b;
    } else {
      assert (a + b)[1..] == a[1..] + b;
      WriteConcat(WriteByte(p, a[0]), a[1..], b);
    }
  }

  // Bytes that reach the right edge of the window at most land side by side in one row.
  lemma {:induction false} WritePart(p: Panel, bytes: seq<byte>)
    requires bytes != [] && p.x + |bytes| <= p.right
    ensures var q := WriteData(p, bytes);
            && (forall r, c :: q.ram(r, c) ==
                  if r == p.row && p.x <= c < p.x + |bytes| then bytes[c - p.x] else p.ram(r, c))
            && q == p.(ram := q.ram, x := q.x, row := q.row)
            && (p.x + |bytes| < p.right ==> q.x == p.x + |bytes| && q.row == p.row)
            && (p.x + |bytes| == p.right ==> q.x == p.left && q.row == NextRow(p))
    decreases |bytes|
  {
    var p1 := WriteByte(p, bytes[0]);
    if |bytes| == 1 {
      assert WriteData(p, bytes) == WriteData(p1, []);
    } else {
      WritePart(p1, bytes[1..]);
    }
  }

  // A whole row of the window, after which the pointer is at the start of the next.
  lemma WriteRow(p: Panel, bytes: seq<byte>)
    requires p.x == p.left < p.right && |bytes| == p.right - p.left
    ensures RowWritten(p, WriteData(p, bytes), bytes)
  {
    WritePart(p, bytes);
  }

  ghost predicate RowWritten(p: Panel, q: Panel, bytes: seq<byte>) {
    && |bytes| == p.right - p.left
    && q == p.(ram := q.ram, row := NextRow(p))
    && forall r, c :: q.ram(r, c) ==
         if r == p.row && p.left <= c < p.right then bytes[c - p.left] else p.ram(r, c)
  }

  function Flat(rows: seq<seq<byte>>): seq<byte> {
    if rows == [] then [] else rows[0] + Flat(rows[1..])
  }

  lemma {:induction false} FlatMore(rows: seq<seq<byte>>, row: seq<byte>)
    ensures Flat(rows + [row]) == Flat(rows) + row
    decreases |rows|
  {
    if rows == [] {
      assert [row][1..] == [] && [] + [row] == [row];
    } else {
      assert (rows + [row])[1..] == rows[1..] + [row];
      FlatMore(rows[1..], row);
      assert rows[0] + (Flat(rows[1..]) + row) == (rows[0] + Flat(rows[1..])) + row;
    }
  }

  // Whole rows back to back, as far as the bottom of the window at most.
  lemma {:induction false} WriteRows(p: Panel, rows: seq<seq<byte>>)
    requires p.x == p.left < p.right && p.row + |rows| <= p.bottom + 1
    requires forall k :: 0 <= k < |rows| ==> |rows[k]| == p.right - p.left
    ensures RowsWritten(p, WriteData(p, Flat(rows)), rows)
    decreases |rows|
  {
    hide RowsWritten, RowWritten;
    if rows == [] {
      NoneWritten(p);
    } else {
      WriteRow(p, rows[0]);
      WriteConcat(p, rows[0], Flat(rows[1..]));
      var p1 := WriteData(p, rows[0]);
      OneWritten(p, p1, rows[0]);
      if |rows| == 1 {
        assert rows[1..] == [] && rows == [rows[0]];
      } else {
        RowBelow(p, p1, rows[0]);
        WriteRows(p1, rows[1..]);
        MoreWritten(p, p1, WriteData(p1, Flat(rows[1..])), rows);
      }
    }
  }

  // The rows have landed one below the other from the pointer on, and nothing else has changed.
  ghost predicate RowsWritten(p: Panel, q: Panel, rows: seq<seq<byte>>)
    requires forall k :: 0 <= k < |rows| ==> |rows[k]| == p.right - p.left
  {
    && q == p.(ram := q.ram, row := q.row)
    && forall r, c :: q.ram(r, c) ==
         if p.row <= r < p.row + |rows| && p.left <= c < p.right then rows[r - p.row][c - p.left] else p.ram(r, c)
  }

  lemma NoneWritten(p: Panel)
    ensures Flat([]) == [] && WriteData(p, Flat([])) == p && RowsWritten(p, p, [])
  {
  }

  lemma OneWritten(p: Panel, q: Panel, row: seq<byte>)
    requires RowWritten(p, q, row)
    ensures RowsWritten(p, q, [row])
  {
  }

  lemma RowBelow(p: Panel, q: Panel, row: seq<byte>)
    requires RowWritten(p, q, row) && p.row < p.bottom
    ensures q.row == p.row + 1 && q.x == p.x && q.left == p.left && q.right == p.right && q.bottom == p.bottom
  {
  }

  lemma MoreWritten(p: Panel, p1: Panel, q: Panel, rows: seq<seq<byte>>)
    requires rows != [] && forall k :: 0 <= k < |rows| ==> |rows[k]| == p.right - p.left
    requires RowWritten(p, p1, rows[0]) && p.row < p.bottom && p1.left == p.left && p1.right == p.right
    requires RowsWritten(p1, q, rows[1..])
    ensures RowsWritten(p, q, rows)
  {
    forall r, c
      ensures q.ram(r, c) ==
              if p.row <= r < p.row + |rows| && p.left <= c < p.right then rows[r - p.row][c - p.left] else p.ram(r, c)
    {
      assert q.ram(r, c) ==
             if p1.row <= r < p1.row + |rows[1..]| && p1.left <= c < p1.right then rows[1..][r - p1.row][c - p1.left]
             else p1.ram(r, c);
      if p1.row <= r < p1.row + |rows[1..]| {
        assert rows[1..][r - p1.row] == rows[r - p.row];
      }
    }
  }
}
