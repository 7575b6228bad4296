/** components/display/SSD1306.c (Update) and SSD132x.c (Update1): monochrome displays that send,
    row of bytes by row of bytes, the span that changed. They reuse the panel's column window
    when an older one is only slightly wider, and rely on the panel to step to the next row. */
module SpanUpdate {
  import opened Memory
  import opened Panel

  // What Update remembers of the panel: the row its pointer should be at and the column
  // window, -1 before anything was sent.
  datatype Cursor = Cursor(row: int, firstCol: int, lastCol: int)

  class SpanDriver {
    const rows: nat
    const width: nat
    const shadow: array2<byte>
    const framebuffer: array2<byte>
    var panel: Panel

    // Columns travel as uint8_t, first + 1 included.
    ghost predicate Valid() {
      && 0 < width < 256
      && shadow != framebuffer
      && shadow.Length0 == framebuffer.Length0 == rows
      && shadow.Length1 == framebuffer.Length1 == width
    }

    ghost predicate InSync()
      requires Valid()
      reads this, shadow
    {
      forall r, c :: 0 <= r < rows && 0 <= c < width ==> panel.ram(r, c) == shadow[r, c]
    }

    // The cursor is the truth about the panel: its window, and its pointer at a row's start.
    ghost predicate Tracks(k: Cursor, done: nat)
      reads this
    {
      if k.firstCol < 0 then k == Cursor(-1, -1, -1)
      else
        && 0 < k.row <= done && k.firstCol <= k.lastCol < width
        && panel.left == panel.x == k.firstCol && panel.right == k.lastCol + 1
        && panel.bottom == rows - 1 && (k.row < rows ==> panel.row == k.row)
    }

    ghost predicate Untouched(before: Panel)
      reads this
    {
      forall r, c :: (0 <= r < rows && 0 <= c < width) || panel.ram(r, c) == before.ram(r, c)
    }

    // Copies row r of the framebuffer and finds the changed span; first is 1 + its start, 0 if none.
    method ScanRow(r: nat) returns (first: nat, last: nat)
      requires Valid() && r < rows
      modifies shadow
      ensures forall i, c :: 0 <= i < rows && 0 <= c < width ==>
                shadow[i, c] == if i == r then framebuffer[i, c] else old(shadow[i, c])
      ensures first == 0 <==> forall c :: 0 <= c < width ==> old(shadow[r, c]) == framebuffer[r, c]
      ensures first > 0 ==> first - 1 <= last < width
      ensures first > 0 ==> old(shadow[r, first - 1]) != framebuffer[r, first - 1]
                            && old(shadow[r, last]) != framebuffer[r, last]
      ensures forall c :: 0 <= c < width && old(shadow[r, c]) != framebuffer[r, c] ==> 0 <= first - 1 <= c <= last
    {
      first, last := 0, 0;
      for c := 0 to width
        invariant forall i, k :: 0 <= i < rows && 0 <= k < width ==>
                    shadow[i, k] == if i == r && k < c then framebuffer[i, k] else old(shadow[i, k])
        invariant first == 0 <==> forall k :: 0 <= k < c ==> old(shadow[r, k]) == framebuffer[r, k]
        invariant first > 0 ==> first - 1 <= last < c
        invariant first > 0 ==> old(shadow[r, first - 1]) != framebuffer[r, first - 1]
                                && old(shadow[r, last]) != framebuffer[r, last]
        invariant forall k :: 0 <= k < c && old(shadow[r, k]) != framebuffer[r, k] ==> 0 <= first - 1 <= k <= last
      {
        if framebuffer[r, c] != shadow[r, c] {
          if first == 0 {
            first := c + 1;
          }
          last := c;
        }
        shadow[r, c] := framebuffer[r, c];
      }
    }

    // Sends at least the span first..last of row r, with as few commands as the cursor allows.
    method SendSpan(r: nat, first: nat, last: nat, k: Cursor) returns (k': Cursor)
      requires Valid() && r < rows && first <= last < width && Tracks(k, r)
      modifies this`panel
      ensures Tracks(k', r + 1) && k'.row == r + 1 && 0 <= k'.firstCol <= first && last <= k'.lastCol
      ensures forall i, c :: panel.ram(i, c) ==
                if i == r && k'.firstCol <= c <= k'.lastCol then shadow[i, c] else old(panel).ram(i, c)
    {
      hide WriteData, InSync, RowBytes;
      ghost var before := panel;
      var lo, hi := first, last;
      k' := k;
      if first > k.firstCol && first <= k.firstCol + 4 && last < k.lastCol && last >= k.lastCol - 4 {
        lo, hi := k.firstCol, k.lastCol;
      } else {
        panel := SetColumns(panel, first, last + 1);
        k' := k'.(firstCol := first, lastCol := last);
      }
      if r != k.row {
        panel := SetRows(panel, r, rows - 1);
      }
      k' := k'.(row := r + 1);
      assert panel.ram == before.ram && panel.row == r;
      var data := RowBytes(shadow, r, lo, hi + 1);
      WriteRow(panel, data);
      panel := WriteData(panel, data);
    }

    // Update and Update1.
    method Update()
      requires Valid() && InSync()
      modifies this`panel, shadow
      ensures Untouched(old(panel))
      ensures forall r, c :: 0 <= r < rows && 0 <= c < width ==>
                panel.ram(r, c) == shadow[r, c] == framebuffer[r, c]
    {
      var k := Cursor(-1, -1, -1);
      for r := 0 to rows
        invariant Tracks(k, r) && InSync() && Untouched(old(panel))
        invariant forall i, c :: 0 <= i < r && 0 <= c < width ==> shadow[i, c] == framebuffer[i, c]
      {
        var first, last := ScanRow(r);
        if first > 0 {
          k := SendSpan(r, first - 1, last, k);
        }
      }
    }
  }
}
