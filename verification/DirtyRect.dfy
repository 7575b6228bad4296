/** components/display/ST77xx.c, ILI9341.c and SSD1351.c: colour displays that keep a shadow of
    what the panel shows and send only the rectangle that changed. Buffers are rows of bytes. */
module DirtyRect {
  import opened Memory
  import opened Panel

  datatype Model = ST77xx | ILI9341 | SSD1351

  // The changed area so far: columns in compared words, firstRow < 0 when there is none.
  datatype Rect = Rect(firstCol: int, lastCol: int, firstRow: int, lastRow: int)

  // Bytes of n pixels of 2 or 3 bytes, or of n words of 2 or 4 bytes.
  function Bytes(unit: int, n: int): int {
    if unit == 2 then 2 * n else if unit == 3 then 3 * n else 4 * n
  }

  ghost predicate InRect(rect: Rect, word: int, r: int, x: int) {
    && 0 <= rect.firstRow <= r <= rect.lastRow
    && Bytes(word, rect.firstCol) <= x < Bytes(word, rect.lastCol + 1)
  }

  // ---------------------------------------------------------------- staging

  // Whether another row of `chunk` bytes is staged behind `staged` bytes before sending.
  predicate StageMore(model: Model, staged: nat, chunk: nat) {
    if model.SSD1351? then staged < PAGE_BLOCK else staged <= PAGE_BLOCK - chunk
  }

  // How many rows one transfer holds when there are enough.
  function Lines(model: Model, chunk: nat): (n: nat)
    requires 0 < chunk
  {
    Max(1, if model.SSD1351? then (PAGE_BLOCK + chunk - 1) / chunk else PAGE_BLOCK / chunk)
  }

  // The longest transfer of a rectangle.
  function Peak(model: Model, chunk: nat, rows: nat): (n: nat)
    requires 0 < chunk
  {
    chunk * Min(rows, Lines(model, chunk))
  }

  lemma LinesExact(model: Model, k: nat, chunk: nat)
    requires 0 < k && 0 < chunk
    ensures StageMore(model, k * chunk, chunk) <==> k < Lines(model, chunk)
  {
    if model.SSD1351? {
      DivBound(PAGE_BLOCK + chunk - 1, chunk, k + 1);
      assert (k + 1) * chunk == k * chunk + chunk;
    } else {
      DivBound(PAGE_BLOCK, chunk, k + 1);
      assert (k + 1) * chunk == k * chunk + chunk;
    }
  }

  lemma LinesPositive(model: Model, chunk: nat)
    requires 0 < chunk
    ensures 0 < Lines(model, chunk)
  {
  }

  // A transfer of one more row stays within the longest one, and reaches it when it is full
  // or holds every row.
  lemma PeakStep(model: Model, chunk: nat, rows: nat, lines: nat)
    requires 0 < chunk && lines < rows && lines < Lines(model, chunk)
    ensures lines * chunk + chunk == (lines + 1) * chunk <= Peak(model, chunk, rows)
    ensures lines + 1 == rows || lines + 1 == Lines(model, chunk) ==>
              (lines + 1) * chunk == Peak(model, chunk, rows)
  {
    hide Lines;
    MulMonotonic(lines + 1, Min(rows, Lines(model, chunk)), chunk);
  }

  // Bytes Init allocates for staging: PageSize + 1 rows of the display.
  function Capacity(rowBytes: nat): (n: nat)
    requires 0 < rowBytes
  {
    (Min(8, PAGE_BLOCK / rowBytes) + 1) * rowBytes
  }

  lemma PeakBound(model: Model, chunk: nat, rows: nat)
    requires 0 < chunk
    ensures Peak(model, chunk, rows) <= if model.SSD1351? then PAGE_BLOCK - 1 + chunk else Max(PAGE_BLOCK, chunk)
  {
    MulMonotonic(Min(rows, Lines(model, chunk)), Lines(model, chunk), chunk);
    if model.SSD1351? {
      DivSplit(PAGE_BLOCK + chunk - 1, chunk);
    } else {
      DivSplit(PAGE_BLOCK, chunk);
    }
  }

  lemma CapacityBound(rowBytes: nat)
    requires 228 <= rowBytes
    ensures Capacity(rowBytes) >= Max(PAGE_BLOCK, rowBytes)
  {
    var q := PAGE_BLOCK / rowBytes;
    DivBound(PAGE_BLOCK, rowBytes, 9);
    DivSplit(PAGE_BLOCK, rowBytes);
    assert (q + 1) * rowBytes == q * rowBytes + rowBytes;
  }

  lemma CapacityNarrow(rowBytes: nat)
    requires 0 < rowBytes < 228
    ensures Capacity(rowBytes) == 9 * rowBytes
  {
    DivBound(PAGE_BLOCK, rowBytes, 8);
  }

  // Every transfer of a rectangle of the display fits n bytes.
  ghost predicate Fit(model: Model, depth: int, width: nat, height: nat, n: nat)
    requires depth in {2, 3}
  {
    forall pixels: nat, rows: nat :: 0 < pixels <= width && rows <= height ==>
      Peak(model, Bytes(depth, pixels), rows) <= n
  }

  // ST77xx and ILI9341: every transfer fits the staging block exactly when a row of the display
  // takes 228 bytes or more, or there are at most nine rows.
  lemma StagingExact(model: Model, depth: int, width: nat, height: nat)
    requires !model.SSD1351? && depth in {2, 3} && 0 < width
    ensures Fit(model, depth, width, height, Capacity(Bytes(depth, width)))
       <==> Bytes(depth, width) >= 228 || height <= 9
  {
    hide Peak, Capacity;
    var rowBytes := Bytes(depth, width);
    if rowBytes >= 228 {
      WideFit(model, depth, width, height);
    } else if height <= 9 {
      LowFit(model, depth, width, height);
    } else {
      CapacityNarrow(rowBytes);
      TenRows(model, depth, Min(width, 204 / depth));
    }
  }

  lemma WideFit(model: Model, depth: int, width: nat, height: nat)
    requires !model.SSD1351? && depth in {2, 3} && Bytes(depth, width) >= 228
    ensures Fit(model, depth, width, height, Capacity(Bytes(depth, width)))
  {
    hide Peak, Capacity;
    CapacityBound(Bytes(depth, width));
    forall pixels: nat, rows: nat | 0 < pixels <= width && rows <= height
      ensures Peak(model, Bytes(depth, pixels), rows) <= Capacity(Bytes(depth, width))
    {
      PeakBound(model, Bytes(depth, pixels), rows);
    }
  }

  lemma LowFit(model: Model, depth: int, width: nat, height: nat)
    requires depth in {2, 3} && 0 < Bytes(depth, width) < 228 && height <= 9
    ensures Fit(model, depth, width, height, Capacity(Bytes(depth, width)))
  {
    hide Peak, Capacity;
    CapacityNarrow(Bytes(depth, width));
    forall pixels: nat, rows: nat | 0 < pixels <= width && rows <= height
      ensures Peak(model, Bytes(depth, pixels), rows) <= Capacity(Bytes(depth, width))
    {
      FewRows(model, depth, pixels, width, rows);
    }
  }

  lemma FewRows(model: Model, depth: int, pixels: nat, width: nat, rows: nat)
    requires depth in {2, 3} && 0 < pixels <= width && rows <= 9
    ensures Peak(model, Bytes(depth, pixels), rows) <= 9 * Bytes(depth, width)
  {
    var chunk := Bytes(depth, pixels);
    MulMonotonic(Min(rows, Lines(model, chunk)), 9, chunk);
  }

  // Ten rows of at most 204 bytes go out in one transfer.
  lemma TenRows(model: Model, depth: int, pixels: nat)
    requires !model.SSD1351? && depth in {2, 3} && 0 < Bytes(depth, pixels) <= 204
    ensures Peak(model, Bytes(depth, pixels), 10) == 10 * Bytes(depth, pixels)
  {
    DivBound(PAGE_BLOCK, Bytes(depth, pixels), 10);
  }

  // SSD1351 is 128 pixels wide and tests after copying: with two bytes a pixel every transfer
  // fits, with three a rectangle of 113 by 7 pixels overruns the block.
  lemma StagingSSD1351(depth: int, height: nat)
    requires depth in {2, 3}
    ensures Fit(SSD1351, depth, 128, height, Capacity(Bytes(depth, 128))) <==> depth == 2 || height <= 6
  {
    if depth == 2 {
      forall pixels: nat, rows: nat | 0 < pixels <= 128 && rows <= height
        ensures Peak(SSD1351, Bytes(2, pixels), rows) <= Capacity(256)
      {
        PeakBound(SSD1351, Bytes(2, pixels), rows);
      }
    } else {
      assert Capacity(384) == 2304;
      if height <= 6 {
        forall pixels: nat, rows: nat | 0 < pixels <= 128 && rows <= height
          ensures Peak(SSD1351, Bytes(3, pixels), rows) <= Capacity(384)
        {
          MulMonotonic(Min(rows, Lines(SSD1351, Bytes(3, pixels))), 6, Bytes(3, pixels));
        }
      } else {
        assert Peak(SSD1351, Bytes(3, 113), 7) == 2373;
      }
    }
  }

  // ---------------------------------------------------------------- the rectangles an update sends

  // One more changed word.
  function Widened(rect: Rect, r: int, c: int): Rect {
    Rect(if c < rect.firstCol then c else rect.firstCol,
         if c > rect.lastCol then c else rect.lastCol,
         if rect.firstRow < 0 then r else rect.firstRow, r)
  }

  // ... and all of the first n words of row r that changed.
  function GrownOver(rect: Rect, r: int, changed: seq<bool>, n: nat): Rect
    requires n <= |changed|
  {
    if n == 0 then rect
    else if changed[n - 1] then Widened(GrownOver(rect, r, changed, n - 1), r, n - 1)
    else GrownOver(rect, r, changed, n - 1)
  }

  lemma NoneChanged(rect: Rect, r: int, changed: seq<bool>)
    ensures GrownOver(rect, r, changed, 0) == rect
  {
  }

  lemma OneMoreWord(rect: Rect, r: int, changed: seq<bool>, n: nat)
    requires n < |changed|
    ensures var q := GrownOver(rect, r, changed, n);
            GrownOver(rect, r, changed, n + 1) == if changed[n] then Widened(q, r, n) else q
  {
  }

  // Whether a pending rectangle is large enough to be sent after row r.
  predicate EnoughFor24(model: Model, height: int, rect: Rect, r: int) {
    var cols := rect.lastCol - rect.firstCol + 1;
    var bytes := if model.ILI9341? then (cols * 2 / 3) * (r - rect.firstRow + 1) * 4
                 else ((cols * 2 + 3 - 1) / 3) * (r - rect.firstRow + 1) * 3;
    !(bytes < PAGE_BLOCK && r != height - 1)
  }

  // The rectangle pending in front of row r and the one after comparing it, when changes[i] are the words of
  // row i that changed.
  ghost function Pending24(model: Model, changes: seq<seq<bool>>, words: nat, r: nat): Rect
    requires r <= |changes| && forall i :: 0 <= i < |changes| ==> |changes[i]| == words
    decreases r, 0
  {
    if r == 0 then Rect(words, 0, -1, 0)
    else
      var q := Compared24(model, changes, words, r - 1);
      if Sends24(model, changes, words, r - 1) then Rect(words, 0, -1, q.lastRow) else q
  }

  ghost function Compared24(model: Model, changes: seq<seq<bool>>, words: nat, r: nat): Rect
    requires r < |changes| && forall i :: 0 <= i < |changes| ==> |changes[i]| == words
    decreases r, 1
  {
    GrownOver(Pending24(model, changes, words, r), r, changes[r], words)
  }

  // It is sent after row r.
  ghost predicate Sends24(model: Model, changes: seq<seq<bool>>, words: nat, r: nat)
    requires r < |changes| && forall i :: 0 <= i < |changes| ==> |changes[i]| == words
    decreases r, 2
  {
    var q := Compared24(model, changes, words, r);
    q.firstRow >= 0 && EnoughFor24(model, |changes|, q, r)
  }

  // Pixels of a rectangle of words of two bytes.
  function Pixels24(rect: Rect): int {
    (rect.lastCol * 2 + 1) / 3 - rect.firstCol * 2 / 3 + 1
  }

  // Every transfer of the update that finds these changes fits n bytes.
  ghost predicate Fits24(model: Model, changes: seq<seq<bool>>, words: nat, n: nat)
    requires forall i :: 0 <= i < |changes| ==> |changes[i]| == words
  {
    forall r :: 0 <= r < |changes| && Sends24(model, changes, words, r) ==>
      FitsOne(model, Compared24(model, changes, words, r), n)
  }

  ghost predicate FitsOne(model: Model, rect: Rect, n: nat) {
    0 < Pixels24(rect) && 0 <= rect.firstRow <= rect.lastRow ==>
      Peak(model, Bytes(3, Pixels24(rect)), rect.lastRow - rect.firstRow + 1) <= n
  }

  // The first 169 words of every row.
  function Left169(height: nat): (changes: seq<seq<bool>>)
    ensures |changes| == height && forall i :: 0 <= i < height ==> |changes[i]| == 192
  {
    seq(height, i => seq(192, c => c < 169))
  }

  lemma {:induction false} Grows169(rect: Rect, r: int, changed: seq<bool>, n: nat)
    requires n <= |changed| == 192 && forall c :: 0 <= c < 192 ==> (changed[c] <==> c < 169)
    requires rect == Rect(192, 0, -1, 0) || (rect.firstCol == 0 && rect.lastCol == 168 && rect.firstRow >= 0)
    ensures n > 0 ==>
              GrownOver(rect, r, changed, n) == Rect(0, Max(rect.lastCol, Min(n - 1, 168)),
                                                     if rect.firstRow < 0 then r else rect.firstRow, r)
    decreases n
  {
    if n > 1 {
      Grows169(rect, r, changed, n - 1);
    } else if n == 1 {
      assert GrownOver(rect, r, changed, 0) == rect;
    }
  }

  lemma {:induction false} Pending169(height: nat, r: nat)
    requires r < 7 <= height
    ensures Compared24(SSD1351, Left169(height), 192, r) == Rect(0, 168, 0, r)
    ensures Pending24(SSD1351, Left169(height), 192, r) ==
            if r == 0 then Rect(192, 0, -1, 0) else Rect(0, 168, 0, r - 1)
    decreases r
  {
    hide GrownOver;
    if r > 0 {
      Pending169(height, r - 1);
      assert !EnoughFor24(SSD1351, height, Rect(0, 168, 0, r - 1), r - 1);
      assert !Sends24(SSD1351, Left169(height), 192, r - 1);
    }
    assert Pending24(SSD1351, Left169(height), 192, r)
        == if r == 0 then Rect(192, 0, -1, 0) else Rect(0, 168, 0, r - 1);
    Grows169(Pending24(SSD1351, Left169(height), 192, r), r, Left169(height)[r], 192);
  }

  // On SSD1351 with three bytes a pixel every update stays within the staging block exactly when the display
  // has at most six rows: with more, 169 changed words in each of seven rows are sent as 113 by 7 pixels.
  lemma UpdatesSSD1351(height: nat)
    ensures (forall changes: seq<seq<bool>> ::
               |changes| == height && (forall i :: 0 <= i < height ==> |changes[i]| == 192) ==>
                 Fits24(SSD1351, changes, 192, Capacity(Bytes(3, 128))))
       <==> height <= 6
  {
    if height <= 6 {
      forall changes: seq<seq<bool>> |
        |changes| == height && (forall i :: 0 <= i < height ==> |changes[i]| == 192)
        ensures Fits24(SSD1351, changes, 192, Capacity(Bytes(3, 128)))
      {
        StagingSSD1351(3, height);
        FitSends(SSD1351, changes, 128, Capacity(Bytes(3, 128)));
      }
    } else {
      Pending169(height, 6);
      assert Capacity(Bytes(3, 128)) == 2304;
      assert EnoughFor24(SSD1351, height, Rect(0, 168, 0, 6), 6);
      assert Sends24(SSD1351, Left169(height), 192, 6);
      assert !FitsOne(SSD1351, Compared24(SSD1351, Left169(height), 192, 6), 2304);
      assert !Fits24(SSD1351, Left169(height), 192, 2304);
    }
  }

  // Rectangles that grow from nothing stay on the display.
  lemma {:induction false} GrownOk(rect: Rect, r: nat, changed: seq<bool>, n: nat)
    requires n <= |changed|
    requires if rect.firstRow < 0 then rect.firstCol == |changed| && rect.lastCol == 0
             else rect.firstRow <= rect.lastRow < r && 0 <= rect.firstCol <= rect.lastCol < |changed|
    ensures var q := GrownOver(rect, r, changed, n);
            if q.firstRow < 0 then q.firstCol == |changed| && q.lastCol == 0 && q.lastRow == rect.lastRow
            else q.firstRow <= q.lastRow <= r && 0 <= q.firstCol <= q.lastCol < |changed|
    decreases n
  {
    if n > 0 {
      GrownOk(rect, r, changed, n - 1);
    }
  }

  lemma {:induction false} PendingOk(model: Model, changes: seq<seq<bool>>, words: nat, r: nat)
    requires r < |changes| && forall i :: 0 <= i < |changes| ==> |changes[i]| == words
    ensures var p, q := Pending24(model, changes, words, r), Compared24(model, changes, words, r);
            && (if p.firstRow < 0 then p.firstCol == words && p.lastCol == 0
                else p.firstRow <= p.lastRow < r && 0 <= p.firstCol <= p.lastCol < words)
            && (if q.firstRow < 0 then q.firstCol == words && q.lastCol == 0
                else q.firstRow <= q.lastRow <= r && 0 <= q.firstCol <= q.lastCol < words)
    decreases r
  {
    hide GrownOver, EnoughFor24;
    if r > 0 {
      PendingOk(model, changes, words, r - 1);
    }
    GrownOk(Pending24(model, changes, words, r), r, changes[r], words);
  }

  // A block that holds the transfers of every rectangle of the display holds those of every update.
  lemma FitSends(model: Model, changes: seq<seq<bool>>, width: nat, n: nat)
    requires width % 2 == 0 && forall i :: 0 <= i < |changes| ==> |changes[i]| == width * 3 / 2
    requires Fit(model, 3, width, |changes|, n)
    ensures Fits24(model, changes, width * 3 / 2, n)
  {
    hide Peak, Compared24, EnoughFor24;
    var words := width * 3 / 2;
    forall r | 0 <= r < |changes| && Sends24(model, changes, words, r)
      ensures FitsOne(model, Compared24(model, changes, words, r), n)
    {
      PendingOk(model, changes, words, r);
      var q := Compared24(model, changes, words, r);
      RoundOut(q.firstCol, q.lastCol, width);
    }
  }

  // ---------------------------------------------------------------- the drivers

  // Two-byte words rounded out to three-byte pixels cover the words and stay on the row.
  lemma RoundOut(firstCol: nat, lastCol: nat, width: nat)
    requires width % 2 == 0 && firstCol <= lastCol < width * 3 / 2
    ensures firstCol * 2 / 3 <= (lastCol * 2 + 1) / 3 < width
    ensures 3 * (firstCol * 2 / 3) <= 2 * firstCol
    ensures 2 * (lastCol + 1) <= 3 * ((lastCol * 2 + 1) / 3 + 1)
  {
  }

  lemma WholeWords(width: nat)
    requires width % 2 == 0
    ensures 2 * (width * 3 / 2) == 3 * width
  {
    var half := width / 2;
    assert width == 2 * half;
    DivModUnique(width * 3, 3 * half, 2, 0);
  }

  class ColourDriver {
    const model: Model
    const height: nat
    const width: nat
    const depth: int
    const offRow: nat
    const offCol: nat
    const shadow: array2<byte>
    const framebuffer: array2<byte>
    const iram: array?<byte>
    var panel: Panel

    // Width is even; SSD1351 has no offset.
    ghost predicate Valid() {
      && 0 < width && width % 2 == 0 && depth in {2, 3}
      && shadow != framebuffer
      && shadow.Length0 == framebuffer.Length0 == height
      && shadow.Length1 == framebuffer.Length1 == Bytes(depth, width)
    }

    // The staging block holds the longest transfer of any rectangle.
    ghost predicate StagingFits()
      requires Valid()
    {
      iram != null ==> Fit(model, depth, width, height, iram.Length)
    }

    ghost predicate Shown(a: array2<byte>, r: int, x: int)
      requires 0 <= r < a.Length0 && 0 <= x < a.Length1
      reads this, a
    {
      panel.ram(r + offRow, x + Bytes(depth, offCol)) == a[r, x]
    }

    // The window lo..hi, firstRow..lastRow is set and the pointer is at its start.
    ghost predicate Aimed(p: Panel, lo: nat, hi: nat, firstRow: nat, lastRow: nat) {
      && p.left == p.x == lo + Bytes(depth, offCol) && p.right == hi + Bytes(depth, offCol)
      && p.top == p.row == firstRow + offRow && p.bottom == lastRow + offRow
    }

    // The rows of a rectangle, one transfer each.
    method SendDirect(lo: nat, hi: nat, firstRow: nat, lastRow: nat)
      requires Valid() && lo < hi <= Bytes(depth, width) && firstRow <= lastRow < height
      modifies this`panel
      ensures panel == WriteData(old(panel), Flat(RowsOf(shadow, firstRow, lastRow + 1, lo, hi)))
    {
      hide WriteData, Flat;
      NoRows(panel, firstRow, lo, hi);
      for i := firstRow to lastRow + 1
        invariant panel == WriteData(old(panel), Flat(RowsOf(shadow, firstRow, i, lo, hi)))
      {
        var row := RowBytes(shadow, i, lo, hi);
        RowAfterRows(old(panel), firstRow, i, lo, hi);
        panel := WriteData(panel, row);
      }
    }

    lemma NoRows(p: Panel, first: nat, lo: nat, hi: nat)
      requires Valid() && lo <= hi <= Bytes(depth, width) && first <= height
      ensures WriteData(p, Flat(RowsOf(shadow, first, first, lo, hi))) == p
      ensures Flat(RowsOf(shadow, first, first, lo, hi)) == []
    {
    }

    lemma RowAfterRows(p: Panel, first: nat, i: nat, lo: nat, hi: nat)
      requires Valid() && lo <= hi <= Bytes(depth, width) && first <= i < height
      ensures var rows, row := RowsOf(shadow, first, i, lo, hi), RowBytes(shadow, i, lo, hi);
              && Flat(RowsOf(shadow, first, i + 1, lo, hi)) == Flat(rows) + row
              && WriteData(WriteData(p, Flat(rows)), row) == WriteData(p, Flat(RowsOf(shadow, first, i + 1, lo, hi)))
    {
      var rows, row := RowsOf(shadow, first, i, lo, hi), RowBytes(shadow, i, lo, hi);
      assert RowsOf(shadow, first, i + 1, lo, hi) == rows + [row];
      FlatMore(rows, row);
      WriteConcat(p, Flat(rows), row);
    }

    // The rows of a rectangle through the staging block: the bytes sent are the rows one after the
    // other, each once, in transfers of which peak is the longest.
    method SendStaged(lo: nat, hi: nat, firstRow: nat, lastRow: nat) returns (peak: nat, ghost sent: seq<seq<byte>>)
      requires Valid() && lo < hi <= Bytes(depth, width) && firstRow <= lastRow < height
      requires iram != null && Peak(model, hi - lo, lastRow - firstRow + 1) <= iram.Length
      modifies this`panel, iram
      ensures peak == Peak(model, hi - lo, lastRow - firstRow + 1)
      ensures Flat(sent) == Flat(RowsOf(shadow, firstRow, lastRow + 1, lo, hi))
      ensures forall k :: 0 <= k < |sent| ==> 0 < |sent[k]| <= peak
      ensures panel == WriteData(old(panel), Flat(sent))
    {
      hide Lines, Peak, WriteData, Flat;
      var staged: nat, lines: nat := 0, 0;
      var chunk, rows := hi - lo, lastRow - firstRow + 1;
      peak, sent := 0, [];
      NoRows(panel, firstRow, lo, hi);
      NothingFlat(panel);
      LinesPositive(model, chunk);
      for i := firstRow to lastRow + 1
        invariant staged == lines * chunk && lines < Lines(model, chunk) && staged <= iram.Length
        invariant lines <= i - firstRow && (i > lastRow ==> lines == 0)
        invariant peak == if lines == i - firstRow then 0 else Peak(model, chunk, rows)
        invariant Flat(sent) + iram[..staged] == Flat(RowsOf(shadow, firstRow, i, lo, hi))
        invariant panel == WriteData(old(panel), Flat(sent))
        invariant forall k :: 0 <= k < |sent| ==> 0 < |sent[k]| <= peak
      {
        var row := RowBytes(shadow, i, lo, hi);
        RowAfterRows(old(panel), firstRow, i, lo, hi);
        PeakStep(model, chunk, rows, lines);
        ghost var block := iram[..staged] + row;
        assert (Flat(sent) + iram[..staged]) + row == Flat(sent) + block;
        staged, lines, peak := StageRow(row, staged, lines, i == lastRow, peak);
        if lines == 0 {
          FlatMore(sent, block);
          WriteConcat(old(panel), Flat(sent), block);
          sent := sent + [block];
        }
      }
      assert iram[..0] == [];
    }

    lemma NothingFlat(p: Panel)
      ensures Flat([]) == [] && WriteData(p, []) == p
    {
    }

    // One row through the staging block, sent when another would not fit or none is left.
    method StageRow(row: seq<byte>, staged: nat, lines: nat, final: bool, peak: nat)
        returns (staged': nat, lines': nat, peak': nat)
      requires iram != null && row != [] && staged == lines * |row| && lines < Lines(model, |row|)
      requires staged + |row| <= iram.Length
      modifies this`panel, iram
      ensures staged' == lines' * |row| && staged' <= iram.Length
      ensures lines' == if final || lines + 1 == Lines(model, |row|) then 0 else lines + 1
      ensures peak' == if lines' == 0 then Max(peak, (lines + 1) * |row|) else peak
      ensures panel == if lines' == 0 then WriteData(old(panel), old(iram[..staged]) + row) else old(panel)
      ensures iram[..staged'] == if lines' == 0 then [] else old(iram[..staged]) + row
    {
      hide Lines, StageMore;
      ghost var before := iram[..staged];
      Store(iram, staged, row);
      staged', lines', peak' := staged + |row|, lines + 1, peak;
      assert iram[..staged'] == before + row;
      LinesExact(model, lines', |row|);
      assert staged' == lines' * |row|;
      if StageMore(model, staged', |row|) && !final {
        return;
      }
      peak' := Max(peak, staged');
      panel := WriteData(panel, iram[..staged']);
      staged', lines' := 0, 0;
    }

    // Rows firstRow..i of the rectangle have reached the panel.
    ghost predicate Sent(before: Panel, now: Panel, lo: nat, hi: nat, firstRow: nat, i: nat)
      requires Valid() && lo < hi <= Bytes(depth, width) && i <= height
      reads shadow
    {
      forall r, x :: now.ram(r, x) ==
        if firstRow + offRow <= r < i + offRow && lo <= x - Bytes(depth, offCol) < hi
        then shadow[r - offRow, x - Bytes(depth, offCol)] else before.ram(r, x)
    }

    // The rows land in the window they were aimed at.
    lemma RectLands(p: Panel, lo: nat, hi: nat, firstRow: nat, lastRow: nat)
      requires Valid() && lo < hi <= Bytes(depth, width) && firstRow <= lastRow < height
      requires Aimed(p, lo, hi, firstRow, lastRow)
      ensures Sent(p, WriteData(p, Flat(RowsOf(shadow, firstRow, lastRow + 1, lo, hi))), lo, hi, firstRow, lastRow + 1)
    {
      var rows := RowsOf(shadow, firstRow, lastRow + 1, lo, hi);
      WriteRows(p, rows);
      hide WriteData, Flat;
    }

    // Set the window and send the rectangle, columns in pixels, from the shadow.
    method SendRect(firstCol: nat, lastCol: nat, firstRow: nat, lastRow: nat)
      requires Valid() && firstCol <= lastCol < width && firstRow <= lastRow < height
      requires iram != null ==>
                 Peak(model, Bytes(depth, lastCol - firstCol + 1), lastRow - firstRow + 1) <= iram.Length
      modifies this`panel, if iram == null then {} else {iram}
      ensures Sent(old(panel), panel, Bytes(depth, firstCol), Bytes(depth, lastCol + 1), firstRow, lastRow + 1)
    {
      hide Sent, Peak, WriteData, Flat;
      var lo, hi := Bytes(depth, firstCol), Bytes(depth, lastCol + 1);
      ghost var before := panel;
      panel := SetRows(panel, firstRow + offRow, lastRow + offRow);
      panel := SetColumns(panel, Bytes(depth, firstCol + offCol), Bytes(depth, lastCol + 1 + offCol));
      panel := EnableWrite(panel);
      ghost var aimed := panel;
      if iram != null {
        SameChunk(firstCol, lastCol);
        var _, _ := SendStaged(lo, hi, firstRow, lastRow);
      } else {
        SendDirect(lo, hi, firstRow, lastRow);
      }
      RectLands(aimed, lo, hi, firstRow, lastRow);
      SameRam(before, aimed, panel, lo, hi, firstRow, lastRow + 1);
    }

    lemma SameChunk(firstCol: nat, lastCol: nat)
      requires Valid() && firstCol <= lastCol
      ensures Bytes(depth, lastCol + 1) - Bytes(depth, firstCol) == Bytes(depth, lastCol - firstCol + 1)
    {
    }

    lemma FitsRect(pixels: nat, rows: nat, chunk: nat)
      requires Valid() && StagingFits() && iram != null && 0 < pixels <= width && rows <= height
      requires chunk == Bytes(depth, pixels)
      ensures Peak(model, chunk, rows) <= iram.Length
    {
    }

    lemma SameRam(before: Panel, aimed: Panel, now: Panel, lo: nat, hi: nat, firstRow: nat, i: nat)
      requires Valid() && lo < hi <= Bytes(depth, width) && i <= height
      requires before.ram == aimed.ram && Sent(aimed, now, lo, hi, firstRow, i)
      ensures Sent(before, now, lo, hi, firstRow, i)
    {
    }

    // Rectangles grow from nothing over the rows already compared.
    ghost predicate RectOk(rect: Rect, words: int, rows: int) {
      if rect.firstRow < 0 then rect.firstCol == words && rect.lastCol == 0
      else rect.firstRow <= rect.lastRow < rows && 0 <= rect.firstCol <= rect.lastCol < words
    }

    ghost predicate Grown(rect: Rect, rect': Rect) {
      rect.firstRow < 0 ||
      (0 <= rect'.firstRow <= rect.firstRow && rect.lastRow <= rect'.lastRow
       && rect'.firstCol <= rect.firstCol && rect.lastCol <= rect'.lastCol)
    }

    // Words are compared whole.
    predicate WordEqual(r: nat, word: int, c: nat)
      requires Valid() && r < height && word in {2, 4} && Bytes(word, c + 1) <= shadow.Length1
      reads shadow, framebuffer
    {
      forall x :: Bytes(word, c) <= x < Bytes(word, c + 1) ==> shadow[r, x] == framebuffer[r, x]
    }

    // The first n words of a row, and of all rows, that differ.
    ghost function Changed(r: nat, word: int, n: nat): (changed: seq<bool>)
      requires Valid() && r < height && word in {2, 4} && Bytes(word, n) <= shadow.Length1
      reads shadow, framebuffer
      ensures |changed| == n && forall c :: 0 <= c < n ==> changed[c] == !WordEqual(r, word, c)
    {
      seq(n, c requires 0 <= c < n reads shadow, framebuffer => !WordEqual(r, word, c))
    }

    ghost function Changes(word: int, words: nat): (changes: seq<seq<bool>>)
      requires Valid() && word in {2, 4} && Bytes(word, words) <= shadow.Length1
      reads shadow, framebuffer
      ensures |changes| == height && forall r :: 0 <= r < height ==> changes[r] == Changed(r, word, words)
    {
      seq(height, r requires 0 <= r < height reads shadow, framebuffer => Changed(r, word, words))
    }

    // Words of two bytes in rows of three-byte pixels.
    ghost function Changes24(): (changes: seq<seq<bool>>)
      requires Valid() && depth == 3
      reads shadow, framebuffer
      ensures |changes| == height && forall r :: 0 <= r < height ==> |changes[r]| == width * 3 / 2
    {
      WholeWords(width);
      Changes(2, width * 3 / 2)
    }

    method CopyWord(r: nat, word: int, c: nat)
      requires Valid() && r < height && word in {2, 4} && Bytes(word, c + 1) <= shadow.Length1
      modifies shadow
      ensures forall i, x :: 0 <= i < height && 0 <= x < shadow.Length1 ==>
                shadow[i, x] == if i == r && Bytes(word, c) <= x < Bytes(word, c + 1)
                                then framebuffer[i, x] else old(shadow[i, x])
    {
      for k := 0 to word
        invariant forall i, x :: 0 <= i < height && 0 <= x < shadow.Length1 ==>
                    shadow[i, x] == if i == r && Bytes(word, c) <= x < Bytes(word, c) + k
                                    then framebuffer[i, x] else old(shadow[i, x])
      {
        shadow[r, Bytes(word, c) + k] := framebuffer[r, Bytes(word, c) + k];
      }
    }

    // Compares one row, copies what changed and grows the rectangle over it.
    method CompareRow(r: nat, rect: Rect, word: int, words: nat) returns (rect': Rect)
      requires Valid() && r < height && word in {2, 4} && Bytes(word, words) == shadow.Length1
      requires RectOk(rect, words, r)
      modifies shadow
      ensures RectOk(rect', words, r + 1) && Grown(rect, rect')
      ensures rect' == GrownOver(rect, r, old(Changed(r, word, words)), words)
      ensures forall i, x :: 0 <= i < height && 0 <= x < shadow.Length1 ==>
                shadow[i, x] == if i == r then framebuffer[i, x] else old(shadow[i, x])
      ensures forall x :: 0 <= x < shadow.Length1 && old(shadow[r, x]) != framebuffer[r, x] ==>
                InRect(rect', word, r, x)
    {
      hide GrownOver, Widened;
      rect' := rect;
      ghost var changed := Changed(r, word, words);
      NoneChanged(rect, r, changed);
      for c := 0 to words
        invariant RectOk(rect', words, r + 1) && Grown(rect, rect')
        invariant rect' == GrownOver(rect, r, changed, c)
        invariant forall i, x :: 0 <= i < height && 0 <= x < shadow.Length1 ==>
                    shadow[i, x] == if i == r && x < Bytes(word, c) then framebuffer[i, x] else old(shadow[i, x])
        invariant forall x :: 0 <= x < Bytes(word, c) && old(shadow[r, x]) != framebuffer[r, x] ==>
                    InRect(rect', word, r, x)
      {
        OneMoreWord(rect, r, changed, c);
        if !WordEqual(r, word, c) {
          CopyWord(r, word, c);
          WidenedIs(rect', word, words, r, c);
          rect' := Widened(rect', r, c);
        }
      }
    }

    // A rectangle widened over a word covers it and what it covered before.
    lemma WidenedIs(rect: Rect, word: int, words: nat, r: nat, c: nat)
      requires word in {2, 4} && RectOk(rect, words, r + 1) && c < words
      ensures var q := Widened(rect, r, c);
              && RectOk(q, words, r + 1) && Grown(rect, q)
              && (forall x :: Bytes(word, c) <= x < Bytes(word, c + 1) ==> InRect(q, word, r, x))
              && (forall x :: InRect(rect, word, r, x) ==> InRect(q, word, r, x))
    {
    }

    // The panel shows the shadow everywhere but in the pending rectangle.
    ghost predicate InSync(rect: Rect, word: int)
      requires Valid()
      reads this, shadow
    {
      forall r, x :: 0 <= r < height && 0 <= x < shadow.Length1 ==>
        InRect(rect, word, r, x) || Shown(shadow, r, x)
    }

    // RAM outside the display's part of the panel.
    ghost predicate Untouched(before: Panel, now: Panel)
      requires Valid()
    {
      forall r, x ::
        (offRow <= r < offRow + height && 0 <= x - Bytes(depth, offCol) < shadow.Length1)
        || now.ram(r, x) == before.ram(r, x)
    }

    ghost predicate Mirrored()
      requires Valid()
      reads this, shadow, framebuffer
    {
      forall r, x :: 0 <= r < height && 0 <= x < shadow.Length1 ==>
        shadow[r, x] == framebuffer[r, x] && Shown(framebuffer, r, x)
    }

    ghost predicate RowsDone(r: nat)
      requires Valid() && r <= height
      reads shadow, framebuffer
    {
      forall i, x :: 0 <= i < r && 0 <= x < shadow.Length1 ==> shadow[i, x] == framebuffer[i, x]
    }

    // Compare one row of the loop and keep the panel in step with the grown rectangle.
    method AdvanceRow(r: nat, rect: Rect, word: int, words: nat) returns (rect': Rect)
      requires Valid() && r < height && word in {2, 4} && Bytes(word, words) == shadow.Length1
      requires RectOk(rect, words, r) && InSync(rect, word) && RowsDone(r)
      modifies shadow
      ensures RectOk(rect', words, r + 1) && InSync(rect', word) && RowsDone(r + 1)
      ensures rect' == GrownOver(rect, r, old(Changed(r, word, words)), words)
      ensures forall i, x :: r < i < height && 0 <= x < shadow.Length1 ==> shadow[i, x] == old(shadow[i, x])
    {
      rect' := CompareRow(r, rect, word, words);
      assert forall i, x :: InRect(rect, word, i, x) ==> InRect(rect', word, i, x);
    }

    // Send the pending rectangle; first and last are its columns in pixels.
    method Flush(rect: Rect, word: int, words: nat, first: nat, last: nat, r: nat) returns (rect': Rect)
      requires Valid() && r < height && word in {2, 4} && Bytes(word, words) == shadow.Length1
      requires 0 <= rect.firstRow && RectOk(rect, words, r + 1) && InSync(rect, word)
      requires first <= last < width
      requires iram != null ==>
                 Peak(model, Bytes(depth, last - first + 1), rect.lastRow - rect.firstRow + 1) <= iram.Length
      requires Bytes(depth, first) <= Bytes(word, rect.firstCol)
      requires Bytes(word, rect.lastCol + 1) <= Bytes(depth, last + 1)
      modifies this`panel, if iram == null then {} else {iram}
      ensures rect' == Rect(words, 0, -1, rect.lastRow)
      ensures InSync(rect', word) && Untouched(old(panel), panel)
    {
      ghost var before := panel;
      SendRect(first, last, rect.firstRow, rect.lastRow);
      forall i, x | 0 <= i < height && 0 <= x < shadow.Length1
        ensures Shown(shadow, i, x)
      {
        var shown := panel.ram(i + offRow, x + Bytes(depth, offCol));
        assert InRect(rect, word, i, x) || before.ram(i + offRow, x + Bytes(depth, offCol)) == shadow[i, x];
        assert shown == if rect.firstRow <= i <= rect.lastRow && Bytes(depth, first) <= x < Bytes(depth, last + 1)
                        then shadow[i, x] else before.ram(i + offRow, x + Bytes(depth, offCol));
      }
      rect' := Rect(words, 0, -1, rect.lastRow);
    }

    // Whether a pending rectangle is sent after row r: when its words fill a block, or nothing follows.
    predicate Enough16(rect: Rect, r: int): (e: bool)
      ensures r == height - 1 ==> e
      ensures r != height - 1 ==>
                (e <==> (r - rect.firstRow + 1) * (rect.lastCol - rect.firstCol + 1) * 4 >= 2048)
    {
      !((rect.lastCol - rect.firstCol + 1) * (r - rect.firstRow + 1) * 4 < PAGE_BLOCK && r != height - 1)
    }

    predicate Enough24(rect: Rect, r: int): (e: bool)
      ensures r == height - 1 ==> e
    {
      EnoughFor24(model, height, rect, r)
    }

    // Update16: two pixels of two bytes are compared at a time.
    method Update16()
      requires Valid() && StagingFits() && depth == 2
      requires InSync(Rect(width / 2, 0, -1, 0), 4)
      modifies this`panel, shadow, if iram == null then {} else {iram}
      ensures Mirrored() && Untouched(old(panel), panel)
    {
      hide InSync, RowsDone, Untouched, Enough16;
      var words := width / 2;
      var rect := Rect(words, 0, -1, 0);
      StartUpdate();
      for r := 0 to height
        invariant RectOk(rect, words, r) && InSync(rect, 4) && RowsDone(r)
        invariant Untouched(old(panel), panel)
        invariant r == height ==> rect.firstRow < 0
      {
        rect := AdvanceRow(r, rect, 4, words);
        if rect.firstRow < 0 || !Enough16(rect, r) {
          continue;
        }
        ghost var before := panel;
        if iram != null {
          FitsRect(2 * (rect.lastCol - rect.firstCol + 1), rect.lastRow - rect.firstRow + 1,
                   Bytes(2, 2 * (rect.lastCol - rect.firstCol + 1)));
        }
        rect := Flush(rect, 4, words, rect.firstCol * 2, rect.lastCol * 2 + 1, r);
        StillUntouched(old(panel), before, panel);
      }
      FinishUpdate(rect, 4);
    }

    // Update24: pixels take three bytes but two bytes are compared at a time, so the columns
    // are rounded out to whole pixels. The staging block must hold what this update sends.
    method Update24()
      requires Valid() && depth == 3
      requires iram != null ==> Fits24(model, Changes24(), width * 3 / 2, iram.Length)
      requires InSync(Rect(width * 3 / 2, 0, -1, 0), 2)
      modifies this`panel, shadow, if iram == null then {} else {iram}
      ensures Mirrored() && Untouched(old(panel), panel)
    {
      hide InSync, RowsDone, Untouched, EnoughFor24, GrownOver, Peak;
      var words := width * 3 / 2;
      WholeWords(width);
      ghost var changes := Changes24();
      var rect := Rect(words, 0, -1, 0);
      StartUpdate();
      for r := 0 to height
        invariant RectOk(rect, words, r) && InSync(rect, 2) && RowsDone(r)
        invariant Untouched(old(panel), panel)
        invariant r == height ==> rect.firstRow < 0
        invariant rect == Pending24(model, changes, words, r)
        invariant forall i, x :: r <= i < height && 0 <= x < shadow.Length1 ==> shadow[i, x] == old(shadow[i, x])
      {
        assert Changed(r, 2, words) == changes[r];
        rect := AdvanceRow(r, rect, 2, words);
        assert rect == Compared24(model, changes, words, r);
        if rect.firstRow < 0 || !Enough24(rect, r) {
          continue;
        }
        ghost var before := panel;
        RoundOut(rect.firstCol, rect.lastCol, width);
        assert Sends24(model, changes, words, r);
        rect := Flush(rect, 2, words, rect.firstCol * 2 / 3, (rect.lastCol * 2 + 1) / 3, r);
        StillUntouched(old(panel), before, panel);
      }
      FinishUpdate(rect, 2);
    }

    lemma StartUpdate()
      requires Valid()
      ensures RowsDone(0) && Untouched(panel, panel)
    {
    }

    lemma StillUntouched(p0: Panel, p1: Panel, p2: Panel)
      requires Valid() && Untouched(p0, p1) && Untouched(p1, p2)
      ensures Untouched(p0, p2)
    {
    }

    lemma FinishUpdate(rect: Rect, word: int)
      requires Valid() && rect.firstRow < 0 && InSync(rect, word) && RowsDone(height)
      ensures Mirrored()
    {
      forall r, x | 0 <= r < height && 0 <= x < shadow.Length1
        ensures shadow[r, x] == framebuffer[r, x] && Shown(framebuffer, r, x)
      {
        assert Shown(shadow, r, x);
      }
    }
  }
}