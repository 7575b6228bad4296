/** components/display/SSD132x.c, Update4: a greyscale display that sends whole pages of rows when
    anything in the page changed. Rows are counted in bytes, two pixels each. */
module PageUpdate {
  import opened Memory
  import opened Panel

  predicate Divides(n: nat, rows: nat)
    requires 0 < n
  {
    rows % n == 0
  }

  lemma DividesIs(n: nat, rows: nat)
    requires 0 < n
    ensures Divides(n, rows) <==> rows == rows / n * n
    ensures Divides(1, rows)
  {
    DivSplit(rows, n);
  }

  lemma BlockHolds(n: nat, width: nat)
    requires 0 < n && 0 < width <= PAGE_BLOCK
    ensures n <= PAGE_BLOCK / width <==> n * width <= PAGE_BLOCK
    ensures 1 <= PAGE_BLOCK / width
  {
    DivBound(PAGE_BLOCK, width, n);
    DivBound(PAGE_BLOCK, width, 1);
  }

  // The page Init chooses: the largest of at most eight rows and one block that divides the height.
  method PageFor(rows: nat, width: nat) returns (n: nat)
    requires 0 < width <= PAGE_BLOCK
    ensures 0 < n <= 8 && n * width <= PAGE_BLOCK && Divides(n, rows)
    ensures forall k {:trigger Divides(k, rows)} :: n < k <= 8 && k * width <= PAGE_BLOCK ==> !Divides(k, rows)
  {
    hide Divides;
    BlockHolds(1, width);
    n := Min(8, PAGE_BLOCK / width);
    ghost var most := n;
    while n > 0 && rows != rows / n * n
      invariant 0 < n <= most
      invariant forall k :: n < k <= most ==> !Divides(k, rows)
    {
      DividesIs(n, rows);
      n := n - 1;
    }
    DividesIs(n, rows);
    BlockHolds(n, width);
    forall k | n < k <= 8 && k * width <= PAGE_BLOCK
      ensures !Divides(k, rows)
    {
      BlockHolds(k, width);
    }
  }

  class PageDriver {
    const rows: nat
    const width: nat
    const pageSize: nat
    const shadow: array2<byte>
    const framebuffer: array2<byte>
    var panel: Panel

    // Bytes are compared two at a time.
    ghost predicate Valid() {
      && 0 < width && width % 2 == 0 && 0 < pageSize && Divides(pageSize, rows)
      && shadow != framebuffer
      && shadow.Length0 == framebuffer.Length0 == rows
      && shadow.Length1 == framebuffer.Length1 == width
    }

    // Init
    constructor (shadow: array2<byte>, framebuffer: array2<byte>, panel: Panel)
      requires shadow != framebuffer && shadow.Length0 == framebuffer.Length0
      requires shadow.Length1 == framebuffer.Length1 && shadow.Length1 % 2 == 0
      requires 0 < shadow.Length1 <= PAGE_BLOCK
      ensures Valid() && this.shadow == shadow && this.framebuffer == framebuffer && this.panel == panel
      ensures pageSize <= 8 && pageSize * width <= PAGE_BLOCK
      ensures forall n :: pageSize < n <= 8 && n * width <= PAGE_BLOCK ==> !Divides(n, rows)
    {
      this.shadow, this.framebuffer, this.panel := shadow, framebuffer, panel;
      rows, width := shadow.Length0, shadow.Length1;
      var n := PageFor(shadow.Length0, shadow.Length1);
      pageSize := n;
    }

    // The panel shows the shadow in the rows lo..hi.
    ghost predicate Shown(lo: int, hi: int)
      requires Valid() && 0 <= lo && hi <= rows
      reads this, shadow
    {
      forall r, c :: lo <= r < hi && 0 <= c < width ==> panel.ram(r, c) == shadow[r, c]
    }

    ghost predicate Copied(lo: int, hi: int)
      requires Valid() && 0 <= lo && hi <= rows
      reads shadow, framebuffer
    {
      forall r, c :: lo <= r < hi && 0 <= c < width ==> shadow[r, c] == framebuffer[r, c]
    }

    // Copies what changed in row r and says whether anything did.
    method CompareRow(r: nat) returns (changed: bool)
      requires Valid() && r < rows
      modifies shadow
      ensures forall i, c :: 0 <= i < rows && 0 <= c < width ==>
                shadow[i, c] == if i == r then framebuffer[i, c] else old(shadow[i, c])
      ensures changed <==> exists c :: 0 <= c < width && old(shadow[r, c]) != framebuffer[r, c]
    {
      changed := false;
      var c := 0;
      while c < width
        invariant 0 <= c <= width && c % 2 == 0
        invariant forall i, k :: 0 <= i < rows && 0 <= k < width ==>
                    shadow[i, k] == if i == r && k < c then framebuffer[i, k] else old(shadow[i, k])
        invariant changed <==> exists k :: 0 <= k < c && old(shadow[r, k]) != framebuffer[r, k]
      {
        if shadow[r, c] != framebuffer[r, c] || shadow[r, c + 1] != framebuffer[r, c + 1] {
          changed := true;
          shadow[r, c], shadow[r, c + 1] := framebuffer[r, c], framebuffer[r, c + 1];
        }
        c := c + 2;
      }
    }

    // The page of rows lo..hi.
    method SendPage(lo: nat, hi: nat)
      requires Valid() && lo < hi <= rows
      requires panel.left == panel.x == 0 && panel.right == width
      modifies this`panel
      ensures panel.left == panel.x == 0 && panel.right == width
      ensures forall i, c :: panel.ram(i, c) ==
                if lo <= i < hi && 0 <= c < width then shadow[i, c] else old(panel).ram(i, c)
    {
      panel := SetRows(panel, lo, hi - 1);
      var page := RowsOf(shadow, lo, hi, 0, width);
      WriteRows(panel, page);
      panel := WriteData(panel, Flat(page));
    }

    // Before row r, with `page` rows of the current page compared: all shown but this page's rows,
    // and these too if none of them changed.
    ghost predicate Going(r: nat, page: nat, dirty: bool)
      requires Valid() && page <= r <= rows
      reads this, shadow, framebuffer
    {
      && panel.left == panel.x == 0 && panel.right == width
      && Copied(0, r) && Shown(0, r - page) && Shown(r, rows) && (!dirty ==> Shown(r - page, r))
    }

    ghost predicate Untouched(before: Panel)
      reads this
    {
      forall r, c :: !(0 <= r < rows && 0 <= c < width) ==> panel.ram(r, c) == before.ram(r, c)
    }

    // One row of the loop of Update4.
    method Turn(r: nat, page: nat, dirty: bool) returns (page': nat, dirty': bool)
      requires Valid() && r < rows && page <= r && page < pageSize && Going(r, page, dirty)
      modifies this`panel, shadow
      ensures page' == (if page + 1 == pageSize then 0 else page + 1)
      ensures Going(r + 1, page', dirty') && Untouched(old(panel))
    {
      var changed := CompareRow(r);
      page', dirty' := page + 1, dirty || changed;
      assert Going(r + 1, page', dirty');
      if page' == pageSize {
        if dirty' {
          SendPage(r + 1 - page', r + 1);
          dirty' := false;
        }
        page' := 0;
      }
    }

    // Update4
    method Update()
      requires Valid() && Shown(0, rows)
      modifies this`panel, shadow
      ensures Copied(0, rows) && Shown(0, rows) && Untouched(old(panel))
    {
      panel := SetColumns(panel, 0, width);
      var dirty := false;
      var page, pages := 0, 0;
      for r := 0 to rows
        invariant 0 <= page < pageSize && page <= r && r == pages * pageSize + page
        invariant Going(r, page, dirty) && Untouched(old(panel))
      {
        if page + 1 == pageSize {
          Successor(pages, pageSize);
          pages := pages + 1;
        }
        page, dirty := Turn(r, page, dirty);
      }
      DivModUnique(rows, pages, pageSize, page);
    }
  }
}
