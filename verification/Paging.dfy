/** Which page and which slot of it a slot number stands for.

    The page size is symbolic, so products and quotients by it are not linear. Page numbers and
    offsets are therefore counted page by page; FirstIsProduct and PageOfIsQuotient say that
    this is the usual arithmetic. */
module Paging {

  // s_dirsize: the bytes of one directory slot.
  const DIR_SIZE: nat := 64

  type SlotsPerPage = k: nat | k >= 2 witness 64

  // The page size is any number of slots of DIR_SIZE bytes, at least two.
  const SLOTS_PER_PAGE: SlotsPerPage
  const PAGE_SIZE: nat := DIR_SIZE * SLOTS_PER_PAGE

  function PageOf(i: nat): nat {
    if i < SLOTS_PER_PAGE then 0 else 1 + PageOf(i - SLOTS_PER_PAGE)
  }

  function Offset(i: nat): (p: nat)
    ensures p < SLOTS_PER_PAGE
  {
    if i < SLOTS_PER_PAGE then i else Offset(i - SLOTS_PER_PAGE)
  }

  // The first slot of page n.
  function First(n: nat): nat {
    if n == 0 then 0 else First(n - 1) + SLOTS_PER_PAGE
  }

  lemma {:induction false} FirstIsProduct(n: nat)
    ensures First(n) == n * SLOTS_PER_PAGE
  {
    if n > 0 {
      FirstIsProduct(n - 1);
    }
  }

  lemma {:induction false} IndexSplits(n: nat, p: nat)
    requires p < SLOTS_PER_PAGE
    ensures PageOf(First(n) + p) == n && Offset(First(n) + p) == p
    decreases n
  {
    if n > 0 {
      IndexSplits(n - 1, p);
    }
  }

  lemma {:induction false} SplitIndex(i: nat)
    ensures First(PageOf(i)) + Offset(i) == i
    decreases i
  {
    if i >= SLOTS_PER_PAGE {
      SplitIndex(i - SLOTS_PER_PAGE);
    }
  }

  lemma {:induction false} FirstGrows(n: nat, q: nat)
    requires n < q
    ensures First(n) + SLOTS_PER_PAGE <= First(q)
    decreases q
  {
    if n < q - 1 {
      FirstGrows(n, q - 1);
    }
  }

  lemma QuotientIs(a: nat, k: nat, q: nat, r: nat)
    requires r < k && a == q * k + r
    ensures a / k == q && a % k == r
  {
    assert a == (a / k) * k + a % k;
    if a / k < q {
      Distribute(a / k, q - a / k - 1, k);
    } else if a / k > q {
      Distribute(q, a / k - q - 1, k);
    }
  }

  lemma Distribute(a: nat, b: nat, k: nat)
    ensures (a + 1 + b) * k == a * k + k + b * k
    ensures b * k >= 0
  {
  }

  lemma PageOfIsQuotient(i: nat)
    ensures PageOf(i) == i / SLOTS_PER_PAGE && Offset(i) == i % SLOTS_PER_PAGE
  {
    SplitIndex(i);
    FirstIsProduct(PageOf(i));
    QuotientIs(i, SLOTS_PER_PAGE, PageOf(i), Offset(i));
  }

  // How many slots of page n lie below slot m, up to the page that slot m is on.
  function SlotsIn(m: nat, n: nat): nat {
    if n == PageOf(m) then Offset(m) else SLOTS_PER_PAGE
  }

  // The first slot of page n, or the end of the directory if that comes first.
  function Low(n: nat, m: nat): nat {
    if First(n) <= m then First(n) else m
  }

  // What a scan of the slots below m meets on page n.
  lemma ScanPage(m: nat, n: nat)
    requires First(n) < m
    ensures n <= PageOf(m)
    ensures 0 < SlotsIn(m, n) <= SLOTS_PER_PAGE
    ensures Low(n, m) == First(n)
    ensures Low(n + 1, m) == First(n) + SlotsIn(m, n)
  {
    SplitIndex(m);
    if n < PageOf(m) {
      FirstGrows(n, PageOf(m));
    } else if n > PageOf(m) {
      FirstGrows(PageOf(m), n);
    }
  }

  // The page the end of the directory falls into, and the pages before it.
  lemma EndPage(m: nat, n: nat)
    requires n <= PageOf(m)
    ensures First(n) <= m
    ensures n == PageOf(m) ==> First(n) + SlotsIn(m, n) == m && SlotsIn(m, n) < SLOTS_PER_PAGE
    ensures n < PageOf(m) ==> First(n) + SLOTS_PER_PAGE <= m
  {
    SplitIndex(m);
    if n < PageOf(m) {
      FirstGrows(n, PageOf(m));
    }
  }

  // The slots between the start of page n and the start of the next one are those of page n.
  lemma InPage(n: nat, m: nat)
    ensures Low(n, m) <= Low(n + 1, m)
    ensures forall i :: Low(n, m) <= i < Low(n + 1, m) ==> PageOf(i) == n && Offset(i) == i - First(n)
  {
    forall i | Low(n, m) <= i < Low(n + 1, m)
      ensures PageOf(i) == n && Offset(i) == i - First(n)
    {
      IndexSplits(n, i - First(n));
    }
  }

  // ---- The byte arithmetic of the directory code; i_size is a whole number m of slots ----

  // The number of pages that hold the first m slots.
  function PagesFor(m: nat): nat {
    PageOf(m) + if Offset(m) == 0 then 0 else 1
  }

  // dir_pages: i_size in pages, rounded up.
  method DirPages(size: nat, ghost m: nat) returns (npages: nat)
    requires size == DIR_SIZE * m
    ensures npages == PagesFor(m)
  {
    npages := (size + PAGE_SIZE - 1) / PAGE_SIZE;
    PagesOfSlots(m);
  }

  lemma PagesOfSlots(m: nat)
    ensures (DIR_SIZE * m + PAGE_SIZE - 1) / PAGE_SIZE == PagesFor(m)
  {
    var q, r := PageOf(m), Offset(m);
    SplitIndex(m);
    FirstIsProduct(q);
    assert DIR_SIZE * m == q * PAGE_SIZE + DIR_SIZE * r;
    if r == 0 {
      QuotientIs(DIR_SIZE * m + PAGE_SIZE - 1, PAGE_SIZE, q, PAGE_SIZE - 1);
    } else {
      Distribute(q, 0, PAGE_SIZE);
      QuotientIs(DIR_SIZE * m + PAGE_SIZE - 1, PAGE_SIZE, q + 1, DIR_SIZE * r - 1);
    }
  }

  // A page is among them exactly when its first slot is.
  lemma PageVisited(m: nat, n: nat)
    ensures n < PagesFor(m) <==> First(n) < m
  {
    SplitIndex(m);
    if n < PageOf(m) {
      FirstGrows(n, PageOf(m));
    } else if n > PageOf(m) {
      FirstGrows(PageOf(m), n);
    }
  }

  // gbfs_last_byte: one past the last valid byte of page n. Shift and mask by the page size are
  // quotient and remainder.
  method LastByte(size: nat, n: nat, ghost m: nat) returns (last: nat)
    requires size == DIR_SIZE * m
    ensures last == DIR_SIZE * SlotsIn(m, n)
    ensures last <= PAGE_SIZE && last % DIR_SIZE == 0 && last / DIR_SIZE == SlotsIn(m, n)
  {
    last := if n == size / PAGE_SIZE then size % PAGE_SIZE else PAGE_SIZE;
    var q, r := PageOf(m), Offset(m);
    SplitIndex(m);
    FirstIsProduct(q);
    assert DIR_SIZE * m == q * PAGE_SIZE + DIR_SIZE * r;
    QuotientIs(DIR_SIZE * m, PAGE_SIZE, q, DIR_SIZE * r);
  }

  // page_offset: the byte at which page n starts.
  method PageOffset(n: nat) returns (pos: nat)
    ensures pos == DIR_SIZE * First(n)
  {
    pos := n * PAGE_SIZE;
    FirstIsProduct(n);
  }
}
