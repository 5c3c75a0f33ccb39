/** HeapManagerSimulation/dmm.c in place: one slab of 8-byte words in which every block carries its
    header (size, next, prev, fille), refining the block lists of HeapBlocks. */
module Heap {
  import opened HeapBlocks

  const METADATA := 32
  const SIZE := 0
  const NEXT := 1
  const PREV := 2
  const FILLE := 3

  // ----- headers in memory --------------------------------------------------------------------

  /** The address of block i's header, NULL past either end. */
  function AddressOf(base: nat, blocks: seq<Block>, i: int): int {
    if 0 <= i < |blocks| then base + 8 * blocks[i].at else 0
  }

  /** The memory holds the header of block b, linked to `next` and `prev`. */
  ghost predicate Header(m: seq<int>, b: Block, next: int, prev: int) {
    && b.at + 4 <= |m|
    && m[b.at + SIZE] == 8 * b.words
    && m[b.at + NEXT] == next
    && m[b.at + PREV] == prev
    && m[b.at + FILLE] == if b.filled then 1 else 0
  }

  /** The memory holds the header of block i, linked to its neighbours. */
  ghost predicate HeaderAt(m: seq<int>, base: nat, blocks: seq<Block>, i: nat)
    requires i < |blocks|
  {
    Header(m, blocks[i], AddressOf(base, blocks, i + 1), AddressOf(base, blocks, i - 1))
  }

  /** The memory holds the headers of all blocks, doubly linked in order. */
  ghost predicate Headers(m: seq<int>, base: nat, blocks: seq<Block>) {
    forall i :: 0 <= i < |blocks| ==> HeaderAt(m, base, blocks, i)
  }

  /** Outside the extent of blocks lo up to hi, only the prev field of the next header may differ. */
  ghost predicate OnlyWithin(m: seq<int>, m': seq<int>, blocks: seq<Block>, lo: nat, hi: nat)
    requires lo <= hi < |blocks|
  {
    && |m'| == |m|
    && forall w :: 0 <= w < |m| && (w < blocks[lo].at || blocks[hi].End() <= w) ==>
         m'[w] == m[w] || (hi + 1 < |blocks| && w == blocks[hi + 1].at + PREV)
  }

  /** The memory holds the header of mid[k], which takes part in replacing blocks lo up to hi. */
  ghost predicate MidHeader(m: seq<int>, base: nat, blocks: seq<Block>, lo: nat, hi: nat,
                            mid: seq<Block>, k: nat)
    requires lo <= hi < |blocks| && k < |mid|
  {
    Header(m, mid[k],
           if k + 1 < |mid| then AddressOf(base, mid, k + 1) else AddressOf(base, blocks, hi + 1),
           if k > 0 then AddressOf(base, mid, k - 1) else AddressOf(base, blocks, lo - 1))
  }

  /** The memory holds the headers of `mid`, linked among themselves and to the blocks around. */
  ghost predicate Relinked(m: seq<int>, base: nat, blocks: seq<Block>, lo: nat, hi: nat, mid: seq<Block>)
    requires lo <= hi < |blocks| && mid != []
  {
    && (forall k :: 0 <= k < |mid| ==> MidHeader(m, base, blocks, lo, hi, mid, k))
    && (hi + 1 < |blocks| ==>
          blocks[hi + 1].at + PREV < |m|
          && m[blocks[hi + 1].at + PREV] == AddressOf(base, mid, |mid| - 1))
  }

  /** A block outside lo..hi keeps its payload and its header but for its prev link. */
  lemma OutsideKept(m: seq<int>, m': seq<int>, blocks: seq<Block>, lo: nat, hi: nat, i: nat)
    requires Tiles(blocks, |m|) && lo <= hi < |blocks| && i < |blocks| && !(lo <= i <= hi)
    requires OnlyWithin(m, m', blocks, lo, hi)
    ensures blocks[i].End() <= |m|
    ensures forall w :: blocks[i].at <= w < blocks[i].End() && !(i == hi + 1 && w == blocks[i].at + PREV)
                        ==> m'[w] == m[w]
  {
    InBounds(blocks, |m|, i);
    if i < lo {
      InOrder(blocks, |m|, i, lo);
    } else {
      InOrder(blocks, |m|, hi, i);
    }
    if hi + 1 < |blocks| {
      if i < hi + 1 {
        InOrder(blocks, |m|, i, hi + 1);
      } else if i > hi + 1 {
        InOrder(blocks, |m|, hi + 1, i);
      }
    }
  }

  /** Where the blocks of the new list are. */
  lemma AddressAfter(base: nat, blocks: seq<Block>, lo: nat, hi: nat, mid: seq<Block>, k: int)
    requires lo <= hi < |blocks| && mid != [] && mid[0].at == blocks[lo].at
    ensures var r := Replace(blocks, lo, hi, mid);
            AddressOf(base, r, k) == if k <= lo then AddressOf(base, blocks, k)
                                     else if k < lo + |mid| then AddressOf(base, mid, k - lo)
                                     else AddressOf(base, blocks, k - |mid| - lo + hi + 1)
  {
    if 0 <= k < |Replace(blocks, lo, hi, mid)| {
      ReplaceAt(blocks, lo, hi, mid, k);
    }
  }

  lemma HeaderKept(m: seq<int>, m': seq<int>, base: nat, blocks: seq<Block>, lo: nat, hi: nat, i: nat)
    requires Tiles(blocks, |m|) && lo <= hi < |blocks| && i < |blocks| && !(lo <= i <= hi)
    requires Headers(m, base, blocks) && OnlyWithin(m, m', blocks, lo, hi)
    ensures blocks[i].at + 4 <= |m'|
    ensures Header(m', blocks[i], AddressOf(base, blocks, i + 1),
                   if i == hi + 1 then m'[blocks[i].at + PREV] else AddressOf(base, blocks, i - 1))
  {
    OutsideKept(m, m', blocks, lo, hi, i);
    assert HeaderAt(m, base, blocks, i);
  }

  lemma HeaderBefore(m: seq<int>, m': seq<int>, base: nat, blocks: seq<Block>, lo: nat, hi: nat,
                     mid: seq<Block>, k: nat)
    requires Tiles(blocks, |m|) && lo <= hi < |blocks| && SameExtent(blocks, lo, hi, mid)
    requires Headers(m, base, blocks) && OnlyWithin(m, m', blocks, lo, hi)
    requires Relinked(m', base, blocks, lo, hi, mid)
    requires k < lo
    ensures HeaderAt(m', base, Replace(blocks, lo, hi, mid), k)
  {
    AddressAfter(base, blocks, lo, hi, mid, k - 1);
    AddressAfter(base, blocks, lo, hi, mid, k + 1);
    HeaderKept(m, m', base, blocks, lo, hi, k);
  }

  lemma HeaderInMiddle(m': seq<int>, base: nat, blocks: seq<Block>, lo: nat, hi: nat,
                       mid: seq<Block>, k: nat)
    requires lo <= hi < |blocks| && SameExtent(blocks, lo, hi, mid)
    requires Relinked(m', base, blocks, lo, hi, mid)
    requires k < |mid|
    ensures HeaderAt(m', base, Replace(blocks, lo, hi, mid), lo + k)
  {
    AddressAfter(base, blocks, lo, hi, mid, lo + k - 1);
    AddressAfter(base, blocks, lo, hi, mid, lo + k + 1);
    assert MidHeader(m', base, blocks, lo, hi, mid, k);
  }

  lemma HeaderBehind(m: seq<int>, m': seq<int>, base: nat, blocks: seq<Block>, lo: nat, hi: nat,
                     mid: seq<Block>, i: nat)
    requires Tiles(blocks, |m|) && lo <= hi < |blocks| && SameExtent(blocks, lo, hi, mid)
    requires Headers(m, base, blocks) && OnlyWithin(m, m', blocks, lo, hi)
    requires Relinked(m', base, blocks, lo, hi, mid)
    requires hi < i < |blocks|
    ensures HeaderAt(m', base, Replace(blocks, lo, hi, mid), i - hi - 1 + lo + |mid|)
  {
    var k := i - hi - 1 + lo + |mid|;
    AddressAfter(base, blocks, lo, hi, mid, k - 1);
    AddressAfter(base, blocks, lo, hi, mid, k + 1);
    HeaderKept(m, m', base, blocks, lo, hi, i);
  }

  /** Relinking a replaced stretch of blocks leaves all headers right. */
  lemma ReplaceHeaders(m: seq<int>, m': seq<int>, base: nat, blocks: seq<Block>, lo: nat, hi: nat,
                       mid: seq<Block>)
    requires Tiles(blocks, |m|) && lo <= hi < |blocks| && SameExtent(blocks, lo, hi, mid)
    requires Headers(m, base, blocks) && OnlyWithin(m, m', blocks, lo, hi)
    requires Relinked(m', base, blocks, lo, hi, mid)
    ensures Headers(m', base, Replace(blocks, lo, hi, mid))
  {
    forall k | 0 <= k < |Replace(blocks, lo, hi, mid)|
      ensures HeaderAt(m', base, Replace(blocks, lo, hi, mid), k)
    {
      if k < lo {
        HeaderBefore(m, m', base, blocks, lo, hi, mid, k);
      } else if k < lo + |mid| {
        HeaderInMiddle(m', base, blocks, lo, hi, mid, k - lo);
      } else {
        HeaderBehind(m, m', base, blocks, lo, hi, mid, k - |mid| - lo + hi + 1);
      }
    }
  }

  // ----- what stays as it was -----------------------------------------------------------------

  /** The payload words of block b are the same in both memories. */
  ghost predicate SameWords(m: seq<int>, m': seq<int>, b: Block) {
    && b.End() <= |m| && b.End() <= |m'|
    && forall w :: b.at + 4 <= w < b.End() ==> m'[w] == m[w]
  }

  /** The payloads of the blocks in `live` are the same in both memories. */
  ghost predicate SamePayload(m: seq<int>, m': seq<int>, live: set<Block>) {
    forall b :: b in live ==> SameWords(m, m', b)
  }

  lemma PayloadKept(m: seq<int>, m': seq<int>, blocks: seq<Block>, lo: nat, hi: nat, live: set<Block>)
    requires Tiles(blocks, |m|) && lo <= hi < |blocks| && OnlyWithin(m, m', blocks, lo, hi)
    requires live <= Live(blocks) && forall i :: lo <= i <= hi ==> blocks[i] !in live
    ensures SamePayload(m, m', live)
  {
    forall b | b in live ensures SameWords(m, m', b) {
      var i :| 0 <= i < |blocks| && blocks[i] == b;
      OutsideKept(m, m', blocks, lo, hi, i);
    }
  }

  lemma PayloadsThere(m: seq<int>, blocks: seq<Block>)
    requires Tiles(blocks, |m|)
    ensures SamePayload(m, m, Live(blocks))
  {
    forall b | b in Live(blocks) ensures b.End() <= |m| {
      var i :| 0 <= i < |blocks| && blocks[i] == b;
      InBounds(blocks, |m|, i);
    }
  }

  /** Payloads of different live blocks do not meet, and no header lies in a payload. */
  lemma PayloadsApart(blocks: seq<Block>, n: nat, i: nat, j: nat)
    requires Tiles(blocks, n) && i < |blocks| && j < |blocks| && i != j
    ensures blocks[i].at + 4 <= blocks[i].End() <= n
    ensures blocks[i].End() <= blocks[j].at || blocks[j].End() <= blocks[i].at
  {
    InBounds(blocks, n, i);
    if i < j {
      InOrder(blocks, n, i, j);
    } else {
      InOrder(blocks, n, j, i);
    }
  }

  /** A program that writes only to the payloads of live blocks leaves all headers right. */
  lemma ClientWritesKeepHeaders(m: seq<int>, m': seq<int>, base: nat, blocks: seq<Block>)
    requires Tiles(blocks, |m|) && |m'| == |m| && Headers(m, base, blocks)
    requires forall w :: 0 <= w < |m| && m'[w] != m[w] ==>
               exists b :: b in Live(blocks) && b.at + 4 <= w < b.End()
    ensures Headers(m', base, blocks)
  {
    forall i | 0 <= i < |blocks| ensures HeaderAt(m', base, blocks, i) {
      assert HeaderAt(m, base, blocks, i);
      forall w | blocks[i].at <= w < blocks[i].at + 4 ensures m'[w] == m[w] {
        if m'[w] != m[w] {
          var b :| b in Live(blocks) && b.at + 4 <= w < b.End();
          var j :| 0 <= j < |blocks| && blocks[j] == b;
          if i != j {
            PayloadsApart(blocks, |m|, i, j);
          }
        }
      }
    }
  }

  // ----- the two rewritings of the headers ----------------------------------------------------

  /** dmalloc took block k. */
  lemma TookBlock(m: seq<int>, m': seq<int>, base: nat, blocks: seq<Block>, k: nat, words: nat)
    requires GoodBlocks(blocks, |m|) && Headers(m, base, blocks)
    requires k < |blocks| && Fits(blocks[k], words) && OnlyWithin(m, m', blocks, k, k)
    requires Relinked(m', base, blocks, k, k, Taken(blocks[k], words))
    ensures Headers(m', base, Alloc(blocks, k, words)) && GoodBlocks(Alloc(blocks, k, words), |m|)
    ensures SamePayload(m, m', Live(blocks) * Live(Alloc(blocks, k, words)))
  {
    ReplaceHeaders(m, m', base, blocks, k, k, Taken(blocks[k], words));
    AllocGood(blocks, |m|, k, words);
    PayloadKept(m, m', blocks, k, k, Live(blocks) * Live(Alloc(blocks, k, words)));
  }

  lemma TakenWhole(m: seq<int>, m': seq<int>, base: nat, blocks: seq<Block>, k: nat, words: nat)
    requires Headers(m, base, blocks) && k < |blocks| && blocks[k].at + 4 <= |m|
    requires Fits(blocks[k], words) && blocks[k].words - words - 4 < 4
    requires m' == m[blocks[k].at + FILLE := 1]
    ensures OnlyWithin(m, m', blocks, k, k)
    ensures Tiles(blocks, |m|) ==> Relinked(m', base, blocks, k, k, Taken(blocks[k], words))
  {
    assert HeaderAt(m, base, blocks, k);
    assert MidHeader(m', base, blocks, k, k, Taken(blocks[k], words), 0);
    assert k + 1 < |blocks| ==> HeaderAt(m, base, blocks, k + 1);
  }

  /** A header was put at word `na`, between those at `at` and, if there is one behind, `nx`. */
  ghost predicate NewHeader(m: seq<int>, m': seq<int>, base: nat, at: nat, na: nat, nx: nat, next: int, rest: int) {
    && |m'| == |m| && na + 4 <= |m| && (next != 0 ==> nx + 4 <= |m|)
    && m'[na + SIZE] == rest && m'[na + NEXT] == next && m'[na + PREV] == base + 8 * at && m'[na + FILLE] == 0
    && (next != 0 ==> m'[nx + PREV] == base + 8 * na)
    && forall w :: 0 <= w < |m| && !(na <= w < na + 4) ==> m'[w] == m[w] || (next != 0 && w == nx + PREV)
  }

  /** The stores of a split: a new header, and its size and link in the old one. */
  ghost predicate SplitStores(m: seq<int>, m': seq<int>, base: nat, at: nat, na: nat, nx: nat, next: int, rest: int) {
    && at + 4 <= na && na + 4 <= |m|
    && exists m1 ::
         && NewHeader(m, m1, base, at, na, nx, next, rest)
         && m' == m1[at + NEXT := base + 8 * na][at + FILLE := 1][at + SIZE := 8 * (na - at - 4)]
  }

  lemma SplitLinked(m: seq<int>, m': seq<int>, base: nat, blocks: seq<Block>, k: nat, words: nat, nx: nat)
    requires base > 0 && Tiles(blocks, |m|) && Headers(m, base, blocks) && k < |blocks|
    requires Fits(blocks[k], words) && blocks[k].words - words - 4 >= 4
    requires k + 1 < |blocks| ==> nx == blocks[k + 1].at == blocks[k].End()
    requires SplitStores(m, m', base, blocks[k].at, blocks[k].at + 4 + words, nx,
                         AddressOf(base, blocks, k + 1), 8 * (blocks[k].words - words - 4))
    ensures OnlyWithin(m, m', blocks, k, k)
    ensures Relinked(m', base, blocks, k, k, Taken(blocks[k], words))
  {
    var mid := Taken(blocks[k], words);
    assert HeaderAt(m, base, blocks, k);
    assert MidHeader(m', base, blocks, k, k, mid, 0);
    assert MidHeader(m', base, blocks, k, k, mid, 1);
  }

  /** dfree left the header of the joined block at the first block it joined. */
  lemma JoinedBlocks(m: seq<int>, m': seq<int>, base: nat, blocks: seq<Block>, i: nat, lo: nat, hi: nat)
    requires GoodBlocks(blocks, |m|) && Headers(m, base, blocks)
    requires i < |blocks| && blocks[i].filled
    requires lo == FirstMerged(blocks, i) && hi == LastMerged(blocks, i)
    requires OnlyWithin(m, m', blocks, lo, hi)
    requires Header(m', Merged(blocks, lo, hi), AddressOf(base, blocks, hi + 1), AddressOf(base, blocks, lo - 1))
    requires hi + 1 < |blocks| ==>
               blocks[hi + 1].at + PREV < |m'|
               && m'[blocks[hi + 1].at + PREV] == AddressOf(base, blocks, lo)
    ensures Headers(m', base, Free(blocks, i)) && GoodBlocks(Free(blocks, i), |m|)
    ensures SamePayload(m, m', Live(blocks) * Live(Free(blocks, i)))
  {
    var mid := [Merged(blocks, lo, hi)];
    MergedExtent(blocks, |m|, lo, hi);
    assert MidHeader(m', base, blocks, lo, hi, mid, 0);
    ReplaceHeaders(m, m', base, blocks, lo, hi, mid);
    FreeGood(blocks, |m|, i);
    FreeLive(blocks, |m|, i);
    PayloadKept(m, m', blocks, lo, hi, Live(blocks) * Live(Free(blocks, i)));
  }

  lemma MergedExtent(blocks: seq<Block>, n: nat, lo: nat, hi: nat)
    requires Tiles(blocks, n) && lo <= hi < |blocks| && hi <= lo + 2
    ensures SameExtent(blocks, lo, hi, [Merged(blocks, lo, hi)])
  {
    assert hi > lo ==> blocks[lo + 1].at == blocks[lo].End();
    assert hi > lo + 1 ==> blocks[lo + 2].at == blocks[lo + 1].End();
  }

  /** Blocks i - 1 to i + 2, where they are, and their headers. */
  lemma Neighbours(m: seq<int>, base: nat, blocks: seq<Block>, i: nat)
    requires Tiles(blocks, |m|) && Headers(m, base, blocks) && i < |blocks|
    ensures HeaderAt(m, base, blocks, i)
    ensures i > 0 ==> HeaderAt(m, base, blocks, i - 1) && blocks[i].at == blocks[i - 1].End()
    ensures i + 1 < |blocks| ==>
              HeaderAt(m, base, blocks, i + 1) && blocks[i + 1].at == blocks[i].End()
    ensures i + 2 < |blocks| ==>
              HeaderAt(m, base, blocks, i + 2) && blocks[i + 2].at == blocks[i + 1].End()
  {
  }

  lemma NotJoined(m: seq<int>, m': seq<int>, base: nat, blocks: seq<Block>, i: nat)
    requires base > 0 && GoodBlocks(blocks, |m|) && Headers(m, base, blocks)
    requires i < |blocks| && blocks[i].filled && blocks[i].End() <= |m|
    requires FirstMerged(blocks, i) == LastMerged(blocks, i)
    requires m' == m[blocks[i].at + FILLE := 0]
    ensures Headers(m', base, Free(blocks, i)) && GoodBlocks(Free(blocks, i), |m|)
    ensures SamePayload(m, m', Live(blocks) * Live(Free(blocks, i)))
  {
    Neighbours(m, base, blocks, i);
    JoinedBlocks(m, m', base, blocks, i, i, i);
  }

  lemma PrevJoined(m: seq<int>, m': seq<int>, base: nat, blocks: seq<Block>, i: nat, p: nat, a: nat, n: nat)
    requires base > 0 && GoodBlocks(blocks, |m|) && Headers(m, base, blocks)
    requires i < |blocks| && blocks[i].filled && blocks[i].End() <= |m|
    requires 0 < i < |blocks| - 1 && FirstMerged(blocks, i) == i - 1 && LastMerged(blocks, i) == i
    requires p == blocks[i - 1].at && a == blocks[i].at && n == blocks[i + 1].at && p + 4 <= a && n + 4 <= |m|
    requires m' == m[a + FILLE := 0][p + NEXT := base + 8 * n][n + PREV := base + 8 * p][p + FILLE := 0]
                    [p + SIZE := m[p + SIZE] + m[a + SIZE] + METADATA]
    ensures Headers(m', base, Free(blocks, i)) && GoodBlocks(Free(blocks, i), |m|)
    ensures SamePayload(m, m', Live(blocks) * Live(Free(blocks, i)))
  {
    Neighbours(m, base, blocks, i);
    JoinedBlocks(m, m', base, blocks, i, i - 1, i);
  }

  /** The stores of a join with the block behind: `at` is the header that stays, `a` the one marked free,
      `nx` the one that follows the joined block, if there is one. */
  ghost predicate JoinStores(m: seq<int>, m': seq<int>, base: nat, at: nat, nx: nat, next: int, size: int) {
    && |m'| == |m| && at + 4 <= |m| && (next != 0 ==> nx + 4 <= |m|)
    && m'[at + SIZE] == size && m'[at + NEXT] == next && m'[at + FILLE] == 0
    && (next != 0 ==> m'[nx + PREV] == base + 8 * at)
    && forall w :: 0 <= w < |m| && !(at <= w < at + 4 && w != at + PREV) ==>
         m'[w] == m[w] || (next != 0 && w == nx + PREV)
  }

  lemma StoresJoined(m: seq<int>, m': seq<int>, base: nat, blocks: seq<Block>, i: nat, lo: nat, nx: nat,
                     next: int, size: int)
    requires base > 0 && GoodBlocks(blocks, |m|) && Headers(m, base, blocks)
    requires i < |blocks| - 1 && blocks[i].filled && blocks[i].End() <= |m| && !blocks[i + 1].filled
    requires lo == FirstMerged(blocks, i) && size == 8 * Merged(blocks, lo, i + 1).words
    requires next == AddressOf(base, blocks, i + 2) && (i + 2 < |blocks| ==> nx == blocks[i + 2].at)
    requires JoinStores(m[blocks[i].at + FILLE := 0], m', base, blocks[lo].at, nx, next, size)
    ensures Headers(m', base, Free(blocks, i)) && GoodBlocks(Free(blocks, i), |m|)
    ensures SamePayload(m, m', Live(blocks) * Live(Free(blocks, i)))
  {
    StoresWithin(m, m', base, blocks, i, lo, nx, next, size);
    StoresHeader(m, m', base, blocks, i, lo, nx, next, size);
    JoinedBlocks(m, m', base, blocks, i, lo, i + 1);
  }

  lemma StoresHeader(m: seq<int>, m': seq<int>, base: nat, blocks: seq<Block>, i: nat, lo: nat, nx: nat,
                     next: int, size: int)
    requires base > 0 && Tiles(blocks, |m|) && Headers(m, base, blocks)
    requires i < |blocks| - 1 && lo <= i <= lo + 1 && blocks[i].End() <= |m|
    requires size == 8 * Merged(blocks, lo, i + 1).words
    requires next == AddressOf(base, blocks, i + 2) && (i + 2 < |blocks| ==> nx == blocks[i + 2].at)
    requires JoinStores(m[blocks[i].at + FILLE := 0], m', base, blocks[lo].at, nx, next, size)
    ensures Header(m', Merged(blocks, lo, i + 1), AddressOf(base, blocks, i + 2), AddressOf(base, blocks, lo - 1))
    ensures i + 2 < |blocks| ==>
              blocks[i + 2].at + PREV < |m'| && m'[blocks[i + 2].at + PREV] == AddressOf(base, blocks, lo)
  {
    Neighbours(m, base, blocks, i);
    assert HeaderAt(m, base, blocks, lo);
  }

  lemma StoresWithin(m: seq<int>, m': seq<int>, base: nat, blocks: seq<Block>, i: nat, lo: nat, nx: nat,
                     next: int, size: int)
    requires base > 0 && Tiles(blocks, |m|)
    requires i < |blocks| - 1 && lo <= i <= lo + 1 && blocks[i].End() <= |m|
    requires next == AddressOf(base, blocks, i + 2) && (i + 2 < |blocks| ==> nx == blocks[i + 2].at)
    requires JoinStores(m[blocks[i].at + FILLE := 0], m', base, blocks[lo].at, nx, next, size)
    ensures OnlyWithin(m, m', blocks, lo, i + 1)
  {
    assert blocks[i + 1].at == blocks[i].End();
    assert lo < i ==> blocks[i].at == blocks[lo].End();
  }

  lemma LastJoined(m: seq<int>, m': seq<int>, base: nat, blocks: seq<Block>, i: nat, p: nat, a: nat)
    requires base > 0 && GoodBlocks(blocks, |m|) && Headers(m, base, blocks)
    requires i < |blocks| && blocks[i].filled && blocks[i].End() <= |m|
    requires 0 < i == |blocks| - 1 && FirstMerged(blocks, i) == i - 1
    requires p == blocks[i - 1].at && a == blocks[i].at && p + 4 <= a
    requires m' == m[a + FILLE := 0][p + NEXT := 0][p + FILLE := 0]
                    [p + SIZE := m[a + SIZE] + m[p + SIZE] + METADATA]
    ensures Headers(m', base, Free(blocks, i)) && GoodBlocks(Free(blocks, i), |m|)
    ensures SamePayload(m, m', Live(blocks) * Live(Free(blocks, i)))
  {
    Neighbours(m, base, blocks, i);
    JoinedBlocks(m, m', base, blocks, i, i - 1, i);
  }

  class Heap {
    const base: nat
    const mem: array<int>
    var freelist: int
    ghost var blocks: seq<Block>

    /** The slab is aligned and ends below 2^64, and once it is set up its headers are those of
        `blocks`, which tile it without two free neighbours. */
    ghost predicate Valid()
      reads this, mem
    {
      && base > 0 && base % 8 == 0 && base + 8 * mem.Length <= 0x1_0000_0000_0000_0000
      && GoodBlocks(blocks, mem.Length)
      && (freelist == 0 ==> blocks == [Block(0, mem.Length - 4, false)])
      && (freelist != 0 ==> freelist == base && Headers(mem[..], base, blocks))
    }

    constructor (base: nat, words: nat)
      requires base > 0 && base % 8 == 0 && base + 8 * words <= 0x1_0000_0000_0000_0000 && words >= 4
      ensures Valid() && fresh(mem) && mem.Length == words && this.base == base && freelist == 0
    {
      this.base := base;
      this.mem := new int[words];
      this.freelist := 0;
      this.blocks := [Block(0, words - 4, false)];
    }

    /** The word of the slab that address p names. */
    function At(p: int): int {
      (p - base) / 8
    }

    method Put(p: int, field: nat, value: int)
      requires p >= base && At(p) + field < mem.Length
      modifies mem
      ensures mem[..] == old(mem[..])[At(p) + field := value]
    {
      mem[At(p) + field] := value;
    }

    method DmallocInit()
      requires Valid() && freelist == 0
      modifies this`freelist, mem
      ensures Valid() && freelist != 0 && Live(blocks) == {}
    {
      freelist := base;
      Put(freelist, NEXT, 0);
      Put(freelist, PREV, 0);
      Put(freelist, SIZE, 8 * mem.Length - METADATA);
      Put(freelist, FILLE, 0);
      assert HeaderAt(mem[..], base, blocks, 0);
    }

    /** A field of the header at p. */
    function Get(p: int, field: nat): int
      requires p >= base && At(p) + field < mem.Length
      reads mem
    {
      mem[At(p) + field]
    }

    /** The address of block i and what its header holds. */
    lemma HeaderOf(i: nat)
      requires Valid() && freelist != 0 && i < |blocks|
      ensures var p := AddressOf(base, blocks, i);
              && p >= base && At(p) == blocks[i].at && At(p) + 4 <= mem.Length
              && Get(p, SIZE) == 8 * blocks[i].words
              && Get(p, NEXT) == AddressOf(base, blocks, i + 1)
              && Get(p, PREV) == AddressOf(base, blocks, i - 1)
              && Get(p, FILLE) == if blocks[i].filled then 1 else 0
    {
      assert HeaderAt(mem[..], base, blocks, i);
    }

    method Dmalloc(numbytes: nat) returns (ptr: int)
      requires Valid() && 0 < numbytes <= 0x1_0000_0000_0000_0000 - 40
      modifies this, mem
      ensures Valid() && freelist != 0
      ensures Allocated(old(blocks), numbytes, ptr)
      ensures SamePayload(old(mem[..]), mem[..], old(Live(blocks)) * Live(blocks))
      ensures forall r :: RoundedUp(numbytes, r) ==> InBytes(old(blocks), blocks, r, ptr)
    {
      if freelist == 0 {
        DmallocInit();
      }
      ptr := TakeFirstFit(numbytes);
      forall r: nat | RoundedUp(numbytes, r) ensures InBytes(old(blocks), blocks, r, ptr) {
        RequestInBytes(old(blocks), blocks, numbytes, r, ptr);
      }
    }

    /** What a request of r bytes, rounded up, comes to: NULL exactly when there is no room, else the payload
        of one more live block, which is r bytes long or up to 56 more when it was taken whole. */
    ghost predicate InBytes(was: seq<Block>, now: seq<Block>, r: nat, ptr: int) {
      && (ptr == 0 <==> NoRoom(was, mem.Length, r))
      && (ptr == 0 ==> now == was)
      && (ptr != 0 ==> exists b :: GotBlock(was, now, b, r, ptr))
    }

    ghost predicate GotBlock(was: seq<Block>, now: seq<Block>, b: Block, r: nat, ptr: int) {
      && b !in Live(was) && Live(now) == Live(was) + {b}
      && ptr == base + 8 * b.at + METADATA && PayloadOf(8 * b.words, r)
    }

    lemma {:induction false} RequestInBytes(was: seq<Block>, now: seq<Block>, numbytes: nat, r: nat, ptr: int)
      requires base > 0 && GoodBlocks(was, mem.Length) && RoundedUp(numbytes, r)
      requires var k := FirstFit(was, WordsFor(numbytes), 0);
               if k == |was| then ptr == 0 && now == was
               else ptr == base + 8 * (was[k].at + 4) && now == Alloc(was, k, WordsFor(numbytes))
      ensures InBytes(was, now, r, ptr)
    {
      var words := WordsFor(numbytes);
      var k := FirstFit(was, words, 0);
      NullInBytes(was, mem.Length, numbytes, r);
      if k < |was| {
        AllocLive(was, mem.Length, k, words);
        TakenPayload(was[k], numbytes, r);
        assert GotBlock(was, now, Taken(was[k], words)[0], r, ptr);
      }
    }

    /** The first block that fits was taken and its payload returned, or NULL if there was none. */
    ghost predicate Allocated(was: seq<Block>, numbytes: nat, ptr: int)
      reads this
    {
      var words := WordsFor(numbytes);
      var k := FirstFit(was, words, 0);
      if k == |was| then ptr == 0 && blocks == was
      else
        && ptr == base + 8 * (was[k].at + 4) && ptr % 8 == 0
        && blocks == Alloc(was, k, words) && k < |blocks| && 8 * blocks[k].words >= numbytes
    }

    /** Lines 51 to 99. */
    method TakeFirstFit(numbytes: nat) returns (ptr: int)
      requires Valid() && freelist != 0
      modifies this`blocks, mem
      ensures Valid()
      ensures Allocated(old(blocks), numbytes, ptr)
      ensures SamePayload(old(mem[..]), mem[..], old(Live(blocks)) * Live(blocks))
    {
      hide Headers;
      ghost var words := WordsFor(numbytes);
      ghost var k := 0;
      var walker := freelist;
      while walker != 0
        invariant Valid() && blocks == old(blocks) && mem[..] == old(mem[..])
        invariant k <= |blocks| && walker == AddressOf(base, blocks, k)
        invariant FirstFit(blocks, words, k) == FirstFit(blocks, words, 0)
        decreases |blocks| - k
      {
        HeaderOf(k);
        if Get(walker, SIZE) >= Align(numbytes) + METADATA && Get(walker, FILLE) == 0 {
          Take(walker, numbytes, k);
          blocks := Alloc(blocks, k, words);
          return walker + METADATA;
        }
        walker := Get(walker, NEXT);
        k := k + 1;
      }
      PayloadsThere(mem[..], blocks);
      return 0;
    }

    /** Lines 59 to 94: the block is taken whole or split. */
    method Take(walker: int, numbytes: nat, ghost k: nat)
      requires Valid() && freelist != 0 && k < |blocks| && walker == AddressOf(base, blocks, k)
      requires Fits(blocks[k], WordsFor(numbytes))
      modifies mem
      ensures var now := Alloc(blocks, k, WordsFor(numbytes));
              && GoodBlocks(now, mem.Length) && Headers(mem[..], base, now)
              && SamePayload(old(mem[..]), mem[..], Live(blocks) * Live(now))
    {
      ghost var m, words := mem[..], WordsFor(numbytes);
      HeaderOf(k);
      if Get(walker, SIZE) - Align(numbytes) - METADATA < METADATA {
        Put(walker, FILLE, 1);
        TakenWhole(m, mem[..], base, blocks, k, words);
      } else {
        InBounds(blocks, mem.Length, k);
        ghost var nx := if k + 1 < |blocks| then blocks[k + 1].at else 0;
        if k + 1 < |blocks| {
          InBounds(blocks, mem.Length, k + 1);
        }
        Split(walker, numbytes, blocks[k].at, nx);
        SplitLinked(m, mem[..], base, blocks, k, words, nx);
      }
      TookBlock(m, mem[..], base, blocks, k, words);
    }

    /** The stores of lines 63 to 80; the header behind, if there is one, is at word nx. */
    method Split(walker: int, numbytes: nat, ghost at: nat, ghost nx: nat)
      requires base > 0 && walker == base + 8 * at && at + 8 + WordsFor(numbytes) <= mem.Length
      requires mem[at + NEXT] != 0 ==> mem[at + NEXT] == base + 8 * nx
                                       && at + 8 + WordsFor(numbytes) <= nx && nx + 4 <= mem.Length
      modifies mem
      ensures SplitStores(old(mem[..]), mem[..], base, at, at + 4 + WordsFor(numbytes), nx,
                          old(mem[at + NEXT]), old(mem[at + SIZE]) - 8 * WordsFor(numbytes) - METADATA)
    {
      var newBlock := walker + Align(numbytes) + METADATA;
      StoreNewBlock(walker, newBlock, numbytes, at, at + 4 + WordsFor(numbytes), nx);
      Put(walker, NEXT, newBlock);
      Put(walker, FILLE, 1);
      Put(walker, SIZE, Align(numbytes));
    }

    /** Lines 65 to 76: the header of the new block. */
    method StoreNewBlock(walker: int, newBlock: int, numbytes: nat, ghost at: nat, ghost na: nat, ghost nx: nat)
      requires base > 0 && walker == base + 8 * at && newBlock == base + 8 * na
      requires at + 4 <= na && na + 4 <= mem.Length
      requires mem[at + NEXT] != 0 ==> mem[at + NEXT] == base + 8 * nx && na + 4 <= nx && nx + 4 <= mem.Length
      modifies mem
      ensures NewHeader(old(mem[..]), mem[..], base, at, na, nx, old(mem[at + NEXT]),
                        old(mem[at + SIZE]) - Align(numbytes) - METADATA)
    {
      Put(newBlock, PREV, walker);
      if Get(walker, NEXT) == 0 {
        Put(newBlock, NEXT, 0);
      } else {
        Put(newBlock, NEXT, Get(walker, NEXT));
        Put(Get(walker, NEXT), PREV, newBlock);
      }
      Put(newBlock, SIZE, Get(walker, SIZE) - Align(numbytes) - METADATA);
      Put(newBlock, FILLE, 0);
    }

    /** ptr is the payload of live block i. */
    method Dfree(ptr: int, ghost i: nat)
      requires Valid() && i < |blocks| && blocks[i].filled && ptr == base + 8 * (blocks[i].at + 4)
      modifies this`blocks, mem
      ensures Valid() && blocks == Free(old(blocks), i)
      ensures SamePayload(old(mem[..]), mem[..], old(Live(blocks)) * Live(blocks))
    {
      ghost var m := mem[..];
      var actualHead := ptr - METADATA;
      HeaderOf(i);
      InBounds(blocks, mem.Length, i);
      Put(actualHead, FILLE, 0);
      Join(actualHead, m, i);
      blocks := Free(blocks, i);
    }

    /** Block i was marked free in its header, line 117, and nothing else changed since m. */
    ghost predicate Marked(m: seq<int>, i: nat)
      reads this, mem
    {
      && base > 0 && GoodBlocks(blocks, mem.Length) && |m| == mem.Length && Headers(m, base, blocks)
      && i < |blocks| && blocks[i].filled && blocks[i].End() <= |m|
      && mem[..] == m[blocks[i].at + FILLE := 0]
    }

    /** The memory holds the blocks after block i was freed, and the other payloads of m. */
    ghost predicate Joined(m: seq<int>, i: nat)
      requires i < |blocks|
      reads this, mem
    {
      && Headers(mem[..], base, Free(blocks, i)) && GoodBlocks(Free(blocks, i), |m|)
      && SamePayload(m, mem[..], Live(blocks) * Live(Free(blocks, i)))
    }

    /** Lines 118 to 183. */
    method Join(actualHead: int, ghost m: seq<int>, ghost i: nat)
      requires Marked(m, i) && actualHead == AddressOf(base, blocks, i)
      modifies mem
      ensures Joined(m, i)
    {
      Neighbours(m, base, blocks, i);
      if Get(actualHead, PREV) != 0 && Get(actualHead, NEXT) != 0 {
        if Get(Get(actualHead, PREV), FILLE) == 0 && Get(Get(actualHead, NEXT), FILLE) == 1 {
          JoinPrev(actualHead, m, i);
        } else if Get(Get(actualHead, PREV), FILLE) == 1 && Get(Get(actualHead, NEXT), FILLE) == 0 {
          JoinNext(actualHead, m, i);
        } else if Get(Get(actualHead, PREV), FILLE) == 0 && Get(Get(actualHead, NEXT), FILLE) == 0 {
          JoinBoth(actualHead, m, i);
        } else {
          NotJoined(m, mem[..], base, blocks, i);
        }
      } else if Get(actualHead, PREV) == 0 && Get(actualHead, NEXT) != 0 {
        if Get(Get(actualHead, NEXT), FILLE) == 0 {
          JoinNext(actualHead, m, i);
        } else {
          NotJoined(m, mem[..], base, blocks, i);
        }
      } else if Get(actualHead, PREV) != 0 && Get(actualHead, NEXT) == 0 {
        if Get(Get(actualHead, PREV), FILLE) == 0 {
          JoinLast(actualHead, m, i);
        } else {
          NotJoined(m, mem[..], base, blocks, i);
        }
      } else {
        NotJoined(m, mem[..], base, blocks, i);
      }
    }

    /** Lines 120 to 124: the block before is free, the one behind is not. */
    method JoinPrev(actualHead: int, ghost m: seq<int>, ghost i: nat)
      requires Marked(m, i) && actualHead == AddressOf(base, blocks, i)
      requires 0 < i < |blocks| - 1 && !blocks[i - 1].filled && blocks[i + 1].filled
      modifies mem
      ensures Joined(m, i)
    {
      Neighbours(m, base, blocks, i);
      var prevHead := Get(actualHead, PREV);
      Put(prevHead, NEXT, Get(actualHead, NEXT));
      Put(Get(actualHead, NEXT), PREV, prevHead);
      Put(prevHead, FILLE, 0);
      Put(prevHead, SIZE, Get(prevHead, SIZE) + Get(actualHead, SIZE) + METADATA);
      PrevJoined(m, mem[..], base, blocks, i, blocks[i - 1].at, blocks[i].at, blocks[i + 1].at);
    }

    /** The block behind is free, the one before, if any, is not. */
    method JoinNext(actualHead: int, ghost m: seq<int>, ghost i: nat)
      requires Marked(m, i) && actualHead == AddressOf(base, blocks, i)
      requires i < |blocks| - 1 && (i > 0 ==> blocks[i - 1].filled) && !blocks[i + 1].filled
      modifies mem
      ensures Joined(m, i)
    {
      Neighbours(m, base, blocks, i);
      ghost var a, n, x := blocks[i].at, blocks[i + 1].at, if i + 2 < |blocks| then blocks[i + 2].at else 0;
      StoreNext(actualHead, a, n, x);
      StoresJoined(m, mem[..], base, blocks, i, i, x, m[n + NEXT], m[a + SIZE] + m[n + SIZE] + METADATA);
    }

    /** Lines 130 to 139 and 163 to 172, with the three headers at words a, n and x. */
    method StoreNext(actualHead: int, ghost a: nat, ghost n: nat, ghost x: nat)
      requires base > 0 && actualHead == base + 8 * a && a + 4 <= n && n + 4 <= mem.Length
      requires mem[a + NEXT] == base + 8 * n
      requires mem[n + NEXT] != 0 ==> mem[n + NEXT] == base + 8 * x && n + 4 <= x && x + 4 <= mem.Length
      modifies mem
      ensures JoinStores(old(mem[..]), mem[..], base, a, x, old(mem[n + NEXT]),
                         old(mem[a + SIZE]) + old(mem[n + SIZE]) + METADATA)
    {
      var nextHead := Get(actualHead, NEXT);
      if Get(nextHead, NEXT) == 0 {
        Put(actualHead, NEXT, 0);
      } else {
        Put(actualHead, NEXT, Get(nextHead, NEXT));
        Put(Get(nextHead, NEXT), PREV, actualHead);
      }
      Put(actualHead, FILLE, 0);
      Put(actualHead, SIZE, Get(actualHead, SIZE) + Get(nextHead, SIZE) + METADATA);
    }

    /** The blocks on both sides are free. */
    method JoinBoth(actualHead: int, ghost m: seq<int>, ghost i: nat)
      requires Marked(m, i) && actualHead == AddressOf(base, blocks, i)
      requires 0 < i < |blocks| - 1 && !blocks[i - 1].filled && !blocks[i + 1].filled
      modifies mem
      ensures Joined(m, i)
    {
      Neighbours(m, base, blocks, i);
      ghost var p, a, n := blocks[i - 1].at, blocks[i].at, blocks[i + 1].at;
      ghost var x := if i + 2 < |blocks| then blocks[i + 2].at else 0;
      StoreBoth(actualHead, p, a, n, x);
      StoresJoined(m, mem[..], base, blocks, i, i - 1, x, m[n + NEXT],
                   m[p + SIZE] + m[a + SIZE] + m[n + SIZE] + 2 * METADATA);
    }

    /** Lines 145 to 155, with the four headers at words p, a, n and x. */
    method StoreBoth(actualHead: int, ghost p: nat, ghost a: nat, ghost n: nat, ghost x: nat)
      requires base > 0 && actualHead == base + 8 * a && p + 4 <= a && a + 4 <= n && n + 4 <= mem.Length
      requires mem[a + PREV] == base + 8 * p && mem[a + NEXT] == base + 8 * n
      requires mem[n + NEXT] != 0 ==> mem[n + NEXT] == base + 8 * x && n + 4 <= x && x + 4 <= mem.Length
      modifies mem
      ensures JoinStores(old(mem[..]), mem[..], base, p, x, old(mem[n + NEXT]),
                         old(mem[p + SIZE]) + old(mem[a + SIZE]) + old(mem[n + SIZE]) + 2 * METADATA)
    {
      var prevHead := Get(actualHead, PREV);
      var nextHead := Get(actualHead, NEXT);
      LinkPast(prevHead, nextHead, p, n, x);
      Put(prevHead, FILLE, 0);
      Put(prevHead, SIZE, Get(prevHead, SIZE) + Get(actualHead, SIZE) + Get(nextHead, SIZE) + 2 * METADATA);
    }

    /** The header at word p is linked to the one behind the header at word n, if there is one. */
    method LinkPast(prevHead: int, nextHead: int, ghost p: nat, ghost n: nat, ghost x: nat)
      requires base > 0 && prevHead == base + 8 * p && nextHead == base + 8 * n && p + 4 <= n && n + 4 <= mem.Length
      requires mem[n + NEXT] != 0 ==> mem[n + NEXT] == base + 8 * x && n + 4 <= x && x + 4 <= mem.Length
      modifies mem
      ensures var m, next := old(mem[..]), old(mem[n + NEXT]);
              mem[..] == if next == 0 then m[p + NEXT := 0] else m[p + NEXT := next][x + PREV := prevHead]
    {
      if Get(nextHead, NEXT) == 0 {
        Put(prevHead, NEXT, 0);
      } else {
        Put(prevHead, NEXT, Get(nextHead, NEXT));
        Put(Get(nextHead, NEXT), PREV, prevHead);
      }
    }

    /** Lines 178 to 181: the last block joins the free one before it. */
    method JoinLast(actualHead: int, ghost m: seq<int>, ghost i: nat)
      requires Marked(m, i) && actualHead == AddressOf(base, blocks, i)
      requires 0 < i == |blocks| - 1 && !blocks[i - 1].filled
      modifies mem
      ensures Joined(m, i)
    {
      Neighbours(m, base, blocks, i);
      var prevHead := Get(actualHead, PREV);
      Put(prevHead, NEXT, 0);
      Put(prevHead, FILLE, 0);
      Put(prevHead, SIZE, Get(actualHead, SIZE) + Get(prevHead, SIZE) + METADATA);
      LastJoined(m, mem[..], base, blocks, i, blocks[i - 1].at, blocks[i].at);
    }
  }
}
