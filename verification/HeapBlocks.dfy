/** The heap manager of HeapManagerSimulation/dmm.c seen as a list of blocks: what dmalloc and dfree do
    to the blocks, and the laws of splitting and coalescing.  Sizes and positions are in 8-byte words;
    a header takes 4 of them. */
module HeapBlocks {
  /** A block whose header starts at word `at` and is followed by `words` words of payload. */
  datatype Block = Block(at: nat, words: nat, filled: bool) {
    function End(): nat {
      at + 4 + words
    }
  }

  /** The blocks follow one another without gaps from word 0 to word n. */
  ghost predicate Tiles(blocks: seq<Block>, n: nat) {
    && blocks != []
    && blocks[0].at == 0
    && blocks[|blocks| - 1].End() == n
    && forall i, j :: 0 <= i < |blocks| && j == i + 1 && j < |blocks| ==> blocks[j].at == blocks[i].End()
  }

  /** No two neighbouring blocks are both free. */
  ghost predicate Coalesced(blocks: seq<Block>) {
    forall i, j :: 0 <= i < |blocks| && j == i + 1 && j < |blocks| ==> blocks[i].filled || blocks[j].filled
  }

  ghost predicate GoodBlocks(blocks: seq<Block>, n: nat) {
    Tiles(blocks, n) && Coalesced(blocks)
  }

  lemma {:induction false} InOrder(blocks: seq<Block>, n: nat, i: nat, j: nat)
    requires Tiles(blocks, n) && i < j < |blocks|
    ensures blocks[i].End() <= blocks[j].at
    decreases j
  {
    if i + 1 < j {
      InOrder(blocks, n, i, j - 1);
    }
    assert blocks[j].at == blocks[j - 1].End();
  }

  lemma InBounds(blocks: seq<Block>, n: nat, i: nat)
    requires Tiles(blocks, n) && i < |blocks|
    ensures blocks[i].End() <= n
  {
    if i < |blocks| - 1 {
      InOrder(blocks, n, i, |blocks| - 1);
    }
  }

  /** Put `mid` in the place of blocks lo up to hi. */
  function Replace(blocks: seq<Block>, lo: nat, hi: nat, mid: seq<Block>): seq<Block>
    requires lo <= hi < |blocks|
  {
    blocks[..lo] + mid + blocks[hi + 1..]
  }

  ghost predicate SameExtent(blocks: seq<Block>, lo: nat, hi: nat, mid: seq<Block>)
    requires lo <= hi < |blocks|
  {
    && mid != []
    && mid[0].at == blocks[lo].at
    && mid[|mid| - 1].End() == blocks[hi].End()
    && forall i, j :: 0 <= i < |mid| && j == i + 1 && j < |mid| ==> mid[j].at == mid[i].End()
  }

  /** Block k of the new list, and which block of the old list it is when it is not in `mid`. */
  lemma ReplaceAt(blocks: seq<Block>, lo: nat, hi: nat, mid: seq<Block>, k: nat)
    requires lo <= hi < |blocks| && k < |Replace(blocks, lo, hi, mid)|
    ensures k < lo ==> Replace(blocks, lo, hi, mid)[k] == blocks[k]
    ensures lo <= k < lo + |mid| ==> Replace(blocks, lo, hi, mid)[k] == mid[k - lo]
    ensures lo + |mid| <= k ==>
              0 <= k - |mid| - lo + hi + 1 < |blocks|
              && Replace(blocks, lo, hi, mid)[k] == blocks[k - |mid| - lo + hi + 1]
  {
  }

  lemma ReplaceTiles(blocks: seq<Block>, n: nat, lo: nat, hi: nat, mid: seq<Block>)
    requires Tiles(blocks, n) && lo <= hi < |blocks| && SameExtent(blocks, lo, hi, mid)
    ensures Tiles(Replace(blocks, lo, hi, mid), n)
  {
    var r := Replace(blocks, lo, hi, mid);
    forall i, j | 0 <= i < |r| && j == i + 1 && j < |r| ensures r[j].at == r[i].End() {
      ReplaceAt(blocks, lo, hi, mid, i);
      ReplaceAt(blocks, lo, hi, mid, j);
    }
    ReplaceAt(blocks, lo, hi, mid, 0);
    ReplaceAt(blocks, lo, hi, mid, |r| - 1);
  }

  // ----- dmalloc ------------------------------------------------------------------------------

  /** ALIGN, in bytes. */
  function Align(bytes: nat): nat {
    (bytes + 7) / 8 * 8
  }

  /** The payload words of a request. */
  function WordsFor(bytes: nat): nat {
    (bytes + 7) / 8
  }

  /** The fit test of line 54: room for the payload and one more header. */
  predicate Fits(b: Block, words: nat) {
    !b.filled && b.words >= words + 4
  }

  /** The first block from k on that fits, or the number of blocks. */
  function FirstFit(blocks: seq<Block>, words: nat, k: nat): (r: nat)
    requires k <= |blocks|
    ensures k <= r <= |blocks|
    ensures r < |blocks| ==> Fits(blocks[r], words)
    ensures forall j :: k <= j < r ==> !Fits(blocks[j], words)
    decreases |blocks| - k
  {
    if k == |blocks| || Fits(blocks[k], words) then k else FirstFit(blocks, words, k + 1)
  }

  /** Block k is taken: split off when what is left can hold a header, else taken whole. */
  function Alloc(blocks: seq<Block>, k: nat, words: nat): seq<Block>
    requires k < |blocks| && Fits(blocks[k], words)
  {
    Replace(blocks, k, k, Taken(blocks[k], words))
  }

  function Taken(b: Block, words: nat): seq<Block>
    requires Fits(b, words)
  {
    if b.words - words - 4 < 4 then [b.(filled := true)]
    else [Block(b.at, words, true), Block(b.at + 4 + words, b.words - words - 4, false)]
  }

  lemma AllocGood(blocks: seq<Block>, n: nat, k: nat, words: nat)
    requires GoodBlocks(blocks, n) && k < |blocks| && Fits(blocks[k], words)
    ensures GoodBlocks(Alloc(blocks, k, words), n)
  {
    var mid := Taken(blocks[k], words);
    ReplaceTiles(blocks, n, k, k, mid);
    var r := Alloc(blocks, k, words);
    forall i, j | 0 <= i < |r| && j == i + 1 && j < |r| ensures r[i].filled || r[j].filled {
      ReplaceAt(blocks, k, k, mid, i);
      ReplaceAt(blocks, k, k, mid, j);
    }
  }

  // ----- dfree --------------------------------------------------------------------------------

  function FirstMerged(blocks: seq<Block>, i: nat): nat
    requires i < |blocks|
  {
    if i > 0 && !blocks[i - 1].filled then i - 1 else i
  }

  function LastMerged(blocks: seq<Block>, i: nat): nat
    requires i < |blocks|
  {
    if i + 1 < |blocks| && !blocks[i + 1].filled then i + 1 else i
  }

  /** Block i is freed and joined with its free neighbours. */
  function Free(blocks: seq<Block>, i: nat): seq<Block>
    requires i < |blocks|
  {
    var lo, hi := FirstMerged(blocks, i), LastMerged(blocks, i);
    Replace(blocks, lo, hi, [Merged(blocks, lo, hi)])
  }

  /** One free block over the extent of blocks lo up to hi (at most three). */
  function Merged(blocks: seq<Block>, lo: nat, hi: nat): Block
    requires lo <= hi < |blocks|
  {
    Block(blocks[lo].at,
          if hi == lo then blocks[lo].words
          else if hi == lo + 1 then blocks[lo].words + 4 + blocks[hi].words
          else blocks[lo].words + 4 + blocks[lo + 1].words + 4 + blocks[hi].words,
          false)
  }

  lemma FreeGood(blocks: seq<Block>, n: nat, i: nat)
    requires GoodBlocks(blocks, n) && i < |blocks| && blocks[i].filled
    ensures GoodBlocks(Free(blocks, i), n)
  {
    var lo, hi := FirstMerged(blocks, i), LastMerged(blocks, i);
    var mid := [Merged(blocks, lo, hi)];
    assert hi > lo ==> blocks[lo + 1].at == blocks[lo].End();
    assert hi > lo + 1 ==> blocks[lo + 2].at == blocks[lo + 1].End();
    ReplaceTiles(blocks, n, lo, hi, mid);
    var r := Free(blocks, i);
    forall p, q | 0 <= p < |r| && q == p + 1 && q < |r| ensures r[p].filled || r[q].filled {
      ReplaceAt(blocks, lo, hi, mid, p);
      ReplaceAt(blocks, lo, hi, mid, q);
    }
  }

  // ----- laws ---------------------------------------------------------------------------------

  /** Freeing what was just allocated restores the blocks exactly. */
  lemma AllocThenFree(blocks: seq<Block>, n: nat, k: nat, words: nat)
    requires GoodBlocks(blocks, n) && k < |blocks| && Fits(blocks[k], words)
    ensures Free(Alloc(blocks, k, words), k) == blocks
  {
    var mid := Taken(blocks[k], words);
    var r := Alloc(blocks, k, words);
    assert r[k] == mid[0];
    assert k > 0 ==> r[k - 1] == blocks[k - 1];
    assert k + 1 < |blocks| ==> r[k + |mid|] == blocks[k + 1] && blocks[k + 1].filled;
    assert k > 0 ==> blocks[k - 1].filled;
    JoinAgain(blocks, k, mid);
  }

  /** Replacing a block and then joining the replacement gives the block back. */
  lemma JoinAgain(blocks: seq<Block>, k: nat, mid: seq<Block>)
    requires k < |blocks| && mid != []
    ensures Replace(Replace(blocks, k, k, mid), k, k + |mid| - 1, [blocks[k]]) == blocks
  {
    var r := Replace(blocks, k, k, mid);
    assert r[..k] == blocks[..k];
    assert r[k + |mid|..] == blocks[k + 1..];
    assert blocks == blocks[..k] + [blocks[k]] + blocks[k + 1..];
  }

  /** The live blocks. */
  function Live(blocks: seq<Block>): set<Block> {
    set b | b in blocks && b.filled
  }

  /** dfree takes the freed block, and no other, out of the live blocks. */
  lemma FreeLive(blocks: seq<Block>, n: nat, i: nat)
    requires GoodBlocks(blocks, n) && i < |blocks| && blocks[i].filled
    ensures Live(Free(blocks, i)) == Live(blocks) - {blocks[i]}
  {
    var lo, hi := FirstMerged(blocks, i), LastMerged(blocks, i);
    var mid := [Merged(blocks, lo, hi)];
    var r := Free(blocks, i);
    forall b | b in Live(blocks) && b != blocks[i] ensures b in r {
      var k :| 0 <= k < |blocks| && blocks[k] == b;
      if k < lo {
        assert r[k] == b;
      } else {
        assert k > hi;
        ReplaceAt(blocks, lo, hi, mid, k - hi + lo);
      }
    }
    forall b | b in Live(r) ensures b in blocks && b != blocks[i] {
      var k :| 0 <= k < |r| && r[k] == b;
      ReplaceAt(blocks, lo, hi, mid, k);
      if k < lo {
        InOrder(blocks, n, k, i);
      } else {
        InOrder(blocks, n, i, k - 1 - lo + hi + 1);
      }
    }
  }

  /** dmalloc adds one live block and keeps the others. */
  lemma AllocLive(blocks: seq<Block>, n: nat, k: nat, words: nat)
    requires GoodBlocks(blocks, n) && k < |blocks| && Fits(blocks[k], words)
    ensures Live(Alloc(blocks, k, words)) == Live(blocks) + {Taken(blocks[k], words)[0]}
    ensures Taken(blocks[k], words)[0] !in Live(blocks)
  {
    var mid := Taken(blocks[k], words);
    var r := Alloc(blocks, k, words);
    forall b | b in Live(blocks) ensures b in r && b.at != blocks[k].at {
      var j :| 0 <= j < |blocks| && blocks[j] == b;
      if j < k {
        assert r[j] == b;
        InOrder(blocks, n, j, k);
      } else {
        ReplaceAt(blocks, k, k, mid, j - 1 + |mid|);
        InOrder(blocks, n, k, j);
      }
    }
    assert r[k] == mid[0];
    forall b | b in Live(r) ensures b in Live(blocks) || b == mid[0] {
      var j :| 0 <= j < |r| && r[j] == b;
      ReplaceAt(blocks, k, k, mid, j);
    }
  }

  /** The words of the slab a block's header and payload cover. */
  predicate Covers(b: Block, w: int) {
    b.at <= w < b.End()
  }

  lemma {:induction false} FindBlock(blocks: seq<Block>, n: nat, w: nat, k: nat) returns (i: nat)
    requires Tiles(blocks, n) && k < |blocks| && w < blocks[k].End()
    ensures i <= k && Covers(blocks[i], w)
    decreases k
  {
    if w >= blocks[k].at {
      i := k;
    } else {
      assert blocks[k].at == blocks[k - 1].End();
      i := FindBlock(blocks, n, w, k - 1);
    }
  }

  /** From word a on, `len` words of the slab hold no part of a live block. */
  ghost predicate FreeStretch(blocks: seq<Block>, n: nat, a: nat, len: nat) {
    a + len <= n && forall b, w :: b in Live(blocks) && a <= w < a + len ==> !Covers(b, w)
  }

  lemma LiveAt(blocks: seq<Block>, i: nat)
    requires i < |blocks|
    ensures blocks[i].filled <==> blocks[i] in Live(blocks)
  {
  }

  lemma NotLiveInStretch(blocks: seq<Block>, n: nat, a: nat, len: nat, i: nat, w: nat)
    requires FreeStretch(blocks, n, a, len) && i < |blocks| && a <= w < a + len && Covers(blocks[i], w)
    ensures !blocks[i].filled
  {
    LiveAt(blocks, i);
  }

  /** A free stretch lies inside one free block: coalescing is complete. */
  lemma StretchInBlock(blocks: seq<Block>, n: nat, a: nat, len: nat) returns (i: nat)
    requires GoodBlocks(blocks, n) && len > 0 && FreeStretch(blocks, n, a, len)
    ensures i < |blocks| && !blocks[i].filled && blocks[i].at <= a && a + len <= blocks[i].End()
  {
    i := FindBlock(blocks, n, a, |blocks| - 1);
    NotLiveInStretch(blocks, n, a, len, i, a);
    if i + 1 < |blocks| && blocks[i].End() < a + len {
      NotLiveInStretch(blocks, n, a, len, i + 1, blocks[i].End());
      assert false;
    }
  }

  /** dmalloc finds no block exactly when the slab has no free stretch, old headers included, of the
      aligned request and two headers. */
  lemma {:induction false} NoFitMeansNoStretch(blocks: seq<Block>, n: nat, words: nat)
    requires GoodBlocks(blocks, n)
    ensures FirstFit(blocks, words, 0) == |blocks|
            <==> (forall a, len :: len >= words + 8 ==> !FreeStretch(blocks, n, a, len))
  {
    var f := FirstFit(blocks, words, 0);
    if f == |blocks| {
      forall a: nat, len: nat | len >= words + 8 ensures !FreeStretch(blocks, n, a, len) {
        if FreeStretch(blocks, n, a, len) {
          var i := StretchInBlock(blocks, n, a, len);
          assert Fits(blocks[i], words);
        }
      }
    }
    if f < |blocks| {
      FreeBlockIsStretch(blocks, n, f);
      assert blocks[f].words + 4 >= words + 8;
    }
  }

  lemma FreeBlockIsStretch(blocks: seq<Block>, n: nat, k: nat)
    requires GoodBlocks(blocks, n) && k < |blocks| && !blocks[k].filled
    ensures FreeStretch(blocks, n, blocks[k].at, blocks[k].words + 4)
  {
    InBounds(blocks, n, k);
    forall b, w | b in Live(blocks) && blocks[k].at <= w < blocks[k].End() ensures !Covers(b, w) {
      var j :| 0 <= j < |blocks| && blocks[j] == b;
      if j < k {
        InOrder(blocks, n, j, k);
      } else {
        InOrder(blocks, n, k, j);
      }
    }
  }

  // ----- a request in bytes ---------------------------------------------------------------------

  /** r is the request rounded up to a multiple of 8. */
  predicate RoundedUp(numbytes: nat, r: nat) {
    r % 8 == 0 && numbytes <= r < numbytes + 8
  }

  /** ALIGN rounds up, and the payload words of a request are that many bytes. */
  lemma AlignRounds(numbytes: nat, r: nat)
    ensures RoundedUp(numbytes, r) <==> r == Align(numbytes)
    ensures Align(numbytes) == 8 * WordsFor(numbytes)
  {
  }

  /** Byte x of the slab lies in the header or the payload of a live block. */
  ghost predicate LiveByte(blocks: seq<Block>, x: nat) {
    exists b :: b in Live(blocks) && 8 * b.at <= x < 8 * b.End()
  }

  /** From byte a on, `len` bytes of the slab belong to no live block. */
  ghost predicate FreeBytes(blocks: seq<Block>, n: nat, a: nat, len: nat) {
    a + len <= 8 * n && forall x: nat :: a <= x < a + len ==> !LiveByte(blocks, x)
  }

  /** The words of which a stretch of free bytes has a part are free. */
  lemma FreeWords(blocks: seq<Block>, n: nat, a: nat, len: nat)
    requires FreeBytes(blocks, n, a, len) && len > 0
    ensures a / 8 <= (a + len + 7) / 8 && len <= 8 * ((a + len + 7) / 8 - a / 8)
    ensures FreeStretch(blocks, n, a / 8, (a + len + 7) / 8 - a / 8)
  {
    forall b, w: int | b in Live(blocks) && a / 8 <= w < (a + len + 7) / 8 ensures !Covers(b, w) {
      var x := if 8 * w < a then a else 8 * w;
      assert a <= x < a + len && 8 * w <= x < 8 * w + 8;
      assert !LiveByte(blocks, x);
    }
  }

  lemma FreeWordsAreBytes(blocks: seq<Block>, n: nat, a: nat, len: nat)
    requires FreeStretch(blocks, n, a, len)
    ensures FreeBytes(blocks, n, 8 * a, 8 * len)
  {
    forall x: nat | 8 * a <= x < 8 * a + 8 * len ensures !LiveByte(blocks, x) {
      forall b | b in Live(blocks) ensures !(8 * b.at <= x < 8 * b.End()) {
        assert !Covers(b, x / 8);
      }
    }
  }

  /** Nowhere in the slab are r bytes and two headers free. */
  ghost predicate NoRoom(blocks: seq<Block>, n: nat, r: nat) {
    forall a, len :: len >= r + 64 ==> !FreeBytes(blocks, n, a, len)
  }

  /** dmalloc finds no block exactly when the slab has no free stretch of the rounded request and 64 bytes
      more, whatever its alignment. */
  lemma {:induction false} NullInBytes(blocks: seq<Block>, n: nat, numbytes: nat, r: nat)
    requires GoodBlocks(blocks, n) && RoundedUp(numbytes, r)
    ensures FirstFit(blocks, WordsFor(numbytes), 0) == |blocks| <==> NoRoom(blocks, n, r)
  {
    var words := WordsFor(numbytes);
    AlignRounds(numbytes, r);
    NoFitMeansNoStretch(blocks, n, words);
    if FirstFit(blocks, words, 0) == |blocks| {
      forall a: nat, len: nat | len >= r + 64 ensures !FreeBytes(blocks, n, a, len) {
        if FreeBytes(blocks, n, a, len) {
          FreeWords(blocks, n, a, len);
        }
      }
    } else {
      var a, len :| len >= words + 8 && FreeStretch(blocks, n, a, len);
      FreeWordsAreBytes(blocks, n, a, len);
    }
  }

  /** How much a request of r rounded bytes gets: r, or a block taken whole that is 32 to 56 bytes larger. */
  predicate PayloadOf(bytes: int, r: nat) {
    bytes == r || r + 32 <= bytes <= r + 56
  }

  lemma TakenPayload(b: Block, numbytes: nat, r: nat)
    requires Fits(b, WordsFor(numbytes)) && RoundedUp(numbytes, r)
    ensures var taken := Taken(b, WordsFor(numbytes))[0];
            taken.at == b.at && taken.filled && PayloadOf(8 * taken.words, r)
  {
    AlignRounds(numbytes, r);
  }

  /** A free block of 64 bytes goes whole to a request of 8. */
  lemma WholeForEight()
    ensures Taken(Block(0, 8, false), WordsFor(8)) == [Block(0, 8, true)]
  {
  }

  function IndexOf(blocks: seq<Block>, b: Block): (i: nat)
    requires b in blocks
    ensures i < |blocks| && blocks[i] == b
  {
    if blocks[0] == b then 0 else 1 + IndexOf(blocks[1..], b)
  }

  /** `order` lists live blocks, none twice. */
  ghost predicate FreeOrder(blocks: seq<Block>, order: seq<Block>) {
    && (forall b :: b in order ==> b in Live(blocks))
    && forall i, j :: 0 <= i < j < |order| ==> order[i] != order[j]
  }

  lemma FirstToFree(blocks: seq<Block>, order: seq<Block>)
    requires FreeOrder(blocks, order) && order != []
    ensures order[0] in blocks && order[0].filled
  {
    assert order[0] in order;
  }

  lemma NothingLive(blocks: seq<Block>, n: nat)
    requires GoodBlocks(blocks, n) && Live(blocks) == {}
    ensures blocks == [Block(0, n - 4, false)]
  {
    LiveAt(blocks, 0);
    if |blocks| > 1 {
      LiveAt(blocks, 1);
      assert false;
    }
  }

  /** dfree the blocks of `order`, one after the other. */
  ghost function FreeAll(blocks: seq<Block>, n: nat, order: seq<Block>): seq<Block>
    requires GoodBlocks(blocks, n) && FreeOrder(blocks, order)
    decreases order
  {
    if order == [] then blocks
    else
      FirstToFree(blocks, order);
      var i := IndexOf(blocks, order[0]);
      FreeGood(blocks, n, i);
      FreeLive(blocks, n, i);
      FreeAll(Free(blocks, i), n, order[1..])
  }

  /** Freeing all live blocks, in any order, restores the single initial block. */
  lemma {:induction false} FreeAllRestores(blocks: seq<Block>, n: nat, order: seq<Block>)
    requires GoodBlocks(blocks, n) && FreeOrder(blocks, order)
    requires forall b :: b in Live(blocks) ==> b in order
    ensures FreeAll(blocks, n, order) == [Block(0, n - 4, false)]
    decreases order
  {
    if order == [] {
      NothingLive(blocks, n);
    } else {
      FirstToFree(blocks, order);
      var i := IndexOf(blocks, order[0]);
      FreeGood(blocks, n, i);
      FreeLive(blocks, n, i);
      FreeAllRestores(Free(blocks, i), n, order[1..]);
    }
  }
}
