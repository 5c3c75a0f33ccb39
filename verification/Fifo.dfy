/** First-in first-out replacement of pages, and its fault bound. */
module Fifo {
  import opened Sets

  ghost predicate NoDuplicates(s: seq<nat>) {
    forall i, j :: 0 <= i < j < |s| ==> s[i] != s[j]
  }

  /** The resident pages, oldest load first, after `page` was loaded. */
  function Load(order: seq<nat>, page: nat, max: nat): (r: seq<nat>)
    requires 0 < max && |order| <= max
    ensures |r| <= max && page in r
  {
    if |order| < max then order + [page] else order[1..] + [page]
  }

  /** The resident pages after an access to `page`. */
  function OrderAfter(order: seq<nat>, page: nat, max: nat): (r: seq<nat>)
    requires 0 < max && |order| <= max
    ensures |r| <= max && page in r
  {
    if page in order then order else Load(order, page, max)
  }

  /** The sequence lists each page of the set once. */
  ghost predicate Lists(order: seq<nat>, pages: set<nat>) {
    if order == [] then pages == {}
    else
      var last := order[|order| - 1];
      last in pages && Lists(order[..|order| - 1], pages - {last})
  }

  lemma {:induction false} ListsMeans(order: seq<nat>, pages: set<nat>)
    requires Lists(order, pages)
    ensures |order| == |pages| && NoDuplicates(order) && forall p :: p in order <==> p in pages
  {
    if order != [] {
      var last, before := order[|order| - 1], order[..|order| - 1];
      ListsMeans(before, pages - {last});
      assert order == before + [last];
    }
  }

  lemma {:induction false} ListsRest(order: seq<nat>, pages: set<nat>)
    requires Lists(order, pages) && order != []
    ensures order[0] in pages && Lists(order[1..], pages - {order[0]})
  {
    if |order| > 1 {
      var last, before := order[|order| - 1], order[..|order| - 1];
      ListsRest(before, pages - {last});
      assert order[1..][..|order| - 2] == before[1..];
      assert pages - {last} - {order[0]} == pages - {order[0]} - {last};
    }
  }

  /** What is resident after a load: the new page and all others but the oldest when there was no room. */
  lemma {:induction false} LoadLists(order: seq<nat>, pages: set<nat>, page: nat, max: nat)
    requires 0 < max && |order| <= max && Lists(order, pages) && page !in pages
    ensures Lists(Load(order, page, max), (if |order| < max then pages else pages - {order[0]}) + {page})
    ensures |order| == max ==> order[0] in pages
  {
    var kept, left := order, pages;
    if |order| == max {
      ListsRest(order, pages);
      kept, left := order[1..], pages - {order[0]};
    }
    assert (kept + [page])[..|kept|] == kept;
    assert left + {page} - {page} == left;
  }

  /** The pages that fault, in order, while `accesses` are made. */
  function Faults(order: seq<nat>, max: nat, accesses: seq<nat>): seq<nat>
    requires 0 < max && |order| <= max
    decreases accesses
  {
    if accesses == [] then []
    else if accesses[0] in order then Faults(order, max, accesses[1..])
    else [accesses[0]] + Faults(Load(order, accesses[0], max), max, accesses[1..])
  }

  /** The pages of `faulted` are the last ones loaded. */
  ghost predicate LastLoaded(order: seq<nat>, faulted: seq<nat>) {
    |faulted| <= |order| && order[|order| - |faulted|..] == faulted
  }

  lemma {:induction false} DistinctFit(s: seq<nat>, pages: set<nat>)
    requires NoDuplicates(s) && forall p :: p in s ==> p in pages
    ensures |s| <= |pages|
  {
    if s != [] {
      var last := s[|s| - 1];
      DistinctFit(s[..|s| - 1], pages - {last});
    }
  }

  lemma LoadedLast(order: seq<nat>, max: nat, page: nat, faulted: seq<nat>)
    requires 0 < max && |order| <= max && LastLoaded(order, faulted) && |faulted| < max
    ensures LastLoaded(Load(order, page, max), faulted + [page])
  {
  }

  lemma FaultedResident(order: seq<nat>, faulted: seq<nat>, page: nat)
    requires LastLoaded(order, faulted) && NoDuplicates(faulted) && page !in order
    ensures NoDuplicates(faulted + [page])
  {
    assert forall i :: 0 <= i < |faulted| ==> faulted[i] == order[|order| - |faulted| + i];
  }

  /** While the touched pages all fit, no page faults twice, whatever was resident before. */
  lemma {:induction false} NoPageFaultsTwice(order: seq<nat>, max: nat, accesses: seq<nat>, faulted: seq<nat>,
                                            touched: set<nat>)
    requires 0 < max && |order| <= max && |touched| <= max
    requires LastLoaded(order, faulted) && NoDuplicates(faulted)
    requires (forall p :: p in faulted ==> p in touched) && forall p :: p in accesses ==> p in touched
    ensures NoDuplicates(faulted + Faults(order, max, accesses))
    ensures forall p :: p in Faults(order, max, accesses) ==> p in touched
    decreases accesses
  {
    if accesses == [] {
      assert faulted + Faults(order, max, accesses) == faulted;
    } else if accesses[0] in order {
      NoPageFaultsTwice(order, max, accesses[1..], faulted, touched);
    } else {
      var page, more := accesses[0], faulted + [accesses[0]];
      FaultedResident(order, faulted, page);
      DistinctFit(more, touched);
      LoadedLast(order, max, page, faulted);
      var later := Faults(Load(order, page, max), max, accesses[1..]);
      NoPageFaultsTwice(Load(order, page, max), max, accesses[1..], more, touched);
      assert faulted + ([page] + later) == more + later;
    }
  }

  function Touched(accesses: seq<nat>): set<nat> {
    set p | p in accesses
  }

  /** The pages of `need` that have faulted, each once, are the last ones loaded. */
  ghost predicate FaultedSoFar(need: seq<nat>, order: seq<nat>, faulted: seq<nat>) {
    LastLoaded(order, faulted) && NoDuplicates(faulted) && forall p :: p in faulted ==> p in Touched(need)
  }

  lemma {:induction false} OneMoreFault(order: seq<nat>, mapped: set<nat>, max: nat, need: seq<nat>,
                                        faulted: seq<nat>, page: nat)
    requires 0 < max && |order| <= max && Lists(order, mapped) && |Touched(need)| <= max
    requires FaultedSoFar(need, order, faulted) && page in need && page !in mapped
    ensures FaultedSoFar(need, Load(order, page, max), faulted + [page]) && |faulted| < |Touched(need)|
  {
    ListsMeans(order, mapped);
    FaultedResident(order, faulted, page);
    DistinctFit(faulted + [page], Touched(need));
    LoadedLast(order, max, page, faulted);
  }

  // ----- loads one after the other ------------------------------------------------------------------

  /** The resident pages after several loads. */
  function LoadAll(order: seq<nat>, max: nat, pages: seq<nat>): (r: seq<nat>)
    requires 0 < max && |order| <= max
    ensures |r| <= max
  {
    if pages == [] then order
    else Load(LoadAll(order, max, pages[..|pages| - 1]), pages[|pages| - 1], max)
  }

  /** Each page was not there when it was loaded. */
  ghost predicate EachMissing(order: seq<nat>, max: nat, pages: seq<nat>)
    requires 0 < max && |order| <= max
  {
    forall j :: 0 <= j < |pages| ==> pages[j] !in LoadAll(order, max, pages[..j])
  }

  lemma {:induction false} LoadAllMore(order: seq<nat>, max: nat, pages: seq<nat>, page: nat)
    requires 0 < max && |order| <= max
    ensures LoadAll(order, max, pages + [page]) == Load(LoadAll(order, max, pages), page, max)
    ensures EachMissing(order, max, pages) && page !in LoadAll(order, max, pages) ==>
              EachMissing(order, max, pages + [page])
  {
    var more := pages + [page];
    assert more[..|pages|] == pages;
    assert forall j :: 0 <= j < |pages| ==> more[..j] == pages[..j];
  }

  /** How many of the oldest pages make way for k more. */
  function Dropped(order: seq<nat>, max: nat, k: nat): nat {
    if |order| + k <= max then 0 else |order| + k - max
  }

  /** What is resident after loads: all pages, old and new, but the oldest that made way. */
  lemma {:induction false} LoadAllIs(order: seq<nat>, max: nat, pages: seq<nat>)
    requires 0 < max && |order| <= max && |pages| <= max
    ensures LoadAll(order, max, pages) == (order + pages)[Dropped(order, max, |pages|)..]
  {
    if pages != [] {
      var before, last := pages[..|pages| - 1], pages[|pages| - 1];
      LoadAllIs(order, max, before);
      assert order + pages == order + before + [last];
    }
  }

  /** The needed pages that are not there. */
  function Missing(order: seq<nat>, need: seq<nat>): set<nat> {
    set p | p in need && p !in order
  }

  /** Loads that bring all needed pages bring the missing ones. */
  lemma {:induction false} MissingCome(order: seq<nat>, max: nat, need: seq<nat>, pages: seq<nat>)
    requires 0 < max && |order| <= max && |pages| <= max
    requires forall p :: p in need ==> p in LoadAll(order, max, pages)
    ensures Missing(order, need) <= Touched(pages)
  {
    LoadAllIs(order, max, pages);
    forall p | p in Missing(order, need) ensures p in Touched(pages) {
      assert p in order + pages;
    }
  }

  lemma {:induction false} TouchedSize(pages: seq<nat>)
    ensures |Touched(pages)| <= |pages|
  {
    if pages != [] {
      var last, before := pages[|pages| - 1], pages[..|pages| - 1];
      TouchedSize(before);
      assert pages == before + [last];
      assert Touched(pages) == Touched(before) + {last};
    }
  }

  /** A page that need not make way is still there after the loads. */
  lemma {:induction false} StillThere(order: seq<nat>, max: nat, pages: seq<nat>, i: nat)
    requires 0 < max && |order| <= max && |pages| <= max
    requires Dropped(order, max, |pages|) <= i < |order|
    ensures order[i] in LoadAll(order, max, pages)
  {
    LoadAllIs(order, max, pages);
    var d := Dropped(order, max, |pages|);
    assert (order + pages)[d..][i - d] == order[i];
  }

  /** Page j of the loads is none of the resident pages, when no needed one of them has to make way. */
  lemma NewPage(order: seq<nat>, max: nat, need: seq<nat>, pages: seq<nat>, j: nat)
    requires 0 < max && |order| <= max && j < |pages| <= max && EachMissing(order, max, pages)
    requires NoDuplicates(pages) && (forall p :: p in pages ==> p in need)
    requires forall i :: 0 <= i < j ==> pages[i] !in order
    requires Dropped(order, max, |Missing(order, need)|) <= |order|
    requires forall p :: p in need ==> p !in order[..Dropped(order, max, |Missing(order, need)|)]
    ensures pages[j] !in order
  {
    var e := Dropped(order, max, |Missing(order, need)|);
    forall p | p in pages[..j] ensures p in Missing(order, need) {
      assert p in pages;
    }
    DistinctFit(pages[..j], Missing(order, need));
    assert pages[j] in need;
    forall i | 0 <= i < |order| ensures order[i] != pages[j] {
      if i < e {
        assert order[i] in order[..e];
      } else {
        StillThere(order, max, pages[..j], i);
      }
    }
  }

  lemma {:induction false} NewPages(order: seq<nat>, max: nat, need: seq<nat>, pages: seq<nat>, k: nat)
    requires 0 < max && |order| <= max && k <= |pages| <= max && EachMissing(order, max, pages)
    requires NoDuplicates(pages) && (forall p :: p in pages ==> p in need)
    requires Dropped(order, max, |Missing(order, need)|) <= |order|
    requires forall p :: p in need ==> p !in order[..Dropped(order, max, |Missing(order, need)|)]
    ensures forall i :: 0 <= i < k ==> pages[i] !in order
  {
    if k > 0 {
      NewPages(order, max, need, pages, k - 1);
      NewPage(order, max, need, pages, k - 1);
    }
  }

  /** A page that makes way, and is not loaded again, is gone. */
  lemma {:induction false} Gone(order: seq<nat>, max: nat, pages: seq<nat>, p: nat)
    requires 0 < max && |order| <= max && NoDuplicates(order) && |pages| <= max
    requires Dropped(order, max, |pages|) <= |order| && p in order[..Dropped(order, max, |pages|)] && p !in pages
    ensures p !in LoadAll(order, max, pages)
  {
    LoadAllIs(order, max, pages);
    var e := Dropped(order, max, |pages|);
    forall m | 0 <= m < |order + pages| - e ensures (order + pages)[e..][m] != p {
      if e + m < |order| {
        assert (order + pages)[e + m] == order[e + m];
      } else {
        assert (order + pages)[e + m] == pages[e + m - |order|];
      }
    }
  }

  /** Loads of pages that were not there, which bring all needed pages, are as many as the missing ones. */
  lemma {:induction false} AsManyAsMissing(order: seq<nat>, max: nat, need: seq<nat>, pages: seq<nat>)
    requires 0 < max && |order| <= max && |pages| <= max && NoDuplicates(pages)
    requires forall q :: q in pages ==> q in need && q !in order
    requires forall q :: q in need ==> q in LoadAll(order, max, pages)
    ensures |pages| == |Missing(order, need)|
  {
    DistinctFit(pages, Missing(order, need));
    MissingCome(order, max, need, pages);
    TouchedSize(pages);
    Subset(Missing(order, need), Touched(pages));
  }

  /** A needed page that makes way for the missing ones faults too, or another page that was there does. */
  lemma {:induction false} EvictedFaults(order: seq<nat>, max: nat, need: seq<nat>, pages: seq<nat>, p: nat)
    requires 0 < max && |order| <= max && NoDuplicates(order) && |pages| <= max && NoDuplicates(pages)
    requires forall q :: q in pages ==> q in need
    requires forall q :: q in need ==> q in LoadAll(order, max, pages)
    requires Dropped(order, max, |Missing(order, need)|) <= |order|
    requires p in need && p in order[..Dropped(order, max, |Missing(order, need)|)]
    ensures exists q :: q in pages && q in order
  {
    if forall q :: q in pages ==> q !in order {
      AsManyAsMissing(order, max, need, pages);
      Gone(order, max, pages, p);
    }
  }

  /** An instruction faults on pages that were there exactly when a needed page is among the oldest ones that
      must make way for the missing pages; it always faults on those. */
  lemma {:induction false} FaultsAreMissing(order: seq<nat>, max: nat, need: seq<nat>, pages: seq<nat>)
    requires 0 < max && |order| <= max && NoDuplicates(order) && |Touched(need)| <= max
    requires NoDuplicates(pages) && (forall p :: p in pages ==> p in need) && EachMissing(order, max, pages)
    requires forall p :: p in need ==> p in LoadAll(order, max, pages)
    ensures Missing(order, need) <= Touched(pages)
    ensures Dropped(order, max, |Missing(order, need)|) <= |order|
    ensures (exists p :: p in pages && p in order)
            <==> exists p :: p in need && p in order[..Dropped(order, max, |Missing(order, need)|)]
  {
    Subset(Missing(order, need), Touched(need));
    DistinctFit(pages, Touched(need));
    MissingCome(order, max, need, pages);
    if p :| p in need && p in order[..Dropped(order, max, |Missing(order, need)|)] {
      EvictedFaults(order, max, need, pages, p);
    } else {
      NewPages(order, max, need, pages, |pages|);
    }
  }

  /** With pages p and q there, p the older, and no room for more, an instruction that needs r and p faults on
      a page that was there, although both pages it needs fit. */
  lemma {:induction false} ResidentPageFaults(p: nat, q: nat, r: nat, pages: seq<nat>)
    requires p != q && p != r && q != r
    requires NoDuplicates(pages) && (forall x :: x in pages ==> x in [r, p]) && EachMissing([p, q], 2, pages)
    requires forall x :: x in [r, p] ==> x in LoadAll([p, q], 2, pages)
    ensures |Touched([r, p])| <= 2 && exists x :: x in pages && x in [p, q]
  {
    hide LoadAll, EachMissing;
    TouchedSize([r, p]);
    FaultsAreMissing([p, q], 2, [r, p], pages);
    assert Missing([p, q], [r, p]) == {r};
    assert [p, q][..1] == [p] && p in [r, p];
  }

  /** A stretch of accesses to at most `max` distinct pages causes at most one fault for each of them. */
  lemma {:induction false} FaultBound(order: seq<nat>, max: nat, accesses: seq<nat>)
    requires 0 < max && |order| <= max && |Touched(accesses)| <= max
    ensures NoDuplicates(Faults(order, max, accesses))
    ensures |Faults(order, max, accesses)| <= |Touched(accesses)|
  {
    NoPageFaultsTwice(order, max, accesses, [], Touched(accesses));
    assert [] + Faults(order, max, accesses) == Faults(order, max, accesses);
    DistinctFit(Faults(order, max, accesses), Touched(accesses));
  }
}
