/** Whole runs of loads and stores through the pager of VirtualMemoryAllocator/paged_forth_lib.c: they read
    what one flat array would give, and fault as first-in first-out replacement says. */
module PagerRun {
  import opened Bytes
  import opened Fifo
  import opened Pager

  datatype Access = Fetch(address: int) | Store(address: int, value: Byte)

  predicate InRegionOf(pagesiz: nat, address: int) {
    STACKHEAP_MEM_START <= address < STACKHEAP_MEM_START + NUM_PAGES * pagesiz
  }

  predicate AllInRegion(pagesiz: nat, run: seq<Access>) {
    forall i :: 0 <= i < |run| ==> InRegionOf(pagesiz, run[i].address)
  }

  // ----- the flat array -------------------------------------------------------------------------

  /** The array after one access. */
  function After(flat: seq<Byte>, a: Access): (r: seq<Byte>)
    requires 0 <= a.address - STACKHEAP_MEM_START < |flat|
    ensures |r| == |flat|
  {
    match a
    case Fetch(_) => flat
    case Store(address, value) => flat[address - STACKHEAP_MEM_START := value]
  }

  /** What one access answers. */
  function Answer(flat: seq<Byte>, a: Access): seq<Byte>
    requires 0 <= a.address - STACKHEAP_MEM_START < |flat|
  {
    match a
    case Fetch(address) => [flat[address - STACKHEAP_MEM_START]]
    case Store(_, _) => []
  }

  predicate Within(size: nat, run: seq<Access>) {
    forall i :: 0 <= i < |run| ==> 0 <= run[i].address - STACKHEAP_MEM_START < size
  }

  function AfterAll(flat: seq<Byte>, run: seq<Access>): seq<Byte>
    requires Within(|flat|, run)
    decreases run
  {
    if run == [] then flat else AfterAll(After(flat, run[0]), run[1..])
  }

  function Answers(flat: seq<Byte>, run: seq<Access>): seq<Byte>
    requires Within(|flat|, run)
    decreases run
  {
    if run == [] then [] else Answer(flat, run[0]) + Answers(After(flat, run[0]), run[1..])
  }

  lemma {:induction false} AnswersStep(flat: seq<Byte>, run: seq<Access>, i: nat, before: seq<Byte>)
    requires Within(|flat|, run) && i < |run|
    ensures AfterAll(flat, run[i..]) == AfterAll(After(flat, run[i]), run[i + 1..])
    ensures before + Answers(flat, run[i..])
         == before + Answer(flat, run[i]) + Answers(After(flat, run[i]), run[i + 1..])
  {
    RunStep(run, i);
  }

  // ----- the faults -----------------------------------------------------------------------------

  function PageOf(pagesiz: nat, address: int): nat
    requires 0 < pagesiz && InRegionOf(pagesiz, address)
  {
    (address - STACKHEAP_MEM_START) / pagesiz
  }

  /** The pages of a run, one for each access. */
  function PagesOf(pagesiz: nat, run: seq<Access>): seq<nat>
    requires 0 < pagesiz && AllInRegion(pagesiz, run)
  {
    if run == [] then [] else [PageOf(pagesiz, run[0].address)] + PagesOf(pagesiz, run[1..])
  }

  /** What the handler reports during a run. */
  function Reports(order: seq<nat>, max: nat, pagesiz: nat, run: seq<Access>): seq<(int, nat, int)>
    requires 0 < max && |order| <= max && 0 < pagesiz && AllInRegion(pagesiz, run)
    decreases run
  {
    if run == [] then []
    else
      var page := PageOf(pagesiz, run[0].address);
      Report(order, page, run[0].address, max) + Reports(OrderAfter(order, page, max), max, pagesiz, run[1..])
  }

  /** The first access of the rest of a run. */
  lemma RunStep(run: seq<Access>, i: nat)
    requires i < |run|
    ensures run[i..][0] == run[i] && run[i..][1..] == run[i + 1..]
  {
  }

  lemma {:induction false} ReportsStep(order: seq<nat>, max: nat, pagesiz: nat, run: seq<Access>, i: nat,
                                       before: seq<(int, nat, int)>)
    requires 0 < max && |order| <= max && 0 < pagesiz && AllInRegion(pagesiz, run) && i < |run|
    ensures var page := PageOf(pagesiz, run[i].address);
            before + Reports(order, max, pagesiz, run[i..])
            == before + Report(order, page, run[i].address, max)
               + Reports(OrderAfter(order, page, max), max, pagesiz, run[i + 1..])
  {
    RunStep(run, i);
  }

  /** The reported pages are the faults of first-in first-out replacement. */
  lemma {:induction false} ReportsAreFaults(order: seq<nat>, max: nat, pagesiz: nat, run: seq<Access>)
    requires 0 < max && |order| <= max && 0 < pagesiz && AllInRegion(pagesiz, run)
    ensures ReportedPages(Reports(order, max, pagesiz, run)) == Faults(order, max, PagesOf(pagesiz, run))
    decreases run
  {
    if run != [] {
      var page := PageOf(pagesiz, run[0].address);
      var rest := Reports(OrderAfter(order, page, max), max, pagesiz, run[1..]);
      ReportsAreFaults(OrderAfter(order, page, max), max, pagesiz, run[1..]);
      assert PagesOf(pagesiz, run)[1..] == PagesOf(pagesiz, run[1..]);
      if page in order {
        assert Reports(order, max, pagesiz, run) == rest;
      } else {
        var all := Reports(order, max, pagesiz, run);
        assert all[0].1 == page && all[1..] == rest;
      }
    }
  }

  /** A run that stays within as many pages as fit faults at most once on each of them. */
  lemma {:induction false} FewFaults(order: seq<nat>, max: nat, pagesiz: nat, run: seq<Access>)
    requires 0 < max && |order| <= max && 0 < pagesiz && AllInRegion(pagesiz, run)
    requires |Touched(PagesOf(pagesiz, run))| <= max
    ensures NoDuplicates(ReportedPages(Reports(order, max, pagesiz, run)))
    ensures |Reports(order, max, pagesiz, run)| <= |Touched(PagesOf(pagesiz, run))|
  {
    ReportsAreFaults(order, max, pagesiz, run);
    FaultBound(order, max, PagesOf(pagesiz, run));
    ReportedLength(Reports(order, max, pagesiz, run));
  }

  // ----- the pager --------------------------------------------------------------------------------

  /** The pages read as the array does, byte by byte. */
  ghost predicate Holds(p: Pager, flat: seq<Byte>)
    requires 0 < p.pagesiz && p.loadarr.Length == NUM_PAGES
    reads p`files, p.loadarr
  {
    && |flat| == NUM_PAGES * p.pagesiz
    && forall i :: 0 <= i < |flat| ==> flat[i] == ByteAt(p, i)
  }

  ghost function ByteAt(p: Pager, i: nat): Byte
    requires 0 < p.pagesiz && p.loadarr.Length == NUM_PAGES && i < NUM_PAGES * p.pagesiz
    reads p`files, p.loadarr
  {
    PageInRegion(i, p.pagesiz);
    p.Page(i / p.pagesiz)[i % p.pagesiz]
  }

  lemma SamePlace(i: nat, j: nat, m: nat)
    requires 0 < m && i / m == j / m && i % m == j % m
    ensures i == j
  {
    assert i == i / m * m + i % m;
  }

  method DoFetch(p: Pager, address: int, ghost flat: seq<Byte>) returns (value: Byte)
    requires p.Valid() && Holds(p, flat) && InRegionOf(p.pagesiz, address)
    modifies p, p.lifearr, p.namearr, p.loadarr
    ensures p.Valid() && Holds(p, flat) && value == flat[address - STACKHEAP_MEM_START]
    ensures p.order == OrderAfter(old(p.order), PageOf(p.pagesiz, address), p.max_pages)
    ensures p.callbacks == old(p.callbacks) + Report(old(p.order), PageOf(p.pagesiz, address), address, p.max_pages)
  {
    hide Report, OrderAfter;
    ghost var offset := address - STACKHEAP_MEM_START;
    value := p.Read(address);
    assert flat[offset] == old(ByteAt(p, offset));
    forall i | 0 <= i < |flat| ensures flat[i] == ByteAt(p, i) {
      PageInRegion(i, p.pagesiz);
      assert flat[i] == old(ByteAt(p, i));
    }
  }

  method DoStore(p: Pager, address: int, value: Byte, ghost flat: seq<Byte>)
    requires p.Valid() && Holds(p, flat) && InRegionOf(p.pagesiz, address)
    modifies p, p.lifearr, p.namearr, p.loadarr
    ensures p.Valid() && Holds(p, flat[address - STACKHEAP_MEM_START := value])
    ensures p.order == OrderAfter(old(p.order), PageOf(p.pagesiz, address), p.max_pages)
    ensures p.callbacks == old(p.callbacks) + Report(old(p.order), PageOf(p.pagesiz, address), address, p.max_pages)
  {
    hide Report, OrderAfter;
    ghost var offset := address - STACKHEAP_MEM_START;
    p.Write(address, value);
    forall i | 0 <= i < |flat| ensures flat[offset := value][i] == ByteAt(p, i) {
      PageInRegion(i, p.pagesiz);
      assert old(ByteAt(p, i)) == flat[i];
      if i != offset && i / p.pagesiz == offset / p.pagesiz && i % p.pagesiz == offset % p.pagesiz {
        SamePlace(i, offset, p.pagesiz);
      }
    }
  }

  /** One access: the answer and the new contents are the array's, and the handler ran if the page was not
      there. */
  method Do(p: Pager, a: Access, ghost flat: seq<Byte>) returns (answer: seq<Byte>)
    requires p.Valid() && Holds(p, flat) && InRegionOf(p.pagesiz, a.address)
    modifies p, p.lifearr, p.namearr, p.loadarr
    ensures p.Valid() && Holds(p, After(flat, a)) && answer == Answer(flat, a)
    ensures p.order == OrderAfter(old(p.order), PageOf(p.pagesiz, a.address), p.max_pages)
    ensures p.callbacks == old(p.callbacks)
              + Report(old(p.order), PageOf(p.pagesiz, a.address), a.address, p.max_pages)
  {
    hide Holds, PageOf, Report, OrderAfter;
    match a
    case Fetch(address) =>
      var value := DoFetch(p, address, flat);
      answer := [value];
    case Store(address, value) =>
      DoStore(p, address, value, flat);
      answer := [];
  }

  /** A run of accesses answers what the flat array answers, leaves the pages reading as the array does, and
      makes the reports of first-in first-out replacement. */
  method Run(p: Pager, run: seq<Access>, ghost flat: seq<Byte>) returns (answers: seq<Byte>)
    requires p.Valid() && Holds(p, flat) && AllInRegion(p.pagesiz, run)
    modifies p, p.lifearr, p.namearr, p.loadarr
    ensures p.Valid() && Holds(p, AfterAll(flat, run)) && answers == Answers(flat, run)
    ensures p.callbacks == old(p.callbacks) + Reports(old(p.order), p.max_pages, p.pagesiz, run)
  {
    assert |flat| == NUM_PAGES * p.pagesiz && Within(|flat|, run);
    hide Holds, PageOf, Report, OrderAfter;
    answers := [];
    ghost var now := flat;
    for i := 0 to |run|
      invariant p.Valid() && Holds(p, now) && |now| == |flat|
      invariant AfterAll(now, run[i..]) == AfterAll(flat, run)
      invariant answers + Answers(now, run[i..]) == Answers(flat, run)
      invariant p.callbacks + Reports(p.order, p.max_pages, p.pagesiz, run[i..])
             == old(p.callbacks) + Reports(old(p.order), p.max_pages, p.pagesiz, run)
    {
      AnswersStep(now, run, i, answers);
      ReportsStep(p.order, p.max_pages, p.pagesiz, run, i, p.callbacks);
      var answer := Do(p, run[i], now);
      now := After(now, run[i]);
      answers := answers + answer;
    }
    assert run[|run|..] == [];
  }

  // ----- from the start ---------------------------------------------------------------------------

  /** The array a run starts with: what the first load makes of the leftover page files. */
  function StartFlat(leftover: map<nat, seq<Byte>>, pagesiz: nat): (r: seq<Byte>)
    requires 0 < pagesiz
  {
    seq(NUM_PAGES * pagesiz, i requires 0 <= i < NUM_PAGES * pagesiz => StartByte(leftover, pagesiz, i))
  }

  function StartByte(leftover: map<nat, seq<Byte>>, pagesiz: nat, i: nat): Byte
    requires 0 < pagesiz && i < NUM_PAGES * pagesiz
  {
    FirstContents(leftover, i / pagesiz, pagesiz)[i % pagesiz]
  }

  /** No file is left over with another byte than zero in it, the last byte of each page apart. */
  ghost predicate Clean(leftover: map<nat, seq<Byte>>, pagesiz: nat) {
    forall page: nat, o: nat :: page < NUM_PAGES && o < pagesiz - 1 && o < |Contents(leftover, page)| ==>
      Contents(leftover, page)[o] == 0
  }

  lemma IndexOf(page: nat, o: nat, pagesiz: nat)
    requires page < NUM_PAGES && o < pagesiz
    ensures page * pagesiz + o < NUM_PAGES * pagesiz
    ensures (page * pagesiz + o) / pagesiz == page && (page * pagesiz + o) % pagesiz == o
  {
    var i, d := page * pagesiz + o, NUM_PAGES - 1 - page;
    assert d * pagesiz >= 0;
    assert NUM_PAGES * pagesiz == page * pagesiz + d * pagesiz + pagesiz;
    ModuloOf(page, o, pagesiz);
    assert i == i / pagesiz * pagesiz + i % pagesiz;
    SameFactor(i / pagesiz, page, pagesiz);
  }

  /** A run starts with an array of zeros exactly if the leftover files are clean. */
  lemma {:induction false} StartsAsZeros(leftover: map<nat, seq<Byte>>, pagesiz: nat)
    requires 0 < pagesiz
    ensures StartFlat(leftover, pagesiz) == Zeros(NUM_PAGES * pagesiz) <==> Clean(leftover, pagesiz)
  {
    var flat := StartFlat(leftover, pagesiz);
    if Clean(leftover, pagesiz) {
      forall i | 0 <= i < |flat| ensures flat[i] == 0 {
        PageInRegion(i, pagesiz);
        FirstContentsZero(leftover, i / pagesiz, pagesiz);
      }
    }
    if flat == Zeros(NUM_PAGES * pagesiz) {
      forall page: nat, o: nat | page < NUM_PAGES && o < pagesiz - 1 && o < |Contents(leftover, page)|
        ensures Contents(leftover, page)[o] == 0
      {
        IndexOf(page, o, pagesiz);
        assert flat[page * pagesiz + o] == 0;
      }
    }
  }

  /** The pager as it is set up reads as the starting array. */
  lemma StartHolds(p: Pager, leftover: map<nat, seq<Byte>>)
    requires 0 < p.pagesiz && p.loadarr.Length == NUM_PAGES
    requires forall page: nat :: page < NUM_PAGES ==> p.Page(page) == FirstContents(leftover, page, p.pagesiz)
    ensures Holds(p, StartFlat(leftover, p.pagesiz))
  {
    var flat := StartFlat(leftover, p.pagesiz);
    forall i | 0 <= i < |flat| ensures flat[i] == ByteAt(p, i) {
      PageInRegion(i, p.pagesiz);
    }
  }

  /** A whole session: set up, then a run.  The answers are those of one flat array, and the pages that
      fault are those of first-in first-out replacement from an empty memory; when no more pages are used
      than fit, each faults at most once. */
  method Session(max_pages: nat, pagesiz: nat, leftover: map<nat, seq<Byte>>, run: seq<Access>)
    returns (p: Pager, answers: seq<Byte>)
    requires 0 < max_pages && 0 < pagesiz && NUM_PAGES * pagesiz < 0x8000_0000 && AllInRegion(pagesiz, run)
    ensures fresh(p) && Within(|StartFlat(leftover, pagesiz)|, run)
    ensures answers == Answers(StartFlat(leftover, pagesiz), run)
    ensures ReportedPages(p.callbacks) == Faults([], max_pages, PagesOf(pagesiz, run))
    ensures |Touched(PagesOf(pagesiz, run))| <= max_pages ==>
              NoDuplicates(ReportedPages(p.callbacks)) && |p.callbacks| <= |Touched(PagesOf(pagesiz, run))|
  {
    p := new Pager(max_pages, pagesiz, leftover);
    StartHolds(p, leftover);
    assert p.order == [] && p.callbacks == [];
    hide Holds, StartFlat, PageOf, Report, OrderAfter;
    ReportsAreFaults([], max_pages, pagesiz, run);
    if |Touched(PagesOf(pagesiz, run))| <= max_pages {
      FewFaults([], max_pages, pagesiz, run);
    }
    answers := Run(p, run, StartFlat(leftover, pagesiz));
    assert p.callbacks == Reports([], max_pages, pagesiz, run);
  }
}
