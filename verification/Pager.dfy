/** The demand pager of VirtualMemoryAllocator/paged_forth_lib.c: a fault handler with ageing counters and
    one file per page, refining first-in first-out replacement and flat memory. */
module Pager {
  import opened Bytes
  import opened Fifo
  import opened Sets

  const NUM_PAGES := 20
  const STACKHEAP_MEM_START := 0xf9f8c000
  const NO_UNMAP := -1

  /** The conversion of a pointer difference to int. */
  function Int32(x: int): int {
    (x + 0x8000_0000) % 0x1_0000_0000 - 0x8000_0000
  }

  function Zeros(n: nat): (r: seq<Byte>)
    ensures |r| == n && forall o :: 0 <= o < n ==> r[o] == 0
  {
    if n == 0 then [] else Zeros(n - 1) + [0]
  }

  /** A file after a zero byte was written at position n - 1: extended with zeros when it was shorter. */
  function WithZeroAt(file: seq<Byte>, n: nat): (r: seq<Byte>)
    requires n > 0
    ensures |r| >= n
  {
    if |file| < n then file + Zeros(n - |file|) else file[n - 1 := 0]
  }

  function Contents(files: map<nat, seq<Byte>>, page: nat): seq<Byte> {
    if page in files then files[page] else []
  }

  /** What a page holds before anything is written to it. */
  function FirstContents(files: map<nat, seq<Byte>>, page: nat, pagesize: nat): seq<Byte>
    requires pagesize > 0
  {
    WithZeroAt(Contents(files, page), pagesize)[..pagesize]
  }

  // ----- the ageing counters --------------------------------------------------------------------

  /** The place in load order of the page in slot q, when the oldest page is in slot `oldest`. */
  function Place(q: nat, oldest: nat, max: nat): int {
    if oldest <= q then q - oldest else q - oldest + max
  }

  /** Slot q holds a resident page and its age, the number of faults since it was loaded, or is free. */
  ghost predicate SlotIs(life: int, name: int, order: seq<nat>, place: int, faults: nat) {
    if 0 <= place < |order| then name == order[place] && life == |order| - 1 - place + faults
    else name == NO_UNMAP
  }

  /** The two arrays hold the resident pages and their ages, `faults` faults later. */
  ghost predicate Ages(life: seq<int>, name: seq<int>, order: seq<nat>, oldest: nat, max: nat, faults: nat) {
    && |life| == |name| == max && oldest < max
    && forall q :: 0 <= q < max ==> SlotIs(life[q], name[q], order, Place(q, oldest, max), faults)
  }

  lemma AgesOlder(life: seq<int>, older: seq<int>, name: seq<int>, order: seq<nat>, oldest: nat, max: nat)
    requires Ages(life, name, order, oldest, max, 0)
    requires |older| == |life| && forall q :: 0 <= q < |life| ==> older[q] == life[q] + 1
    ensures Ages(older, name, order, oldest, max, 1)
  {
    forall q: nat | q < max ensures SlotIs(older[q], name[q], order, Place(q, oldest, max), 1) {
      assert SlotIs(life[q], name[q], order, Place(q, oldest, max), 0);
    }
  }

  function NextSlot(oldest: nat, max: nat): nat {
    if oldest + 1 == max then 0 else oldest + 1
  }

  /** The oldest page has the greatest age, and no other page has it. */
  lemma OldestIsGreatest(life: seq<int>, name: seq<int>, order: seq<nat>, oldest: nat, max: nat, q: nat)
    requires Ages(life, name, order, oldest, max, 1) && |order| == max && q < max
    ensures life[q] > 0 && name[oldest] == order[0]
    ensures q != oldest ==> life[q] < life[oldest]
  {
    assert SlotIs(life[q], name[q], order, Place(q, oldest, max), 1);
    assert SlotIs(life[oldest], name[oldest], order, 0, 1);
  }

  lemma AgesAfterEviction(life: seq<int>, name: seq<int>, order: seq<nat>, oldest: nat, max: nat, page: nat)
    requires Ages(life, name, order, oldest, max, 1) && |order| == max
    ensures Ages(life[oldest := 0], name[oldest := page], Load(order, page, max), NextSlot(oldest, max), max, 0)
  {
    var order', next := Load(order, page, max), NextSlot(oldest, max);
    forall q: nat | q < max
      ensures SlotIs(life[oldest := 0][q], name[oldest := page][q], order', Place(q, next, max), 0)
    {
      assert SlotIs(life[q], name[q], order, Place(q, oldest, max), 1);
    }
  }

  lemma AgesAfterFilling(life: seq<int>, name: seq<int>, order: seq<nat>, max: nat, page: nat)
    requires Ages(life, name, order, 0, max, 1) && |order| < max
    ensures Ages(life[|order| := 0], name[|order| := page], Load(order, page, max), 0, max, 0)
    ensures name[|order|] == NO_UNMAP
  {
    forall q: nat | q < max
      ensures SlotIs(life[|order| := 0][q], name[|order| := page][q], Load(order, page, max), Place(q, 0, max), 0)
    {
      assert SlotIs(life[q], name[q], order, Place(q, 0, max), 1);
    }
    assert SlotIs(life[|order|], name[|order|], order, Place(|order|, 0, max), 1);
  }

  /** The slot used after n others were used, round robin. */
  function RoundRobin(n: nat, max: nat): (slot: nat)
    requires 0 < max
    ensures slot < max
  {
    if n == 0 then 0 else NextSlot(RoundRobin(n - 1, max), max)
  }

  lemma {:induction false} RoundRobinIsModulo(n: nat, max: nat)
    requires 0 < max
    ensures RoundRobin(n, max) == n % max
  {
    if n > 0 {
      RoundRobinIsModulo(n - 1, max);
      NextModulo(n - 1, max);
    } else {
      assert RoundRobin(0, max) == 0;
    }
  }

  lemma NextModulo(n: nat, max: nat)
    requires 0 < max
    ensures (n + 1) % max == NextSlot(n % max, max)
  {
    var d, r := n / max, n % max;
    if r + 1 == max {
      assert n + 1 == (d + 1) * max + 0;
      ModuloOf(d + 1, 0, max);
    } else {
      assert n + 1 == d * max + (r + 1);
      ModuloOf(d, r + 1, max);
    }
  }

  lemma ModuloOf(d: nat, r: nat, max: nat)
    requires r < max
    ensures (d * max + r) % max == r
  {
    var q, m := (d * max + r) / max, (d * max + r) % max;
    assert (d - q) * max == m - r;
    assert d - q >= 1 ==> (d - q) * max >= max;
    assert d - q <= -1 ==> (q - d) * max >= max;
  }

  /** The filling slots are used in order. */
  lemma {:induction false} RoundRobinSmall(n: nat, max: nat)
    requires n <= max && 0 < max
    ensures RoundRobin(n, max) == if n == max then 0 else n
  {
    if n > 0 {
      RoundRobinSmall(n - 1, max);
    } else {
      assert RoundRobin(0, max) == 0;
    }
  }

  lemma PageInRegion(distance: nat, pagesiz: nat)
    requires 0 < pagesiz && distance < NUM_PAGES * pagesiz
    ensures distance / pagesiz < NUM_PAGES
  {
    var q := distance / pagesiz;
    assert q * pagesiz <= distance;
    assert q >= NUM_PAGES ==> q * pagesiz >= NUM_PAGES * pagesiz;
  }

  /** A byte written to a loaded page changes that byte of that page only. */
  lemma WriteChangesByte(files: map<nat, seq<Byte>>, loaded: seq<bool>, pagesize: nat, page: nat, o: nat,
                         changed: seq<Byte>, value: Byte, p: nat)
    requires 0 < pagesize && WholePages(files, loaded, pagesize) && page < |loaded| && p < |loaded|
    requires loaded[page] && page in files && o < pagesize <= |files[page]| && changed == files[page][o := value]
    ensures PageContents(files[page := changed], p, loaded[p], pagesize)
         == if p == page then PageContents(files, page, true, pagesize)[o := value]
            else PageContents(files, p, loaded[p], pagesize)
    ensures WholePages(files[page := changed], loaded, pagesize)
  {
  }

  /** The slot of the oldest page after `count` faults. */
  function OldestSlot(count: nat, max: nat): (slot: nat)
    requires 0 < max
    ensures slot < max
  {
    if count < max then 0 else RoundRobin(count, max)
  }

  // ----- residence and backing ------------------------------------------------------------------

  /** The resident pages after `count` faults: as many as fit, all of them loaded, and all that were loaded
      as long as nothing was evicted. */
  ghost predicate Resident(order: seq<nat>, mapped: set<nat>, loaded: seq<bool>, count: nat, max: nat) {
    && |loaded| == NUM_PAGES
    && |order| == (if count < max then count else max) == |mapped|
    && Lists(order, mapped)
    && (forall p :: p in mapped ==> p < NUM_PAGES && loaded[p])
    && (count <= max ==> forall p :: 0 <= p < NUM_PAGES && loaded[p] ==> p in mapped)
  }

  /** What the handler tells its callback about an access: the page that came and the one that went, or
      nothing when the page was there. */
  function Report(order: seq<nat>, page: nat, address: int, max: nat): seq<(int, nat, int)>
    requires |order| <= max && 0 < max
  {
    if page in order then [] else [(address, page, if |order| < max then NO_UNMAP else order[0])]
  }

  /** The pages that came. */
  function ReportedPages(reports: seq<(int, nat, int)>): seq<nat> {
    if reports == [] then [] else [reports[0].1] + ReportedPages(reports[1..])
  }

  lemma {:induction false} ReportedLength(reports: seq<(int, nat, int)>)
    ensures |ReportedPages(reports)| == |reports|
  {
    if reports != [] {
      ReportedLength(reports[1..]);
    }
  }

  lemma {:induction false} ReportedConcat(x: seq<(int, nat, int)>, y: seq<(int, nat, int)>)
    ensures ReportedPages(x + y) == ReportedPages(x) + ReportedPages(y)
  {
    if x == [] {
      assert x + y == y;
    } else {
      assert (x + y)[1..] == x[1..] + y;
      ReportedConcat(x[1..], y);
    }
  }

  /** The faults reported so far are of pages of `need` that were not there, none twice, and they led from
      `order0` to `order`. */
  ghost predicate FaultsMade(need: seq<nat>, order0: seq<nat>, order: seq<nat>, max: nat, calls: seq<(int, nat, int)>)
  {
    var pages := ReportedPages(calls);
    && FaultedSoFar(need, order, pages) && 0 < max && |order0| <= max
    && order == LoadAll(order0, max, pages) && EachMissing(order0, max, pages)
  }

  lemma NoneMade(need: seq<nat>, order: seq<nat>, max: nat)
    requires 0 < max && |order| <= max
    ensures FaultsMade(need, order, order, max, [])
  {
  }

  lemma {:induction false} MadeMeans(need: seq<nat>, order0: seq<nat>, order: seq<nat>, max: nat,
                                     calls: seq<(int, nat, int)>)
    requires FaultsMade(need, order0, order, max, calls)
    ensures 0 < max && |order0| <= max && NoDuplicates(ReportedPages(calls))
    ensures forall p :: p in ReportedPages(calls) ==> p in need
    ensures EachMissing(order0, max, ReportedPages(calls)) && order == LoadAll(order0, max, ReportedPages(calls))
    ensures |calls| <= |Touched(need)|
  {
    ReportedLength(calls);
    DistinctFit(ReportedPages(calls), Touched(need));
  }

  lemma {:induction false} OneMoreReport(need: seq<nat>, order0: seq<nat>, order: seq<nat>, max: nat, mapped: set<nat>,
                      calls: seq<(int, nat, int)>, page: nat, address: int)
    requires 0 < max && |order| <= max && Lists(order, mapped) && |Touched(need)| <= max
    requires FaultsMade(need, order0, order, max, calls) && page in need && page !in mapped
    ensures FaultsMade(need, order0, OrderAfter(order, page, max), max, calls + Report(order, page, address, max))
    ensures |calls| < |Touched(need)| && |Report(order, page, address, max)| == 1
  {
    var faulted, more := ReportedPages(calls), Report(order, page, address, max);
    ListsMeans(order, mapped);
    OneMoreFault(order, mapped, max, need, faulted, page);
    LoadAllMore(order0, max, faulted, page);
    ReportedLength(calls);
    ReportedConcat(calls, more);
    assert more[1..] == [] && ReportedPages(more) == [page];
  }

  lemma ResidentAfterEviction(order: seq<nat>, mapped: set<nat>, loaded: seq<bool>, count: nat, max: nat, page: nat)
    requires Resident(order, mapped, loaded, count, max) && 0 < max <= count
    requires page < NUM_PAGES && page !in mapped
    ensures order[0] in mapped && |mapped - {order[0]} + {page}| == |mapped|
    ensures Resident(Load(order, page, max), mapped - {order[0]} + {page}, loaded[page := true], count + 1, max)
  {
    LoadLists(order, mapped, page, max);
    assert |mapped - {order[0]}| == |mapped| - 1;
  }

  lemma ResidentAfterFilling(order: seq<nat>, mapped: set<nat>, loaded: seq<bool>, count: nat, max: nat, page: nat)
    requires Resident(order, mapped, loaded, count, max) && count < max
    requires page < NUM_PAGES && page !in mapped
    ensures Resident(Load(order, page, max), mapped + {page}, loaded[page := true], count + 1, max)
    ensures !loaded[page] && |mapped + {page}| <= max
  {
    LoadLists(order, mapped, page, max);
  }

  /** The region starts out as zeros exactly if no page file was left over with another byte in it; the last
      byte of each page is zeroed anyway. */
  lemma FirstContentsZero(files: map<nat, seq<Byte>>, page: nat, pagesize: nat)
    requires pagesize > 0
    ensures (forall o :: 0 <= o < pagesize ==> FirstContents(files, page, pagesize)[o] == 0)
       <==> (forall o :: 0 <= o < pagesize - 1 && o < |Contents(files, page)| ==> Contents(files, page)[o] == 0)
  {
    var file, first := Contents(files, page), FirstContents(files, page, pagesize);
    assert forall o :: 0 <= o < pagesize - 1 && o < |file| ==> first[o] == file[o];
    assert forall o :: |file| <= o < pagesize ==> first[o] == 0;
    assert first[pagesize - 1] == 0;
  }

  /** What reading a page gives now: its file if it was loaded, else what the first load will make of it. */
  function PageContents(files: map<nat, seq<Byte>>, page: nat, loaded: bool, pagesize: nat): (r: seq<Byte>)
    requires 0 < pagesize
    ensures |r| == pagesize
  {
    if loaded && |Contents(files, page)| >= pagesize then Contents(files, page)[..pagesize]
    else FirstContents(files, page, pagesize)
  }

  /** The files of loaded pages hold a whole page. */
  ghost predicate WholePages(files: map<nat, seq<Byte>>, loaded: seq<bool>, pagesize: nat) {
    forall p :: 0 <= p < |loaded| && loaded[p] ==> |Contents(files, p)| >= pagesize
  }

  /** The page files after a load: opened again, or made with the zero byte at the end of the page. */
  function FilesAfter(files: map<nat, seq<Byte>>, page: nat, loaded: bool, pagesize: nat): map<nat, seq<Byte>>
    requires 0 < pagesize
  {
    files[page := if loaded then Contents(files, page) else WithZeroAt(Contents(files, page), pagesize)]
  }

  /** A load changes what no page holds: the zero byte hits no page that was loaded before. */
  lemma LoadKeepsContents(files: map<nat, seq<Byte>>, loaded: seq<bool>, pagesize: nat, page: nat, p: nat)
    requires 0 < pagesize && WholePages(files, loaded, pagesize) && page < |loaded| && p < |loaded|
    ensures PageContents(FilesAfter(files, page, loaded[page], pagesize), p, loaded[page := true][p], pagesize)
         == PageContents(files, p, loaded[p], pagesize)
    ensures WholePages(FilesAfter(files, page, loaded[page], pagesize), loaded[page := true], pagesize)
  {
  }

  /** What an eviction keeps. */
  lemma EvictionKeeps(order: seq<nat>, mapped: set<nat>, loaded: seq<bool>, life: seq<int>, name: seq<int>,
                      count: nat, max: nat, page: nat, slot: nat)
    requires 0 < max < count && Resident(order, mapped, loaded, count - 1, max)
    requires Ages(life, name, order, slot, max, 1) && page < NUM_PAGES && page !in mapped
    ensures name[slot] == order[0]
    ensures forall q :: 0 <= q < max ==> life[q] > 0 && (q != slot ==> life[q] < life[slot])
    ensures |mapped - {name[slot]} + {page}| <= max
    ensures Resident(Load(order, page, max), mapped - {name[slot]} + {page}, loaded[page := true], count, max)
    ensures Ages(life[slot := 0], name[slot := page], Load(order, page, max), NextSlot(slot, max), max, 0)
  {
    OldestIsGreatest(life, name, order, slot, max, slot);
    forall q | 0 <= q < max ensures life[q] > 0 && (q != slot ==> life[q] < life[slot]) {
      OldestIsGreatest(life, name, order, slot, max, q);
    }
    ResidentAfterEviction(order, mapped, loaded, count - 1, max, page);
    AgesAfterEviction(life, name, order, slot, max, page);
  }

  /** What a load into a free slot keeps. */
  lemma FillingKeeps(order: seq<nat>, mapped: set<nat>, loaded: seq<bool>, life: seq<int>, name: seq<int>,
                     count: nat, max: nat, page: nat)
    requires 0 < count <= max && Resident(order, mapped, loaded, count - 1, max)
    requires Ages(life, name, order, 0, max, 1) && page < NUM_PAGES && page !in mapped
    ensures !loaded[page] && |order| < max
    ensures name[|order|] == NO_UNMAP && forall q :: 0 <= q < |order| ==> name[q] != NO_UNMAP
    ensures Resident(Load(order, page, max), mapped + {page}, loaded[page := true], count, max)
    ensures Ages(life[|order| := 0], name[|order| := page], Load(order, page, max), 0, max, 0)
  {
    forall q | 0 <= q < |order| ensures name[q] != NO_UNMAP {
      assert SlotIs(life[q], name[q], order, Place(q, 0, max), 1);
    }
    ResidentAfterFilling(order, mapped, loaded, count - 1, max, page);
    AgesAfterFilling(life, name, order, max, page);
  }

  /** How the slot of the oldest page moves. */
  lemma OldestMoves(count: nat, max: nat)
    requires 0 < max
    ensures count < max ==> OldestSlot(count + 1, max) == 0
    ensures max <= count ==> OldestSlot(count + 1, max) == NextSlot(OldestSlot(count, max), max)
  {
    if count + 1 == max {
      RoundRobinSmall(max, max);
    }
  }

  lemma InRegion(offset: nat, pagesiz: nat)
    requires 0 < pagesiz && offset < NUM_PAGES * pagesiz < 0x8000_0000
    ensures Int32(offset) == offset && 0 <= offset / pagesiz < NUM_PAGES && 0 <= offset % pagesiz < pagesiz
  {
    PageInRegion(offset, pagesiz);
  }

  lemma PageStart(page: nat, pagesiz: nat)
    requires 0 < pagesiz && page < NUM_PAGES
    ensures 0 <= page * pagesiz < NUM_PAGES * pagesiz && page * pagesiz / pagesiz == page
  {
    var d := NUM_PAGES - page;
    assert d * pagesiz > 0;
    assert page * pagesiz + d * pagesiz == NUM_PAGES * pagesiz;
    ModuloOf(page, 0, pagesiz);
    var q := page * pagesiz / pagesiz;
    assert q * pagesiz == page * pagesiz;
    SameFactor(q, page, pagesiz);
  }

  lemma SameFactor(a: int, b: int, m: nat)
    requires a * m == b * m && m > 0
    ensures a == b
  {
    assert (a - b) * m == 0;
  }

  /** The region of 20 pages, with pages of 4 KiB. */
  lemma Region(address: int)
    ensures STACKHEAP_MEM_START <= address < STACKHEAP_MEM_START + NUM_PAGES * 4096
            <==> 0xf9f8c000 <= address < 0xf9fa0000
    ensures NUM_PAGES == 20
  {
  }

  // ----- which addresses the handler serves -------------------------------------------------------

  /** The test on line 31, which line 30 gives a distance cut to 32 bits. */
  predicate PassesTest(address: int, pagesiz: nat) {
    0 <= Int32(address - STACKHEAP_MEM_START) <= NUM_PAGES * pagesiz
  }

  /** The address lies in the region, or at its end, moved by k times 4 GiB. */
  predicate InRegionMoved(address: int, k: int, pagesiz: nat) {
    0 <= address - k * 0x1_0000_0000 - STACKHEAP_MEM_START <= NUM_PAGES * pagesiz
  }

  /** The handler takes an address for one of the region exactly when it is one up to a multiple of 4 GiB.
      So of the addresses outside the region (and not at its end) it lets through those that a non-zero
      multiple moves into it, and ends the program on the others. */
  lemma LetThrough(address: int, pagesiz: nat)
    requires 0 < pagesiz && NUM_PAGES * pagesiz < 0x8000_0000
    ensures PassesTest(address, pagesiz) <==> exists k :: InRegionMoved(address, k, pagesiz)
    ensures InRegionMoved(address, 0, pagesiz) ==> PassesTest(address, pagesiz)
    ensures !InRegionMoved(address, 0, pagesiz) ==>
              (PassesTest(address, pagesiz) <==> exists k :: k != 0 && InRegionMoved(address, k, pagesiz))
  {
    var x := address - STACKHEAP_MEM_START;
    var k0 := (x + 0x8000_0000) / 0x1_0000_0000;
    assert Int32(x) == x - k0 * 0x1_0000_0000;
    assert PassesTest(address, pagesiz) <==> InRegionMoved(address, k0, pagesiz);
    forall k | InRegionMoved(address, k, pagesiz) ensures k == k0 {
    }
  }

  /** An address beyond the region that is taken for the first byte of page 0. */
  lemma FarAddressIsServed(pagesiz: nat)
    requires 0 < pagesiz && NUM_PAGES * pagesiz < 0x8000_0000
    ensures var address := STACKHEAP_MEM_START + 0x1_0000_0000;
            && address > STACKHEAP_MEM_START + NUM_PAGES * pagesiz
            && PassesTest(address, pagesiz) && Int32(address - STACKHEAP_MEM_START) / pagesiz == 0
  {
    assert Int32(0x1_0000_0000) == 0;
  }

  class Pager {
    const pagesiz: nat
    const max_pages: nat
    const lifearr: array<int>
    const namearr: array<int>
    const loadarr: array<bool>
    var totcount: nat
    /** The pages mapped now, and the page files.  A mapped page is its file. */
    var mapped: set<nat>
    var files: map<nat, seq<Byte>>
    var callbacks: seq<(int, nat, int)>
    ghost var order: seq<nat>
    /** The slot of the oldest page once all slots are taken, 0 before. */
    ghost var slot: nat
    ghost var peak: nat

    // ----- invariant --------------------------------------------------------------------------

    /** The invariant after `count` faults, with the ages counted up `faults` times since. */
    ghost predicate ValidAfter(count: nat, faults: nat)
      reads this, lifearr, namearr, loadarr
    {
      && 0 < pagesiz && NUM_PAGES * pagesiz < 0x8000_0000 && 0 < max_pages
      && lifearr.Length == namearr.Length == max_pages && loadarr.Length == NUM_PAGES
      && lifearr != namearr
      && Resident(order, mapped, loadarr[..], count, max_pages)
      && Ages(lifearr[..], namearr[..], order, slot, max_pages, faults)
      && (count < max_pages ==> slot == 0)
      && WholePages(files, loadarr[..], pagesiz)
      && peak <= max_pages
    }

    ghost predicate Valid()
      reads this, lifearr, namearr, loadarr
    {
      ValidAfter(totcount, 0) && slot == OldestSlot(totcount, max_pages)
    }

    /** What reading page p gives. */
    ghost function Page(p: nat): seq<Byte>
      requires 0 < pagesiz && p < loadarr.Length
      reads this`files, loadarr
    {
      PageContents(files, p, loadarr[p], pagesiz)
    }

    /** initialize_forth, lines 155 to 181. */
    constructor (max_pages_input: nat, pagesiz: nat, leftover: map<nat, seq<Byte>>)
      requires 0 < max_pages_input && 0 < pagesiz && NUM_PAGES * pagesiz < 0x8000_0000
      ensures Valid() && fresh(lifearr) && fresh(namearr) && fresh(loadarr)
      ensures max_pages == max_pages_input && this.pagesiz == pagesiz
      ensures totcount == 0 && mapped == {} && callbacks == []
      ensures forall p: nat :: p < NUM_PAGES ==> Page(p) == FirstContents(leftover, p, pagesiz)
    {
      this.pagesiz, files, max_pages := pagesiz, leftover, max_pages_input;
      lifearr := new int[max_pages_input];
      namearr := new int[max_pages_input];
      loadarr := new bool[NUM_PAGES];
      totcount, mapped, callbacks, order, slot, peak := 0, {}, [], [], 0, 0;
      new;
      for p := 0 to max_pages
        modifies lifearr, namearr
        invariant forall q :: 0 <= q < p ==> lifearr[q] == 0 && namearr[q] == -1
      {
        lifearr[p] := 0;
        namearr[p] := -1;
      }
      for z := 0 to NUM_PAGES
        modifies loadarr
        invariant forall q :: 0 <= q < z ==> !loadarr[q]
      {
        loadarr[z] := false;
      }
    }

    // ----- the system calls -------------------------------------------------------------------

    /** open with O_CREAT, then one zero byte written at the end of the page: lines 93 to 96. */
    method MakeFile(pagenum: nat)
      requires pagesiz > 0
      modifies this`files
      ensures files == old(files)[pagenum := WithZeroAt(Contents(old(files), pagenum), pagesiz)]
    {
      Open(pagenum);
      files := files[pagenum := WithZeroAt(files[pagenum], pagesiz)];
    }

    /** open with O_CREAT: a missing file is created empty. */
    method Open(pagenum: nat)
      modifies this`files
      ensures files == old(files)[pagenum := Contents(old(files), pagenum)]
    {
      files := files[pagenum := Contents(files, pagenum)];
    }

    method Mmap(pagenum: nat)
      modifies this`mapped, this`peak
      ensures mapped == old(mapped) + {pagenum}
      ensures peak == if |mapped| > old(peak) then |mapped| else old(peak)
    {
      mapped := mapped + {pagenum};
      peak := if |mapped| > peak then |mapped| else peak;
    }

    method Munmap(page: int)
      modifies this`mapped
      ensures mapped == old(mapped) - {page}
    {
      mapped := set p | p in mapped && p != page;
    }

    // ----- the loops of the handler -----------------------------------------------------------

    /** Lines 37 to 39. */
    method AgeAll()
      requires lifearr.Length == max_pages
      modifies lifearr
      ensures forall q :: 0 <= q < max_pages ==> lifearr[q] == old(lifearr[q]) + 1
    {
      for p := 0 to max_pages
        invariant forall q :: 0 <= q < p ==> lifearr[q] == old(lifearr[q]) + 1
        invariant forall q :: p <= q < max_pages ==> lifearr[q] == old(lifearr[q])
      {
        lifearr[p] := lifearr[p] + 1;
      }
    }

    /** Lines 43 to 48: the first slot of the greatest age. */
    method FindOldest() returns (locmax: nat)
      requires lifearr.Length == max_pages > 0
      requires forall q :: 0 <= q < max_pages ==> lifearr[q] > 0
      ensures locmax < max_pages
      ensures forall q :: 0 <= q < max_pages ==> lifearr[q] <= lifearr[locmax]
      ensures forall q :: 0 <= q < locmax ==> lifearr[q] < lifearr[locmax]
    {
      var maxcount := 0;
      locmax := 0;
      for z := 0 to max_pages
        invariant locmax < max_pages
        invariant z == 0 ==> maxcount == 0
        invariant z > 0 ==> locmax < z && maxcount == lifearr[locmax]
        invariant forall q :: 0 <= q < z ==> lifearr[q] <= maxcount
        invariant forall q :: 0 <= q < locmax ==> lifearr[q] < maxcount
      {
        if maxcount < lifearr[z] {
          maxcount := lifearr[z];
          locmax := z;
        }
      }
    }

    /** Lines 127 to 133: the page takes the first free slot. */
    method TakeSlot(pagenum: nat) returns (locmax: nat)
      requires namearr.Length == max_pages
      requires exists q :: 0 <= q < max_pages && namearr[q] == -1
      modifies namearr
      ensures locmax < max_pages && old(namearr[locmax]) == -1
      ensures forall q :: 0 <= q < locmax ==> old(namearr[q]) != -1
      ensures namearr[..] == old(namearr[..])[locmax := pagenum]
    {
      locmax := 0;
      for q := 0 to max_pages
        invariant namearr[..] == old(namearr[..])
        invariant forall j :: 0 <= j < q ==> namearr[j] != -1
      {
        if namearr[q] == -1 {
          namearr[q] := pagenum;
          locmax := q;
          break;
        }
      }
    }

    // ----- the handler ------------------------------------------------------------------------

    /** Lines 74 to 111: the page is mapped from its file, which is made if it was never loaded. */
    method MapFile(pagenum: nat)
      requires 0 < pagesiz && loadarr.Length == NUM_PAGES && pagenum < NUM_PAGES
      modifies this`mapped, this`peak, this`files, loadarr
      ensures files == FilesAfter(old(files), pagenum, old(loadarr[pagenum]), pagesiz)
      ensures loadarr[..] == old(loadarr[..])[pagenum := true] && mapped == old(mapped) + {pagenum}
      ensures peak == if |mapped| > old(peak) then |mapped| else old(peak)
    {
      if loadarr[pagenum] {
        Open(pagenum);
        Mmap(pagenum);
        loadarr[pagenum] := true;
      } else {
        MakeFile(pagenum);
        Mmap(pagenum);
        loadarr[pagenum] := true;
      }
    }

    /** Lines 43 to 115: the page takes the slot of the greatest age. */
    method Evict(fault_address: int, pagenum: nat, ghost oldest: nat)
      requires lifearr.Length == namearr.Length == max_pages && lifearr != namearr && oldest < max_pages
      requires 0 < pagesiz && loadarr.Length == NUM_PAGES && pagenum < NUM_PAGES
      requires forall q :: 0 <= q < max_pages ==>
                 lifearr[q] > 0 && (q != oldest ==> lifearr[q] < lifearr[oldest])
      modifies this`mapped, this`peak, this`files, this`callbacks, lifearr, namearr, loadarr
      ensures lifearr[..] == old(lifearr[..])[oldest := 0]
      ensures namearr[..] == old(namearr[..])[oldest := pagenum]
      ensures loadarr[..] == old(loadarr[..])[pagenum := true]
      ensures mapped == old(mapped) - {old(namearr[oldest])} + {pagenum}
      ensures peak == if |mapped| > old(peak) then |mapped| else old(peak)
      ensures files == FilesAfter(old(files), pagenum, old(loadarr[pagenum]), pagesiz)
      ensures callbacks == old(callbacks) + [(fault_address, pagenum, old(namearr[oldest]))]
    {
      var locmax := FindOldest();
      Munmap(namearr[locmax]);
      MapFile(pagenum);
      lifearr[locmax] := 0;
      callbacks := callbacks + [(fault_address, pagenum, namearr[locmax])];
      namearr[locmax] := pagenum;
    }

    /** Lines 122 to 149: the page takes the first free slot. */
    method Fill(fault_address: int, pagenum: nat, ghost free: nat)
      requires lifearr.Length == namearr.Length == max_pages && lifearr != namearr && free < max_pages
      requires 0 < pagesiz && loadarr.Length == NUM_PAGES && pagenum < NUM_PAGES
      requires namearr[free] == NO_UNMAP && forall q :: 0 <= q < free ==> namearr[q] != NO_UNMAP
      modifies this`mapped, this`peak, this`files, this`callbacks, lifearr, namearr, loadarr
      ensures lifearr[..] == old(lifearr[..])[free := 0]
      ensures namearr[..] == old(namearr[..])[free := pagenum]
      ensures loadarr[..] == old(loadarr[..])[pagenum := true]
      ensures mapped == old(mapped) + {pagenum}
      ensures peak == if |mapped| > old(peak) then |mapped| else old(peak)
      ensures files == FilesAfter(old(files), pagenum, false, pagesiz)
      ensures callbacks == old(callbacks) + [(fault_address, pagenum, NO_UNMAP)]
    {
      MakeFile(pagenum);
      var locmax := TakeSlot(pagenum);
      Mmap(pagenum);
      lifearr[locmax] := 0;
      loadarr[pagenum] := true;
      callbacks := callbacks + [(fault_address, pagenum, NO_UNMAP)];
    }

    /** The ages being one up, the oldest page makes way. */
    method Replace(fault_address: int, pagenum: nat, ghost count: nat)
      requires count > max_pages && ValidAfter(count - 1, 1) && pagenum < NUM_PAGES && pagenum !in mapped
      modifies this`mapped, this`peak, this`files, this`callbacks, this`order, this`slot, lifearr, namearr, loadarr
      ensures ValidAfter(count, 0) && order == Load(old(order), pagenum, max_pages)
      ensures callbacks == old(callbacks) + [(fault_address, pagenum, old(order)[0])]
      ensures files == FilesAfter(old(files), pagenum, old(loadarr[pagenum]), pagesiz)
      ensures loadarr[..] == old(loadarr[..])[pagenum := true]
      ensures old(slot) < max_pages && slot == NextSlot(old(slot), max_pages)
    {
      EvictionKeeps(order, mapped, loadarr[..], lifearr[..], namearr[..], count, max_pages, pagenum, slot);
      LoadKeepsContents(files, loadarr[..], pagesiz, pagenum, pagenum);
      Evict(fault_address, pagenum, slot);
      order := Load(order, pagenum, max_pages);
      slot := NextSlot(slot, max_pages);
    }

    /** The ages being one up, the page takes a free slot. */
    method Occupy(fault_address: int, pagenum: nat, ghost count: nat)
      requires 0 < count <= max_pages && ValidAfter(count - 1, 1) && pagenum < NUM_PAGES && pagenum !in mapped
      modifies this`mapped, this`peak, this`files, this`callbacks, this`order, lifearr, namearr, loadarr
      ensures ValidAfter(count, 0) && order == Load(old(order), pagenum, max_pages)
      ensures callbacks == old(callbacks) + [(fault_address, pagenum, NO_UNMAP)]
      ensures files == FilesAfter(old(files), pagenum, old(loadarr[pagenum]), pagesiz)
      ensures loadarr[..] == old(loadarr[..])[pagenum := true]
    {
      FillingKeeps(order, mapped, loadarr[..], lifearr[..], namearr[..], count, max_pages, pagenum);
      LoadKeepsContents(files, loadarr[..], pagesiz, pagenum, pagenum);
      Fill(fault_address, pagenum, |order|);
      order := Load(order, pagenum, max_pages);
    }

    /** The handler exits when the distance from the start of the region, as an int, is outside the region;
        LetThrough says for which addresses that is so. */
    method Handler(fault_address: int) returns (exited: bool)
      requires Valid()
      requires var distance := Int32(fault_address - STACKHEAP_MEM_START);
               distance != NUM_PAGES * pagesiz && (distance >= 0 ==> distance / pagesiz !in mapped)
      modifies this, lifearr, namearr, loadarr
      ensures var distance := Int32(fault_address - STACKHEAP_MEM_START);
              && (exited ==> files == old(files) && mapped == old(mapped))
              && (!exited ==> Loaded(old(order), old(callbacks), fault_address, distance / pagesiz)
                              && totcount == old(totcount) + 1)
      ensures !exited ==> forall p: nat :: p < NUM_PAGES ==> Page(p) == old(Page(p))
      ensures exited == !PassesTest(fault_address, pagesiz)
    {
      hide Resident, SlotIs, WholePages;
      ghost var young := lifearr[..];
      totcount := totcount + 1;
      var distance := Int32(fault_address - STACKHEAP_MEM_START);
      if distance < 0 || distance > NUM_PAGES * pagesiz {
        return true;
      }
      var pagenum := distance / pagesiz;
      PageInRegion(distance, pagesiz);
      AgeAll();
      AgesOlder(young, lifearr[..], namearr[..], order, slot, max_pages);
      OldestMoves(totcount - 1, max_pages);
      LoadPage(fault_address, pagenum, totcount);
      return false;
    }

    /** Lines 40 to 150, the ages being one up for fault number `count`. */
    method LoadPage(fault_address: int, pagenum: nat, ghost count: nat)
      requires totcount == count > 0 && ValidAfter(count - 1, 1) && pagenum < NUM_PAGES && pagenum !in mapped
      modifies this`mapped, this`peak, this`files, this`callbacks, this`order, this`slot, lifearr, namearr, loadarr
      ensures ValidAfter(count, 0) && order == Load(old(order), pagenum, max_pages)
      ensures callbacks == old(callbacks) + [(fault_address, pagenum,
                             if |old(order)| < max_pages then NO_UNMAP else old(order)[0])]
      ensures slot == if count > max_pages then NextSlot(old(slot), max_pages) else old(slot)
      ensures forall p: nat :: p < NUM_PAGES ==> Page(p) == old(Page(p))
    {
      if totcount > max_pages {
        Replace(fault_address, pagenum, count);
      } else {
        Occupy(fault_address, pagenum, count);
      }
      forall p: nat | p < NUM_PAGES ensures Page(p) == old(Page(p)) {
        LoadKeepsContents(old(files), old(loadarr[..]), pagesiz, pagenum, p);
        assert loadarr[p] == loadarr[..][p] && old(loadarr[p]) == old(loadarr[..])[p];
      }
    }

    /** The next page to go, the one loaded earliest, is in slot totcount modulo max_pages. */
    lemma VictimSlot()
      requires Valid() && totcount >= max_pages
      ensures 0 <= totcount % max_pages < max_pages && namearr[totcount % max_pages] == order[0]
    {
      RoundRobinIsModulo(totcount, max_pages);
      assert SlotIs(lifearr[..][slot], namearr[..][slot], order, Place(slot, slot, max_pages), 0);
    }

    /** namearr names exactly the mapped pages, each in one slot, and -1 in the other slots. */
    lemma NamesAreMapped(p: nat)
      requires Valid()
      ensures |mapped| <= max_pages
      ensures forall q :: 0 <= q < max_pages ==> namearr[q] == NO_UNMAP || namearr[q] in mapped
      ensures forall q, r :: 0 <= q < r < max_pages && namearr[q] != NO_UNMAP ==> namearr[q] != namearr[r]
      ensures p in mapped ==> exists q :: 0 <= q < max_pages && namearr[q] == p
    {
      ListsMeans(order, mapped);
      forall q | 0 <= q < max_pages ensures namearr[q] == NO_UNMAP || namearr[q] in mapped {
        assert SlotIs(lifearr[..][q], namearr[..][q], order, Place(q, slot, max_pages), 0);
      }
      forall q, r | 0 <= q < r < max_pages && namearr[q] != NO_UNMAP ensures namearr[q] != namearr[r] {
        assert SlotIs(lifearr[..][q], namearr[..][q], order, Place(q, slot, max_pages), 0);
        assert SlotIs(lifearr[..][r], namearr[..][r], order, Place(r, slot, max_pages), 0);
      }
      if p in mapped {
        var k :| 0 <= k < |order| && order[k] == p;
        var q := if slot + k < max_pages then slot + k else slot + k - max_pages;
        assert SlotIs(lifearr[..][q], namearr[..][q], order, Place(q, slot, max_pages), 0);
      }
    }

    /** The page was loaded first in, first out, and the callback told so. */
    ghost predicate Loaded(was: seq<nat>, calls: seq<(int, nat, int)>, fault_address: int, page: int)
      reads this, lifearr, namearr, loadarr
    {
      && Valid() && 0 <= page < NUM_PAGES && |was| <= max_pages
      && order == Load(was, page, max_pages)
      && callbacks == calls + [(fault_address, page, if |was| < max_pages then NO_UNMAP else was[0])]
    }

    // ----- what the machine sees --------------------------------------------------------------

    /** The instruction that faulted runs again: after the handler, if it was called, its page is there. */
    method Touch(page: nat, address: int)
      requires Valid() && page < NUM_PAGES
      requires Int32(address - STACKHEAP_MEM_START) == address - STACKHEAP_MEM_START >= 0
      requires address - STACKHEAP_MEM_START < NUM_PAGES * pagesiz
      requires (address - STACKHEAP_MEM_START) / pagesiz == page
      modifies this, lifearr, namearr, loadarr
      ensures Valid() && page in mapped && WellLoaded(page)
      ensures order == OrderAfter(old(order), page, max_pages)
      ensures callbacks == old(callbacks) + Report(old(order), page, address, max_pages)
      ensures forall p: nat :: p < NUM_PAGES ==> Page(p) == old(Page(p))
    {
      ListsMeans(order, mapped);
      if page !in mapped {
        var exited := Handler(address);
        ListsMeans(order, mapped);
      }
    }

    method TouchPage(page: nat)
      requires Valid() && page < NUM_PAGES
      modifies this, lifearr, namearr, loadarr
      ensures Valid() && page in mapped
      ensures order == OrderAfter(old(order), page, max_pages)
      ensures callbacks == old(callbacks)
                + Report(old(order), page, STACKHEAP_MEM_START + page * pagesiz, max_pages)
      ensures forall p: nat :: p < NUM_PAGES ==> Page(p) == old(Page(p))
    {
      hide Report, OrderAfter;
      PageStart(page, pagesiz);
      InRegion(page * pagesiz, pagesiz);
      Touch(page, STACKHEAP_MEM_START + page * pagesiz);
    }

    /** The page is loaded and its file is whole. */
    ghost predicate WellLoaded(page: nat)
      requires 0 < pagesiz && page < loadarr.Length
      reads this`files, loadarr
    {
      loadarr[page] && page in files && |files[page]| >= pagesiz
    }

    method Read(address: int) returns (value: Byte)
      requires Valid() && STACKHEAP_MEM_START <= address < STACKHEAP_MEM_START + NUM_PAGES * pagesiz
      modifies this, lifearr, namearr, loadarr
      ensures var offset := address - STACKHEAP_MEM_START;
              && Valid() && offset / pagesiz in mapped && 0 <= offset / pagesiz < NUM_PAGES
              && value == old(Page(offset / pagesiz))[offset % pagesiz]
              && order == OrderAfter(old(order), offset / pagesiz, max_pages)
              && callbacks == old(callbacks) + Report(old(order), offset / pagesiz, address, max_pages)
      ensures forall p: nat :: p < NUM_PAGES ==> Page(p) == old(Page(p))
    {
      hide Report, OrderAfter, Resident, SlotIs, WholePages, OldestSlot;
      var offset := address - STACKHEAP_MEM_START;
      InRegion(offset, pagesiz);
      Touch(offset / pagesiz, address);
      value := files[offset / pagesiz][offset % pagesiz];
    }

    method Write(address: int, value: Byte)
      requires Valid() && STACKHEAP_MEM_START <= address < STACKHEAP_MEM_START + NUM_PAGES * pagesiz
      modifies this, lifearr, namearr, loadarr
      ensures var offset := address - STACKHEAP_MEM_START;
              && Valid() && 0 <= offset / pagesiz < NUM_PAGES
              && order == OrderAfter(old(order), offset / pagesiz, max_pages)
              && callbacks == old(callbacks) + Report(old(order), offset / pagesiz, address, max_pages)
              && Page(offset / pagesiz) == old(Page(offset / pagesiz))[offset % pagesiz := value]
              && forall p: nat :: p < NUM_PAGES && p != offset / pagesiz ==> Page(p) == old(Page(p))
    {
      hide Report, OrderAfter, Resident, SlotIs, WholePages, OldestSlot, PageContents;
      var offset := address - STACKHEAP_MEM_START;
      InRegion(offset, pagesiz);
      Touch(offset / pagesiz, address);
      StoreByte(offset / pagesiz, offset % pagesiz, value);
    }

    /** The store of a byte to a page that is there. */
    method StoreByte(page: nat, o: nat, value: Byte)
      requires Valid() && page < NUM_PAGES && page in mapped && WellLoaded(page) && o < pagesiz
      modifies this`files
      ensures Valid() && Page(page) == old(Page(page))[o := value]
      ensures forall p: nat :: p < NUM_PAGES && p != page ==> Page(p) == old(Page(p))
    {
      var changed: seq<Byte> := files[page][o := value];
      forall p: nat | p < NUM_PAGES
        ensures PageContents(files[page := changed], p, loadarr[p], pagesiz)
             == if p == page then Page(page)[o := value] else Page(p)
      {
        WriteChangesByte(files, loadarr[..], pagesiz, page, o, changed, value, p);
      }
      WriteChangesByte(files, loadarr[..], pagesiz, page, o, changed, value, page);
      files := files[page := changed];
    }

    /** The first page of `need` that is not there. */
    method FirstMissing(need: seq<nat>) returns (i: nat)
      ensures i <= |need| && (i < |need| ==> need[i] !in mapped)
      ensures forall j :: 0 <= j < i ==> need[j] in mapped
    {
      i := 0;
      while i < |need| && need[i] in mapped
        invariant i <= |need| && forall j :: 0 <= j < i ==> need[j] in mapped
      {
        i := i + 1;
      }
    }

    /** One fault of an instruction that needs the pages `need`. */
    method TouchMissing(need: seq<nat>, page: nat, ghost order0: seq<nat>, ghost calls: seq<(int, nat, int)>)
      returns (ghost more: seq<(int, nat, int)>)
      requires Valid() && page < NUM_PAGES && page in need && page !in mapped && |Touched(need)| <= max_pages
      requires FaultsMade(need, order0, order, max_pages, calls)
      modifies this, lifearr, namearr, loadarr
      ensures Valid() && callbacks == old(callbacks) + more && |more| == 1 && |calls| < |Touched(need)|
      ensures FaultsMade(need, order0, order, max_pages, calls + more)
      ensures forall p: nat :: p < NUM_PAGES ==> Page(p) == old(Page(p))
    {
      hide FaultsMade, OrderAfter;
      more := Report(order, page, STACKHEAP_MEM_START + page * pagesiz, max_pages);
      ListsMeans(order, mapped);
      OneMoreReport(need, order0, order, max_pages, mapped, calls, page, STACKHEAP_MEM_START + page * pagesiz);
      TouchPage(page);
    }

    /** The instruction is tried again after each fault, until it completes; it has faulted with `calls`. */
    method Retry(need: seq<nat>, ghost order0: seq<nat>, ghost calls: seq<(int, nat, int)>)
      returns (faults: nat, ghost more: seq<(int, nat, int)>)
      requires Valid() && (forall p :: p in need ==> p < NUM_PAGES) && |Touched(need)| <= max_pages
      requires FaultsMade(need, order0, order, max_pages, calls)
      modifies this, lifearr, namearr, loadarr
      ensures Valid() && (forall p :: p in need ==> p in mapped)
      ensures callbacks == old(callbacks) + more && |more| == faults
      ensures FaultsMade(need, order0, order, max_pages, calls + more)
      ensures forall p: nat :: p < NUM_PAGES ==> Page(p) == old(Page(p))
      decreases |Touched(need)| - |calls|
    {
      hide FaultsMade, PageContents, Resident, SlotIs, WholePages, OldestSlot;
      var i := FirstMissing(need);
      if i == |need| {
        faults, more := 0, [];
        assert calls + [] == calls;
      } else {
        assert need[i] in need;
        ghost var first := TouchMissing(need, need[i], order0, calls);
        ghost var rest;
        faults, rest := Retry(need, order0, calls + first);
        faults, more := faults + 1, first + rest;
        assert calls + first + rest == calls + (first + rest);
      }
    }

    /** An instruction that needs the pages `need`, which all fit, completes after at most one fault for each
        page, of pages it needs and none twice; nothing else is loaded. */
    method Execute(need: seq<nat>) returns (faults: nat)
      requires Valid() && (forall p :: p in need ==> p < NUM_PAGES) && |Touched(need)| <= max_pages
      modifies this, lifearr, namearr, loadarr
      ensures Valid() && (forall p :: p in need ==> p in mapped) && faults <= |Touched(need)|
      ensures |callbacks| == |old(callbacks)| + faults && old(callbacks) <= callbacks
      ensures var pages := ReportedPages(callbacks[|old(callbacks)|..]);
              && NoDuplicates(pages) && (forall p :: p in pages ==> p in need)
              && EachMissing(old(order), max_pages, pages) && order == LoadAll(old(order), max_pages, pages)
      ensures forall p: nat :: p < NUM_PAGES ==> Page(p) == old(Page(p))
    {
      NoneMade(need, order, max_pages);
      hide FaultsMade, PageContents, Resident, SlotIs, WholePages, OldestSlot, LoadAll, EachMissing, ReportedPages;
      ghost var calls;
      faults, calls := Retry(need, order, []);
      assert [] + calls == calls;
      assert callbacks[|old(callbacks)|..] == calls;
      MadeMeans(need, old(order), order, max_pages, calls);
    }

    /** An instruction that needs more pages than fit never has them all at once. */
    lemma TooManyNeverFit(need: seq<nat>)
      requires Valid() && forall p :: p in need ==> p in mapped
      ensures |Touched(need)| <= max_pages
    {
      Subset(Touched(need), mapped);
    }
  }
}
