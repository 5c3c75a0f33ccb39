/** The dictionary of VirtualMemoryAllocator/forth/myjf.S: headers linked in memory by CREATE, hidden and
    unhidden by : and ;, and searched by FIND, refining "the latest definition wins". */
module ForthDictionary {
  import opened Bytes

  /** The next 8-byte boundary, as CREATE and >CFA compute it. */
  function Aligned(address: nat): (r: nat)
    ensures address <= r < address + 8 && r % 8 == 0
  {
    (address + 7) / 8 * 8
  }

  function ByteAt(m: seq<Byte>, address: nat): nat
    requires address < |m|
  {
    m[address]
  }

  /** The cell at an address, its lowest byte first. */
  function Cell(m: seq<Byte>, address: nat): nat
    requires address + 8 <= |m|
  {
    ByteAt(m, address) + 0x100 * ByteAt(m, address + 1)
    + 0x1_0000 * ByteAt(m, address + 2) + 0x100_0000 * ByteAt(m, address + 3)
    + 0x1_0000_0000 * ByteAt(m, address + 4) + 0x100_0000_0000 * ByteAt(m, address + 5)
    + 0x1_0000_0000_0000 * ByteAt(m, address + 6) + 0x100_0000_0000_0000 * ByteAt(m, address + 7)
  }

  // ----- entries ------------------------------------------------------------------------------------

  /** A dictionary entry: where its header is, the link in it, the name, and the byte of flags and length. */
  datatype Entry = Entry(address: nat, link: nat, name: seq<Byte>, flags: Byte) {
    /** Where CREATE leaves HERE: the cell behind the header. */
    function End(): nat {
      Aligned(address + 9 + |name|)
    }

    /** FIND's test on the flags byte: the hidden bit, 0x20, makes the length look wrong. */
    predicate Visible() {
      flags % 64 == |name|
    }

    /** HIDDEN: xor with 0x20. */
    function Toggled(): Entry {
      this.(flags := Xor32(flags))
    }
  }

  function Xor32(flags: Byte): Byte {
    if flags / 32 % 2 == 1 then flags - 32 else flags + 32
  }

  /** Names that WORD delivers. */
  predicate Name(name: seq<Byte>) {
    1 <= |name| <= 32
  }

  ghost predicate NameAt(m: seq<Byte>, address: nat, name: seq<Byte>) {
    address + |name| <= |m| && forall i :: 0 <= i < |name| ==> m[address + i] == name[i]
  }

  /** The header of entry e is in memory. */
  ghost predicate HeaderAt(m: seq<Byte>, e: Entry) {
    && 0 < e.address && e.address % 8 == 0 && Name(e.name) && e.flags % 32 == |e.name| % 32
    && e.address + 9 + |e.name| <= |m|
    && Cell(m, e.address) == e.link
    && m[e.address + 8] == e.flags
    && NameAt(m, e.address + 9, e.name)
  }

  /** From `latest` the links lead through the headers of the first k entries, latest first, all below
      `here`. */
  ghost predicate Chain(m: seq<Byte>, entries: seq<Entry>, k: nat, latest: nat, here: nat)
    requires k <= |entries|
  {
    if k == 0 then latest == 0
    else
      var e := entries[k - 1];
      e.address == latest && e.End() <= here && HeaderAt(m, e) && Chain(m, entries, k - 1, e.link, latest)
  }

  /** A header stays when its bytes do. */
  lemma HeaderKept(m: seq<Byte>, m': seq<Byte>, e: Entry)
    requires HeaderAt(m, e) && |m'| == |m|
    requires forall i :: e.address <= i < e.address + 9 + |e.name| ==> m'[i] == m[i]
    ensures HeaderAt(m', e)
  {
  }

  /** Memory from `here` on, and entries from k on, may change. */
  lemma {:induction false} ChainKept(m: seq<Byte>, m': seq<Byte>, entries: seq<Entry>, entries': seq<Entry>,
                                     k: nat, latest: nat, here: nat)
    requires k <= |entries| && k <= |entries'| && forall i :: 0 <= i < k ==> entries'[i] == entries[i]
    requires Chain(m, entries, k, latest, here) && here <= |m| == |m'|
    requires forall i :: 0 <= i < here ==> m'[i] == m[i]
    ensures Chain(m', entries', k, latest, here)
  {
    if k > 0 {
      HeaderKept(m, m', entries[k - 1]);
      ChainKept(m, m', entries, entries', k - 1, entries[k - 1].link, latest);
    }
  }

  lemma {:induction false} EntriesBelow(m: seq<Byte>, entries: seq<Entry>, k: nat, latest: nat, here: nat, i: nat)
    requires i < k <= |entries| && Chain(m, entries, k, latest, here)
    ensures entries[i].End() <= here && HeaderAt(m, entries[i])
    ensures i < k - 1 ==> entries[i].End() <= latest
  {
    if i < k - 1 {
      EntriesBelow(m, entries, k - 1, entries[k - 1].link, latest, i);
    }
  }

  lemma {:induction false} EntryAddress(m: seq<Byte>, entries: seq<Entry>, k: nat, latest: nat, here: nat, i: nat)
    requires i < k <= |entries| && Chain(m, entries, k, latest, here)
    ensures entries[i].address > 0
  {
    EntriesBelow(m, entries, k, latest, here, i);
  }

  // ----- what FIND means ------------------------------------------------------------------------------

  /** The most recent of the first k entries that has the name and is not hidden, -1 if there is none. */
  function Lookup(entries: seq<Entry>, k: nat, name: seq<Byte>): (r: int)
    requires k <= |entries|
    ensures -1 <= r < k
    ensures r >= 0 ==> entries[r].name == name && entries[r].Visible()
    ensures forall j :: r < j < k ==> !(entries[j].name == name && entries[j].Visible())
  {
    if k == 0 then -1
    else if entries[k - 1].name == name && entries[k - 1].Visible() then k - 1
    else Lookup(entries, k - 1, name)
  }

  lemma {:induction false} LookupPrefix(entries: seq<Entry>, entries': seq<Entry>, k: nat, name: seq<Byte>)
    requires k <= |entries| && k <= |entries'| && forall i :: 0 <= i < k ==> entries'[i] == entries[i]
    ensures Lookup(entries', k, name) == Lookup(entries, k, name)
  {
    if k > 0 {
      LookupPrefix(entries, entries', k - 1, name);
    }
  }

  /** A new definition hides the older ones of its name once it is visible, and not before. */
  lemma {:induction false} LatestWins(entries: seq<Entry>, e: Entry, name: seq<Byte>)
    ensures Lookup(entries + [e], |entries| + 1, name) ==
              if e.name == name && e.Visible() then |entries| else Lookup(entries, |entries|, name)
  {
    LookupPrefix(entries, entries + [e], |entries|, name);
  }

  /** FIND's test on the flags byte lets through only names of the right length. */
  lemma LengthIsRight(e: Entry, name: seq<Byte>)
    requires Name(e.name) && e.flags % 32 == |e.name| % 32 && Name(name) && e.flags % 64 == |name|
    ensures |e.name| == |name| && e.Visible()
  {
  }

  /** WORD has room for 32 characters. */
  lemma LongNames(name: seq<Byte>)
    ensures Name(name) <==> name != [] && |name| < 33
  {
  }

  /** >CFA finds the cell behind the header exactly for names of fewer than 32 characters. */
  lemma CodewordBehindHeader(e: Entry)
    requires Name(e.name) && e.flags % 32 == |e.name| % 32
    ensures Aligned(e.address + 9 + e.flags % 32) == e.End() <==> |e.name| < 32
  {
  }

  // ----- HIDDEN -------------------------------------------------------------------------------------

  lemma HeaderToggled(m: seq<Byte>, m': seq<Byte>, e: Entry)
    requires HeaderAt(m, e) && |m'| == |m| && m'[e.address + 8] == Xor32(e.flags)
    requires forall j :: 0 <= j < |m| && j != e.address + 8 ==> m'[j] == m[j]
    ensures HeaderAt(m', e.Toggled())
  {
    TogglesBack(e.flags);
  }

  /** Toggling the hidden bit of one entry changes that entry only. */
  lemma {:induction false} ChainToggled(m: seq<Byte>, m': seq<Byte>, entries: seq<Entry>, k: nat, latest: nat,
                                        here: nat, i: nat)
    requires i < k <= |entries| && Chain(m, entries, k, latest, here) && here <= |m| == |m'|
    requires entries[i].address + 9 <= |m| && m'[entries[i].address + 8] == Xor32(entries[i].flags)
    requires forall j :: 0 <= j < |m| && j != entries[i].address + 8 ==> m'[j] == m[j]
    ensures Chain(m', entries[i := entries[i].Toggled()], k, latest, here)
  {
    hide Cell, NameAt;
    var e := entries[k - 1];
    if i == k - 1 {
      HeaderToggled(m, m', e);
      ChainKept(m, m', entries, entries[i := entries[i].Toggled()], k - 1, e.link, latest);
    } else {
      EntriesBelow(m, entries, k, latest, here, i);
      HeaderKept(m, m', e);
      ChainToggled(m, m', entries, k - 1, e.link, latest, i);
    }
  }

  // ----- the words ------------------------------------------------------------------------------------

  const CELL_LIMIT := 0x1_0000_0000_0000_0000

  class Dictionary {
    const mem: array<Byte>
    var here: nat
    var latest: nat
    var compiling: bool
    ghost var entries: seq<Entry>

    ghost predicate Valid()
      reads this, mem
    {
      && latest < here <= mem.Length < CELL_LIMIT && here % 8 == 0 && mem.Length % 8 == 0
      && Chain(mem[..], entries, |entries|, latest, here)
    }

    /** An empty dictionary whose first header goes to `start`. */
    constructor (size: nat, start: nat)
      requires 0 < start <= size < CELL_LIMIT && start % 8 == 0 && size % 8 == 0
      ensures Valid() && fresh(mem) && entries == [] && here == start
    {
      mem := new Byte[size];
      here, latest, compiling, entries := start, 0, false, [];
    }

    /** Below `limit` memory is as it was. */
    twostate predicate Unchanged(limit: nat)
      reads mem
    {
      forall j :: 0 <= j < mem.Length && j < limit ==> mem[j] == old(mem[j])
    }

    /** stosq. */
    method StoreCell(address: nat, x: nat)
      requires address + 8 <= mem.Length && x < CELL_LIMIT
      modifies mem
      ensures forall j :: 0 <= j < mem.Length && !(address <= j < address + 8) ==> mem[j] == old(mem[j])
      ensures Cell(mem[..], address) == x
    {
      var x1 := x / 256;
      var x2 := x1 / 256;
      var x3 := x2 / 256;
      var x4 := x3 / 256;
      var x5 := x4 / 256;
      var x6 := x5 / 256;
      mem[address] := x % 256;
      mem[address + 1] := x1 % 256;
      mem[address + 2] := x2 % 256;
      mem[address + 3] := x3 % 256;
      mem[address + 4] := x4 % 256;
      mem[address + 5] := x5 % 256;
      mem[address + 6] := x6 % 256;
      mem[address + 7] := x6 / 256;
    }

    /** rep movsb. */
    method CopyName(address: nat, name: seq<Byte>)
      requires address + |name| <= mem.Length
      modifies mem
      ensures forall j :: 0 <= j < mem.Length && !(address <= j < address + |name|) ==> mem[j] == old(mem[j])
      ensures NameAt(mem[..], address, name)
    {
      for i := 0 to |name|
        invariant forall j :: 0 <= j < mem.Length && !(address <= j < address + i) ==> mem[j] == old(mem[j])
        invariant forall j :: 0 <= j < i ==> mem[address + j] == name[j]
      {
        mem[address + i] := name[i];
      }
    }

    method Create(name: seq<Byte>)
      requires Valid() && Name(name) && here + 48 <= mem.Length
      modifies this`here, this`latest, this`entries, mem
      ensures Valid() && latest == old(here)
      ensures entries == old(entries) + [Entry(old(here), old(latest), name, |name|)]
      ensures here == entries[|old(entries)|].End()
      ensures Unchanged(old(here))
    {
      ghost var m := mem[..];
      StoreCell(here, latest);
      mem[here + 8] := |name|;
      CopyName(here + 9, name);
      var end := Aligned(here + 9 + |name|);
      CreatedChain(m, mem[..], entries, latest, here, Entry(here, latest, name, |name|));
      entries := entries + [Entry(here, latest, name, |name|)];
      latest := here;
      here := end;
    }

    /** The links after CREATE. */
    lemma {:induction false} CreatedChain(m: seq<Byte>, m': seq<Byte>, entries: seq<Entry>, latest: nat, here: nat,
                                          e: Entry)
      requires Chain(m, entries, |entries|, latest, here) && here <= |m| == |m'|
      requires forall i :: 0 <= i < here ==> m'[i] == m[i]
      requires HeaderAt(m', e) && e.address == here && e.link == latest
      ensures Chain(m', entries + [e], |entries| + 1, here, e.End())
    {
      ChainKept(m, m', entries, entries + [e], |entries|, latest, here);
    }

    lemma {:induction false} ChainGrows(m: seq<Byte>, m': seq<Byte>, entries: seq<Entry>, latest: nat, here: nat,
                                        more: nat)
      requires Chain(m, entries, |entries|, latest, here) && here <= |m| == |m'| && here <= more
      requires forall i :: 0 <= i < here ==> m'[i] == m[i]
      ensures Chain(m', entries, |entries|, latest, more)
    {
      ChainKept(m, m', entries, entries, |entries|, latest, here);
    }

    /** , appends a cell. */
    method Comma(x: nat)
      requires Valid() && here + 8 <= mem.Length && x < CELL_LIMIT
      modifies this`here, mem
      ensures Valid() && here == old(here) + 8
      ensures Cell(mem[..], old(here)) == x
      ensures Unchanged(old(here))
    {
      hide Cell, HeaderAt, Lookup;
      ghost var m := mem[..];
      var next := here + 8;
      assert next % 8 == 0 && next <= mem.Length;
      StoreCell(here, x);
      ChainGrows(m, mem[..], entries, latest, here, next);
      here := next;
    }

    /** HIDDEN toggles the hidden bit of entry i. */
    method Hidden(address: nat, ghost i: nat)
      requires Valid() && i < |entries| && address == entries[i].address
      modifies this`entries, mem
      ensures Valid() && entries == old(entries)[i := old(entries)[i].Toggled()]
      ensures forall j :: 0 <= j < mem.Length && j != address + 8 ==> mem[j] == old(mem[j])
    {
      EntriesBelow(mem[..], entries, |entries|, latest, here, i);
      ghost var m := mem[..];
      mem[address + 8] := Xor32(mem[address + 8]);
      ChainToggled(m, mem[..], entries, |entries|, latest, here, i);
      entries := entries[i := entries[i].Toggled()];
    }

    /** FIND. */
    method Find(name: seq<Byte>) returns (address: nat)
      requires Valid() && Name(name)
      ensures var r := Lookup(entries, |entries|, name);
              address == if r < 0 then 0 else entries[r].address
    {
      address := latest;
      ghost var k: nat, bound := |entries|, here;
      while address != 0
        invariant 0 <= k <= |entries| && Chain(mem[..], entries, k, address, bound)
        invariant Lookup(entries, k, name) == Lookup(entries, |entries|, name)
        decreases k
      {
        ghost var e := entries[k - 1];
        var same := SameName(address, name, e);
        if same {
          return;
        }
        bound := address;
        address := FetchCell(address);
        k := k - 1;
      }
    }

    /** Lines 877 to 890. */
    method SameName(address: nat, name: seq<Byte>, ghost e: Entry) returns (same: bool)
      requires HeaderAt(mem[..], e) && e.address == address && Name(name)
      ensures same <==> e.name == name && e.Visible()
    {
      if mem[address + 8] % 64 != |name| {
        return false;
      }
      LengthIsRight(e, name);
      same := SameBytes(address + 9, name);
    }

    method FetchCell(address: nat) returns (x: nat)
      requires address + 8 <= mem.Length
      ensures x == Cell(mem[..], address)
    {
      x := Cell(mem[..], address);
    }

    /** repe cmpsb. */
    method SameBytes(address: nat, name: seq<Byte>) returns (same: bool)
      requires address + |name| <= mem.Length
      ensures same <==> NameAt(mem[..], address, name)
    {
      var i := 0;
      while i < |name| && mem[address + i] == name[i]
        invariant i <= |name| && forall j :: 0 <= j < i ==> mem[address + j] == name[j]
      {
        i := i + 1;
      }
      same := i == |name|;
      assert i < |name| ==> mem[..][address + i] != name[i];
    }

    /** >CFA of entry i: the cell behind its header, if the name has fewer than 32 characters and only then. */
    method Tcfa(address: nat, ghost i: nat) returns (cfa: nat)
      requires Valid() && i < |entries| && address == entries[i].address
      ensures cfa == entries[i].End() <==> |entries[i].name| < 32
    {
      EntriesBelow(mem[..], entries, |entries|, latest, here, i);
      CodewordBehindHeader(entries[i]);
      cfa := address + 8;
      var length := mem[cfa] % 32;
      cfa := Aligned(cfa + 1 + length);
    }

    /** : after WORD delivered the name.  The new entry is hidden. */
    method Colon(name: seq<Byte>, docol: nat)
      requires Valid() && Name(name) && here + 56 <= mem.Length && docol < CELL_LIMIT
      modifies this, mem
      ensures Valid() && compiling
      ensures entries == old(entries) + [Entry(old(here), old(latest), name, |name|).Toggled()]
      ensures here == entries[|old(entries)|].End() + 8 && Cell(mem[..], here - 8) == docol
      ensures Unchanged(old(here))
    {
      ghost var before, e := entries, Entry(here, latest, name, |name|);
      Create(name);
      ghost var codeword := here;
      assert codeword == e.End() == e.Toggled().End();
      Comma(docol);
      ghost var m := mem[..];
      Hidden(latest, |before|);
      assert entries == before + [e.Toggled()];
      CellKept(m, mem[..], codeword);
      compiling := true;
    }

    /** ; shows the latest entry. */
    method Semicolon(exit: nat)
      requires Valid() && entries != [] && here + 8 <= mem.Length && exit < CELL_LIMIT
      modifies this, mem
      ensures Valid() && !compiling && here == old(here) + 8
      ensures entries == old(entries)[|old(entries)| - 1 := old(entries)[|old(entries)| - 1].Toggled()]
      ensures Cell(mem[..], old(here)) == exit
      ensures forall j :: 0 <= j < old(here) && j != old(latest) + 8 ==> mem[j] == old(mem[j])
    {
      Comma(exit);
      ghost var m := mem[..];
      EntriesBelow(mem[..], entries, |entries|, latest, here, |entries| - 1);
      Hidden(latest, |entries| - 1);
      CellKept(m, mem[..], here - 8);
      compiling := false;
    }

    /** The cells that the interpreter lays down while compiling. */
    method CompileBody(body: seq<nat>)
      requires Valid() && here + 8 * |body| <= mem.Length && forall x :: x in body ==> x < CELL_LIMIT
      modifies this`here, mem
      ensures Valid() && here == old(here) + 8 * |body|
      ensures Cells(mem[..], old(here), body) && Unchanged(old(here))
    {
      ghost var start := here;
      for i := 0 to |body|
        invariant Valid() && here == start + 8 * i && entries == old(entries)
        invariant Cells(mem[..], start, body[..i]) && Unchanged(start)
      {
        ghost var m := mem[..];
        assert body[i] in body;
        Comma(body[i]);
        MoreCells(m, mem[..], start, body, i);
      }
      assert body[..|body|] == body;
    }

    /** : name body, before the ; that ends it. */
    method Begin(name: seq<Byte>, docol: nat, body: seq<nat>)
      requires Valid() && Name(name) && here + 56 + 8 * |body| <= mem.Length
      requires docol < CELL_LIMIT && forall x :: x in body ==> x < CELL_LIMIT
      modifies this, mem
      ensures Valid() && latest == old(here)
      ensures entries == old(entries) + [Entry(old(here), old(latest), name, |name|).Toggled()]
      ensures here == entries[|old(entries)|].End() + 8 + 8 * |body|
      ensures Cells(mem[..], entries[|old(entries)|].End(), [docol] + body)
      ensures Unchanged(old(here))
    {
      Colon(name, docol);
      ghost var first, start := mem[..], here - 8;
      CompileBody(body);
      ghost var second := mem[..];
      assert forall i :: 0 <= i < start + 8 ==> second[i] == first[i];
      CodewordAndBody(first, second, start, docol, body);
    }

    /** A whole definition, : name body ; with one cell for each item of the body. */
    method Define(name: seq<Byte>, docol: nat, body: seq<nat>, exit: nat)
      requires Valid() && Name(name) && here + 64 + 8 * |body| <= mem.Length
      requires docol < CELL_LIMIT && exit < CELL_LIMIT && forall x :: x in body ==> x < CELL_LIMIT
      modifies this, mem
      ensures Valid() && !compiling
      ensures entries == old(entries) + [Entry(old(here), old(latest), name, |name|)]
      ensures Cells(mem[..], entries[|old(entries)|].End(), [docol] + body + [exit])
      ensures here == entries[|old(entries)|].End() + 16 + 8 * |body|
      ensures Unchanged(old(here))
    {
      ghost var before, e := entries, Entry(here, latest, name, |name|);
      Begin(name, docol, body);
      ghost var second, start := mem[..], e.End();
      Semicolon(exit);
      ghost var last := mem[..];
      assert forall i :: start <= i < start + 8 + 8 * |body| ==> last[i] == second[i];
      ExitBehind(second, last, start, [docol] + body, exit);
      ShownAgain(before, e);
    }

    /** Any list of definitions, one after the other. */
    method DefineAll(defs: seq<Definition>, docol: nat, exit: nat)
      requires Valid() && AllFit(defs) && here + Space(defs) <= mem.Length
      requires docol < CELL_LIMIT && exit < CELL_LIMIT
      modifies this, mem
      ensures Valid() && |entries| == |old(entries)| + |defs| && entries[..|old(entries)|] == old(entries)
      ensures AllCompiled(mem[..], entries[|old(entries)|..], defs, docol, exit, here)
      ensures Unchanged(old(here))
    {
      hide Cells, Cell, Chain, Lookup;
      ghost var n := |entries|;
      assert entries[n..] == [] && entries[..n] == entries;
      for i := 0 to |defs|
        invariant Valid() && |entries| == n + i && entries[..n] == old(entries)
        invariant old(here) <= here && here + Space(defs[i..]) <= mem.Length
        invariant AllCompiled(mem[..], entries[n..], defs[..i], docol, exit, here)
        invariant Unchanged(old(here))
      {
        ghost var m, before, limit := mem[..], entries, here;
        assert defs[i..][0] == defs[i] && defs[i..][1..] == defs[i + 1..];
        Define(defs[i].name, docol, defs[i].body, exit);
        CompiledKept(m, mem[..], before[n..], defs[..i], docol, exit, limit, here);
        MoreCompiled(mem[..], before[n..], entries[|before|], defs, i, docol, exit, here);
        assert entries[n..] == before[n..] + [entries[|before|]];
      }
      assert defs[..|defs|] == defs;
    }

    /** After any list of definitions a name of fewer than 32 characters means what its last definition
        says: FIND and >CFA lead to DOCOL, that body and EXIT.  A name that is not in the list means what it
        did before. */
    method DefineAndLookUp(defs: seq<Definition>, docol: nat, exit: nat, name: seq<Byte>)
      returns (address: nat, cfa: nat)
      requires Valid() && AllFit(defs) && here + Space(defs) <= mem.Length
      requires docol < CELL_LIMIT && exit < CELL_LIMIT && Name(name)
      modifies this, mem
      ensures Valid() && Unchanged(old(here))
      ensures var last := LastOf(defs, |defs|, name);
              && (last >= 0 && |name| < 32 ==> Cells(mem[..], cfa, [docol] + defs[last].body + [exit]))
              && (last < 0 ==>
                    var r := Lookup(old(entries), |old(entries)|, name);
                    address == if r < 0 then 0 else old(entries)[r].address)
    {
      hide Cells, Cell, Chain, AllCompiled, Lookup, LastOf;
      DefineAll(defs, docol, exit);
      ghost var added := entries[|old(entries)|..];
      assert entries == old(entries) + added;
      LastDefinitionWins(old(entries), added, mem[..], defs, docol, exit, here, name);
      address := Find(name);
      ghost var r := Lookup(entries, |entries|, name);
      if r >= 0 {
        EntryAddress(mem[..], entries, |entries|, latest, here, r);
      }
      cfa := 0;
      if address != 0 {
        cfa := Tcfa(address, r);
      }
    }
  }

  // ----- many definitions ---------------------------------------------------------------------------

  datatype Definition = Definition(name: seq<Byte>, body: seq<nat>)

  ghost predicate AllFit(defs: seq<Definition>) {
    forall d :: d in defs ==> Name(d.name) && forall x :: x in d.body ==> x < CELL_LIMIT
  }

  /** Room enough for the definitions. */
  function Space(defs: seq<Definition>): nat {
    if defs == [] then 0 else 64 + 8 * |defs[0].body| + Space(defs[1..])
  }

  /** The entry is the definition's, visible, and its code ends below `limit`. */
  ghost predicate Compiled(m: seq<Byte>, e: Entry, d: Definition, docol: nat, exit: nat, limit: nat) {
    && e.name == d.name && e.Visible()
    && e.End() + 16 + 8 * |d.body| <= limit
    && Cells(m, e.End(), [docol] + d.body + [exit])
  }

  ghost predicate AllCompiled(m: seq<Byte>, entries: seq<Entry>, defs: seq<Definition>, docol: nat, exit: nat,
                              limit: nat) {
    && |entries| == |defs|
    && forall i :: 0 <= i < |defs| ==> Compiled(m, entries[i], defs[i], docol, exit, limit)
  }

  lemma CompiledKept(m: seq<Byte>, m': seq<Byte>, entries: seq<Entry>, defs: seq<Definition>, docol: nat, exit: nat,
                     limit: nat, limit': nat)
    requires AllCompiled(m, entries, defs, docol, exit, limit) && limit <= limit'
    requires limit <= |m| == |m'| && forall i :: 0 <= i < limit ==> m'[i] == m[i]
    ensures AllCompiled(m', entries, defs, docol, exit, limit')
  {
    forall i | 0 <= i < |defs| ensures Compiled(m', entries[i], defs[i], docol, exit, limit') {
      assert Compiled(m, entries[i], defs[i], docol, exit, limit);
      CellsKept(m, m', entries[i].End(), [docol] + defs[i].body + [exit]);
    }
  }

  lemma MoreCompiled(m: seq<Byte>, entries: seq<Entry>, e: Entry, defs: seq<Definition>, i: nat, docol: nat,
                     exit: nat, limit: nat)
    requires i < |defs| && AllCompiled(m, entries, defs[..i], docol, exit, limit)
    requires Compiled(m, e, defs[i], docol, exit, limit)
    ensures AllCompiled(m, entries + [e], defs[..i + 1], docol, exit, limit)
  {
    forall j | 0 <= j < i + 1 ensures Compiled(m, (entries + [e])[j], defs[..i + 1][j], docol, exit, limit) {
      if j < i {
        assert Compiled(m, entries[j], defs[..i][j], docol, exit, limit);
      }
    }
  }

  /** The last of the first k definitions with the name, -1 if there is none. */
  function LastOf(defs: seq<Definition>, k: nat, name: seq<Byte>): (r: int)
    requires k <= |defs|
    ensures -1 <= r < k && (r >= 0 ==> defs[r].name == name)
    ensures forall j :: r < j < k ==> defs[j].name != name
  {
    if k == 0 then -1 else if defs[k - 1].name == name then k - 1 else LastOf(defs, k - 1, name)
  }

  lemma {:induction false} LookupAmong(before: seq<Entry>, added: seq<Entry>, m: seq<Byte>, defs: seq<Definition>,
                                       docol: nat, exit: nat, limit: nat, k: nat, name: seq<Byte>)
    requires AllCompiled(m, added, defs, docol, exit, limit) && k <= |defs|
    ensures Lookup(before + added, |before| + k, name)
         == if LastOf(defs, k, name) >= 0 then |before| + LastOf(defs, k, name)
            else Lookup(before, |before|, name)
  {
    hide Cells;
    if k == 0 {
      LookupPrefix(before, before + added, |before|, name);
    } else {
      assert Compiled(m, added[k - 1], defs[k - 1], docol, exit, limit);
      assert (before + added)[|before| + k - 1] == added[k - 1];
      LookupAmong(before, added, m, defs, docol, exit, limit, k - 1, name);
    }
  }

  /** What FIND finds after a list of definitions, and the code behind it. */
  lemma {:induction false} LastDefinitionWins(before: seq<Entry>, added: seq<Entry>, m: seq<Byte>,
                                              defs: seq<Definition>, docol: nat, exit: nat, limit: nat,
                                              name: seq<Byte>)
    requires AllCompiled(m, added, defs, docol, exit, limit)
    ensures var last, r := LastOf(defs, |defs|, name), Lookup(before + added, |before| + |added|, name);
            if last >= 0
            then r == |before| + last && added[last].name == name
                 && Cells(m, added[last].End(), [docol] + defs[last].body + [exit])
            else r == Lookup(before, |before|, name)
  {
    hide Cells;
    LookupAmong(before, added, m, defs, docol, exit, limit, |defs|, name);
    var last := LastOf(defs, |defs|, name);
    if last >= 0 {
      assert Compiled(m, added[last], defs[last], docol, exit, limit);
    }
  }

  /** Hidden by : and shown by ;, an entry is as it was created, and is found by its name. */
  lemma {:induction false} ShownAgain(before: seq<Entry>, e: Entry)
    requires Name(e.name) && e.flags == |e.name|
    ensures (before + [e.Toggled()])[|before| := e.Toggled().Toggled()] == before + [e]
    ensures Lookup(before + [e.Toggled()], |before| + 1, e.name) == Lookup(before, |before|, e.name)
    ensures Lookup(before + [e], |before| + 1, e.name) == |before|
  {
    TogglesBack(e.flags);
    assert e.Toggled().Toggled() == e;
    assert (before + [e.Toggled()])[|before| := e] == before + [e];
    assert e.Visible() && !e.Toggled().Visible();
    LatestWins(before, e.Toggled(), e.name);
    LatestWins(before, e, e.name);
  }

  lemma TogglesBack(flags: Byte)
    ensures Xor32(Xor32(flags)) == flags && Xor32(flags) % 32 == flags % 32
    ensures flags <= 32 ==> Xor32(flags) % 64 != flags && flags % 64 == flags
  {
  }

  /** The cells from `start` on. */
  ghost predicate Cells(m: seq<Byte>, start: nat, cells: seq<nat>) {
    && start + 8 * |cells| <= |m|
    && forall i :: 0 <= i < |cells| ==> Cell(m, start + 8 * i) == cells[i]
  }

  lemma CellKept(m: seq<Byte>, m': seq<Byte>, address: nat)
    requires address + 8 <= |m| == |m'| && forall i :: address <= i < address + 8 ==> m'[i] == m[i]
    ensures Cell(m', address) == Cell(m, address)
  {
  }

  lemma CellsKept(m: seq<Byte>, m': seq<Byte>, start: nat, cells: seq<nat>)
    requires Cells(m, start, cells) && |m'| == |m|
    requires forall i :: start <= i < start + 8 * |cells| ==> m'[i] == m[i]
    ensures Cells(m', start, cells)
  {
    forall i | 0 <= i < |cells| ensures Cell(m', start + 8 * i) == cells[i] {
      CellKept(m, m', start + 8 * i);
    }
  }

  lemma MoreCells(m: seq<Byte>, m': seq<Byte>, start: nat, cells: seq<nat>, i: nat)
    requires i < |cells| && Cells(m, start, cells[..i]) && |m'| == |m|
    requires forall j :: start <= j < start + 8 * i ==> m'[j] == m[j]
    requires start + 8 + 8 * i <= |m| && Cell(m', start + 8 * i) == cells[i]
    ensures Cells(m', start, cells[..i + 1])
  {
    CellsKept(m, m', start, cells[..i]);
    assert cells[..i + 1] == cells[..i] + [cells[i]];
  }

  lemma CodewordAndBody(first: seq<Byte>, second: seq<Byte>, start: nat, docol: nat, body: seq<nat>)
    requires |first| == |second| && start + 8 <= |first| && Cell(first, start) == docol
    requires Cells(second, start + 8, body) && forall i :: 0 <= i < start + 8 ==> second[i] == first[i]
    ensures Cells(second, start, [docol] + body)
  {
    CellKept(first, second, start);
    var cells := [docol] + body;
    forall i | 0 <= i < |cells| ensures Cell(second, start + 8 * i) == cells[i] {
      assert i > 0 ==> start + 8 * i == start + 8 + 8 * (i - 1);
    }
  }

  lemma ExitBehind(second: seq<Byte>, last: seq<Byte>, start: nat, cells: seq<nat>, exit: nat)
    requires |second| == |last| && start + 8 * |cells| + 8 <= |last| && Cells(second, start, cells)
    requires forall i :: start <= i < start + 8 * |cells| ==> last[i] == second[i]
    requires Cell(last, start + 8 * |cells|) == exit
    ensures Cells(last, start, cells + [exit])
  {
    CellsKept(second, last, start, cells);
  }
}
