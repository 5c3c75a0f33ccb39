/** What compiled programs do: words of jonesforth.f, compiled and run on the machine of myjf.S with its
    own stack words, and the values they leave for every 64-bit argument. */
module ForthPrograms {
  import opened Wrappers
  import opened ForthMachine
  import opened ForthCorrect
  import opened ForthCompiler
  import opened ForthNumber

  // ----- the stack words --------------------------------------------------------------------------

  const CODE_DROP := 10
  const CODE_SWAP := 11
  const CODE_DUP := 12
  const CODE_QDUP := 13
  const CODE_INCR := 14
  const CODE_DECR := 15
  const CODE_SUB := 16
  const CODE_DIVMOD := 17
  const CODE_ZEQU := 18
  const CODE_ZLT := 19
  const CODE_ZGT := 20

  function Flag(b: bool): int {
    if b then 1 else 0
  }

  /** What the words do to the stack (top first); on a stack too small they are not described. */
  function StackWord(code: int, ds: seq<int>): Option<seq<int>> {
    if ds == [] then None
    else if code == CODE_DROP then Some(ds[1..])
    else if code == CODE_DUP then Some([ds[0]] + ds)
    else if code == CODE_QDUP then Some(if ds[0] == 0 then ds else [ds[0]] + ds)
    else if code == CODE_INCR then Some([Wrap(ds[0] + 1)] + ds[1..])
    else if code == CODE_DECR then Some([Wrap(ds[0] - 1)] + ds[1..])
    else if code == CODE_ZEQU then Some([Flag(Wrap(ds[0]) == 0)] + ds[1..])
    else if code == CODE_ZLT then Some([Flag(Signed(Wrap(ds[0])) < 0)] + ds[1..])
    else if code == CODE_ZGT then Some([Flag(Signed(Wrap(ds[0])) > 0)] + ds[1..])
    else if |ds| < 2 then None
    else if code == CODE_SWAP then Some([ds[1], ds[0]] + ds[2..])
    else if code == CODE_SUB then Some([Wrap(ds[1] - ds[0])] + ds[2..])
    else if code == CODE_DIVMOD then
      match DivMod(Wrap(ds[1]), Wrap(ds[0]))
      case None => None
      case Some((remainder, quotient)) => Some([quotient, remainder] + ds[2..])
    else None
  }

  /** Where the words are. */
  datatype Words = Words(drop: int, swap: int, dup: int, qdup: int, incr: int, decr: int, sub: int,
                         divmod: int, zequ: int, zlt: int, zgt: int)

  ghost predicate Has(image: Image, xt: int, code: int) {
    xt in image.cells && image.cells[xt] == code
  }

  ghost predicate Standard(image: Image, w: Words) {
    && WellFormed(image, map[])
    && Has(image, w.drop, CODE_DROP) && Has(image, w.swap, CODE_SWAP) && Has(image, w.dup, CODE_DUP)
    && Has(image, w.qdup, CODE_QDUP) && Has(image, w.incr, CODE_INCR) && Has(image, w.decr, CODE_DECR)
    && Has(image, w.sub, CODE_SUB) && Has(image, w.divmod, CODE_DIVMOD) && Has(image, w.zequ, CODE_ZEQU)
    && Has(image, w.zlt, CODE_ZLT) && Has(image, w.zgt, CODE_ZGT)
    && forall code, ds :: image.primitive(code, ds) == StackWord(code, ds)
  }

  /** The machine's own words. */
  lemma OwnWords(image: Image, w: Words)
    requires Standard(image, w)
    ensures Has(image, image.exit, CODE_EXIT) && Has(image, image.lit, CODE_LIT)
    ensures Has(image, image.branch, CODE_BRANCH) && Has(image, image.zbranch, CODE_ZBRANCH)
  {
  }

  // ----- the laws of one step -----------------------------------------------------------------------

  /** Any word whose codeword is none of the machine's own five: the stack it leaves is the one the
      primitive gives, and the next cell comes next. */
  lemma PrimitiveStep(image: Image, a: int, ds: seq<int>, rs: seq<int>)
    requires a in image.cells && image.cells[a] in image.cells
    requires image.cells[image.cells[a]] !in {DOCOL, CODE_EXIT, CODE_LIT, CODE_BRANCH, CODE_ZBRANCH}
    ensures var r := image.primitive(image.cells[image.cells[a]], ds);
            && (r == None ==> Step(image, Vm(a, ds, rs)) == None)
            && (r.Some? ==> Step(image, Vm(a, ds, rs)) == Some(Vm(a + 8, r.value, rs)))
  {
  }

  /** The machine does not go on at a cell outside the image, or whose codeword is. */
  lemma NoCodeNoStep(image: Image, vm: Vm)
    requires vm.ip !in image.cells || image.cells[vm.ip] !in image.cells
    ensures Step(image, vm) == None
  {
  }

  /** A defined word: its body comes next, and then the cell behind the call. */
  lemma CallStep(image: Image, a: int, xt: int, ds: seq<int>, rs: seq<int>)
    requires Has(image, a, xt) && Has(image, xt, DOCOL)
    ensures Step(image, Vm(a, ds, rs)) == Some(Vm(xt + 8, ds, [a + 8] + rs))
  {
  }

  lemma ExitStep(image: Image, a: int, ds: seq<int>, ret: int, rs: seq<int>)
    requires Has(image, a, image.exit) && Has(image, image.exit, CODE_EXIT)
    ensures Step(image, Vm(a, ds, [ret] + rs)) == Some(Vm(ret, ds, rs))
  {
  }

  lemma LitStep(image: Image, a: int, n: int, ds: seq<int>, rs: seq<int>)
    requires Has(image, a, image.lit) && Has(image, image.lit, CODE_LIT) && Has(image, a + 8, n)
    ensures Step(image, Vm(a, ds, rs)) == Some(Vm(a + 16, [n] + ds, rs))
  {
  }

  lemma ZBranchStep(image: Image, a: int, offset: int, flag: int, ds: seq<int>, rs: seq<int>)
    requires Has(image, a, image.zbranch) && Has(image, image.zbranch, CODE_ZBRANCH) && Has(image, a + 8, offset)
    ensures Step(image, Vm(a, [flag] + ds, rs))
         == Some(Vm(if flag == 0 then a + 8 + offset else a + 16, ds, rs))
  {
  }

  lemma JumpStep(image: Image, a: int, offset: int, ds: seq<int>, rs: seq<int>)
    requires Has(image, a, image.branch) && Has(image, image.branch, CODE_BRANCH) && Has(image, a + 8, offset)
    ensures Step(image, Vm(a, ds, rs)) == Some(Vm(a + 8 + offset, ds, rs))
  {
  }

  // ----- the stack words, one by one ------------------------------------------------------------------

  lemma DropStep(image: Image, w: Words, a: int, x: Word, ds: seq<int>, rs: seq<int>)
    requires Standard(image, w) && Has(image, a, w.drop)
    ensures Step(image, Vm(a, [x] + ds, rs)) == Some(Vm(a + 8, ds, rs))
  {
    var s := [x] + ds;
    assert s[1..] == ds;
  }

  lemma DupStep(image: Image, w: Words, a: int, x: Word, ds: seq<int>, rs: seq<int>)
    requires Standard(image, w) && Has(image, a, w.dup)
    ensures Step(image, Vm(a, [x] + ds, rs)) == Some(Vm(a + 8, [x, x] + ds, rs))
  {
    var s := [x] + ds;
    assert s[1..] == ds && [x] + s == [x, x] + ds;
  }

  lemma QDupStep(image: Image, w: Words, a: int, x: Word, ds: seq<int>, rs: seq<int>)
    requires Standard(image, w) && Has(image, a, w.qdup)
    ensures Step(image, Vm(a, [x] + ds, rs)) == Some(Vm(a + 8, (if x == 0 then [x] else [x, x]) + ds, rs))
  {
    var s := [x] + ds;
    assert s[1..] == ds && [x] + s == [x, x] + ds;
  }

  lemma IncrStep(image: Image, w: Words, a: int, x: Word, ds: seq<int>, rs: seq<int>)
    requires Standard(image, w) && Has(image, a, w.incr)
    ensures Step(image, Vm(a, [x] + ds, rs)) == Some(Vm(a + 8, [Wrap(x + 1)] + ds, rs))
  {
    var s := [x] + ds;
    assert s[1..] == ds;
  }

  lemma DecrStep(image: Image, w: Words, a: int, x: Word, ds: seq<int>, rs: seq<int>)
    requires Standard(image, w) && Has(image, a, w.decr)
    ensures Step(image, Vm(a, [x] + ds, rs)) == Some(Vm(a + 8, [Wrap(x - 1)] + ds, rs))
  {
    var s := [x] + ds;
    assert s[1..] == ds;
  }

  lemma ZEquStep(image: Image, w: Words, a: int, x: Word, ds: seq<int>, rs: seq<int>)
    requires Standard(image, w) && Has(image, a, w.zequ)
    ensures Step(image, Vm(a, [x] + ds, rs)) == Some(Vm(a + 8, [Flag(x == 0)] + ds, rs))
  {
    var s := [x] + ds;
    assert s[1..] == ds;
  }

  lemma ZLtStep(image: Image, w: Words, a: int, x: Word, ds: seq<int>, rs: seq<int>)
    requires Standard(image, w) && Has(image, a, w.zlt)
    ensures Step(image, Vm(a, [x] + ds, rs)) == Some(Vm(a + 8, [Flag(Signed(x) < 0)] + ds, rs))
  {
    var s := [x] + ds;
    assert s[1..] == ds;
  }

  lemma ZGtStep(image: Image, w: Words, a: int, x: Word, ds: seq<int>, rs: seq<int>)
    requires Standard(image, w) && Has(image, a, w.zgt)
    ensures Step(image, Vm(a, [x] + ds, rs)) == Some(Vm(a + 8, [Flag(Signed(x) > 0)] + ds, rs))
  {
    var s := [x] + ds;
    assert s[1..] == ds;
  }

  lemma SwapStep(image: Image, w: Words, a: int, x: Word, y: Word, ds: seq<int>, rs: seq<int>)
    requires Standard(image, w) && Has(image, a, w.swap)
    ensures Step(image, Vm(a, [x, y] + ds, rs)) == Some(Vm(a + 8, [y, x] + ds, rs))
  {
    var s := [x, y] + ds;
    assert s[2..] == ds;
  }

  lemma SubStep(image: Image, w: Words, a: int, x: Word, y: Word, ds: seq<int>, rs: seq<int>)
    requires Standard(image, w) && Has(image, a, w.sub)
    ensures Step(image, Vm(a, [x, y] + ds, rs)) == Some(Vm(a + 8, [Wrap(y - x)] + ds, rs))
  {
    var s := [x, y] + ds;
    assert s[2..] == ds;
  }

  lemma DivModStep(image: Image, w: Words, a: int, x: Word, y: Word, r: Word, q: Word, ds: seq<int>, rs: seq<int>)
    requires Standard(image, w) && Has(image, a, w.divmod) && DivMod(y, x) == Some((r, q))
    ensures Step(image, Vm(a, [x, y] + ds, rs)) == Some(Vm(a + 8, [q, r] + ds, rs))
  {
    hide DivMod;
    var s := [x, y] + ds;
    assert s[2..] == ds && Wrap(x) == x && Wrap(y) == y;
  }

  // ----- paths --------------------------------------------------------------------------------------

  /** The machine comes from one state to the other, inside the code up to the last step. */
  ghost predicate Goes(image: Image, x: Vm, y: Vm, lo: int, hi: int, rs: seq<int>) {
    exists n :: Path(image, x, n, y, lo, hi, rs)
  }

  lemma Stays(image: Image, x: Vm, lo: int, hi: int, rs: seq<int>)
    ensures Goes(image, x, x, lo, hi, rs)
  {
    assert Path(image, x, 0, x, lo, hi, rs);
  }

  /** One more step. */
  lemma GoesOn(image: Image, x: Vm, y: Vm, z: Vm, lo: int, hi: int, rs: seq<int>)
    requires Goes(image, x, y, lo, hi, rs) && Inside(y, lo, hi, rs) && Step(image, y) == Some(z)
    ensures Goes(image, x, z, lo, hi, rs)
  {
    var n :| Path(image, x, n, y, lo, hi, rs);
    assert Path(image, z, 0, z, lo, hi, rs);
    PathStep(image, y, 0, z, lo, hi, rs);
    PathJoin(image, x, n, y, 1, z, lo, hi, rs);
  }

  lemma GoesJoin(image: Image, x: Vm, y: Vm, z: Vm, lo: int, hi: int, rs: seq<int>)
    requires Goes(image, x, y, lo, hi, rs) && Goes(image, y, z, lo, hi, rs)
    ensures Goes(image, x, z, lo, hi, rs)
  {
    var n :| Path(image, x, n, y, lo, hi, rs);
    var k :| Path(image, y, k, z, lo, hi, rs);
    PathJoin(image, x, n, y, k, z, lo, hi, rs);
  }

  /** Code of a called word, or of a part, is inside the whole. */
  lemma GoesWiden(image: Image, x: Vm, y: Vm, lo: int, hi: int, rs: seq<int>, lo': int, hi': int, rs': seq<int>)
    requires Goes(image, x, y, lo, hi, rs)
    requires |rs| > |rs'| || (rs == rs' && lo' <= lo && hi <= hi')
    ensures Goes(image, x, y, lo', hi', rs')
  {
    var n :| Path(image, x, n, y, lo, hi, rs);
    PathWiden(image, x, n, y, lo, hi, rs, lo', hi', rs');
  }

  /** The cells of a list, one by one. */
  lemma {:induction false} CellAt(image: Image, a: int, code: seq<int>, i: nat)
    requires CodeAt(image, a, code) && i < |code|
    ensures Has(image, a + 8 * i, code[i])
    decreases i
  {
    if i > 0 {
      CellAt(image, a + 8, code[1..], i - 1);
    }
  }

  /** Four cells from number i on. */
  lemma {:induction false} FourCells(image: Image, a: int, code: seq<int>, i: nat)
    requires CodeAt(image, a, code) && i < |code|
    ensures Has(image, a + 8 * i, code[i])
    ensures i + 1 < |code| ==> Has(image, a + 8 * i + 8, code[i + 1])
    ensures i + 2 < |code| ==> Has(image, a + 8 * i + 16, code[i + 2])
    ensures i + 3 < |code| ==> Has(image, a + 8 * i + 24, code[i + 3])
  {
    forall j | i <= j < |code| ensures Has(image, a + 8 * j, code[j]) {
      CellAt(image, a, code, j);
    }
    assert forall j :: i <= j < i + 4 && j < |code| ==> Has(image, a + 8 * j, code[j]);
    assert i + 1 < |code| ==> Has(image, a + 8 * (i + 1), code[i + 1]);
    assert i + 2 < |code| ==> Has(image, a + 8 * (i + 2), code[i + 2]);
    assert i + 3 < |code| ==> Has(image, a + 8 * (i + 3), code[i + 3]);
  }

  // ----- : NEGATE 0 SWAP - ;   and   : ABS DUP 0< IF NEGATE THEN ; -------------------------------------

  function NegateCode(image: Image, w: Words): seq<int> {
    [image.lit, 0, w.swap, w.sub, image.exit]
  }

  /** NEGATE, called from the cell at a, leaves the negative of its argument, wrapped. */
  lemma {:induction false} Negate(image: Image, w: Words, negate: int, a: int, x: Word, ds: seq<int>, rs: seq<int>)
    requires Standard(image, w) && Has(image, a, negate) && Has(image, negate, DOCOL)
    requires CodeAt(image, negate + 8, NegateCode(image, w))
    ensures Goes(image, Vm(a, [x] + ds, rs), Vm(a + 8, [Wrap(0 - x)] + ds, rs), a, a + 8, rs)
  {
    OwnWords(image, w);
    hide Standard, CodeAt, Step, Path;
    var code, b, ret := NegateCode(image, w), negate + 8, [a + 8] + rs;
    var v0, v1, v2, v3, v4 := Vm(a, [x] + ds, rs), Vm(b, [x] + ds, ret), Vm(b + 16, [0, x] + ds, ret),
                              Vm(b + 24, [x, 0] + ds, ret), Vm(b + 32, [Wrap(0 - x)] + ds, ret);
    FourCells(image, b, code, 0);
    FourCells(image, b, code, 4);
    CallStep(image, a, negate, [x] + ds, rs);
    LitStep(image, b, 0, [x] + ds, ret);
    assert [0] + ([x] + ds) == [0, x] + ds;
    SwapStep(image, w, b + 16, 0, x, ds, ret);
    SubStep(image, w, b + 24, x, 0, ds, ret);
    ExitStep(image, b + 32, [Wrap(0 - x)] + ds, a + 8, rs);
    Stays(image, v0, a, a + 8, rs);
    GoesOn(image, v0, v0, v1, a, a + 8, rs);
    GoesOn(image, v0, v1, v2, a, a + 8, rs);
    GoesOn(image, v0, v2, v3, a, a + 8, rs);
    GoesOn(image, v0, v3, v4, a, a + 8, rs);
    GoesOn(image, v0, v4, Vm(a + 8, [Wrap(0 - x)] + ds, rs), a, a + 8, rs);
  }

  function AbsCode(image: Image, w: Words, negate: int): seq<int> {
    [w.dup, w.zlt, image.zbranch, 16, negate]
  }

  /** The compiled words of ABS leave the magnitude of every 64-bit number. */
  lemma {:induction false} Abs(image: Image, w: Words, negate: int, a: int, x: Word, ds: seq<int>, rs: seq<int>)
    requires Standard(image, w) && CodeAt(image, a, AbsCode(image, w, negate))
    requires Has(image, negate, DOCOL) && CodeAt(image, negate + 8, NegateCode(image, w))
    ensures Leaves(image, Vm(a, [x] + ds, rs), a, a + 40, Vm(a + 40, [Magnitude(x)] + ds, rs))
  {
    OwnWords(image, w);
    hide Standard, CodeAt, Step, Path;
    var code, hi := AbsCode(image, w, negate), a + 40;
    var v0, v1, v2 := Vm(a, [x] + ds, rs), Vm(a + 8, [x, x] + ds, rs), Vm(a + 16, [Flag(Signed(x) < 0), x] + ds, rs);
    FourCells(image, a, code, 0);
    FourCells(image, a, code, 4);
    DupStep(image, w, a, x, ds, rs);
    assert [x] + ([x] + ds) == [x, x] + ds;
    ZLtStep(image, w, a + 8, x, [x] + ds, rs);
    assert [Flag(Signed(x) < 0)] + ([x] + ds) == [Flag(Signed(x) < 0), x] + ds;
    ZBranchStep(image, a + 16, 16, Flag(Signed(x) < 0), [x] + ds, rs);
    Stays(image, v0, a, hi, rs);
    GoesOn(image, v0, v0, v1, a, hi, rs);
    GoesOn(image, v0, v1, v2, a, hi, rs);
    if Signed(x) < 0 {
      GoesOn(image, v0, v2, Vm(a + 32, [x] + ds, rs), a, hi, rs);
      Negate(image, w, negate, a + 32, x, ds, rs);
      GoesWiden(image, Vm(a + 32, [x] + ds, rs), Vm(hi, [Wrap(0 - x)] + ds, rs), a + 32, hi, rs, a, hi, rs);
      GoesJoin(image, v0, Vm(a + 32, [x] + ds, rs), Vm(hi, [Wrap(0 - x)] + ds, rs), a, hi, rs);
    } else {
      GoesOn(image, v0, v2, Vm(hi, [x] + ds, rs), a, hi, rs);
    }
  }

  /** That is the absolute value exactly when the number is not the least one. */
  lemma MagnitudeIsAbsolute(x: Word)
    ensures Signed(Magnitude(x)) == (if Signed(x) < 0 then -Signed(x) else Signed(x)) <==> x != 0x8000_0000_0000_0000
  {
  }

  // ----- BEGIN DUP 0> WHILE SWAP 1+ SWAP 1- REPEAT DROP -------------------------------------------------

  /** The loop of SPACES, with counting one up for each SPACE. */
  function CountCode(image: Image, w: Words): seq<int> {
    [w.dup, w.zgt, image.zbranch, 56, w.swap, w.incr, w.swap, w.decr, image.branch, -72, w.drop]
  }

  /** The test at the top of the loop. */
  lemma CountTest(image: Image, w: Words, a: int, n: Word, c: Word, ds: seq<int>, rs: seq<int>)
    requires Standard(image, w) && CodeAt(image, a, CountCode(image, w))
    ensures Goes(image, Vm(a, [n, c] + ds, rs), Vm(if Signed(n) > 0 then a + 32 else a + 80, [n, c] + ds, rs),
                 a, a + 88, rs)
  {
    OwnWords(image, w);
    hide Standard, CodeAt, Step, Path;
    var code, hi, f := CountCode(image, w), a + 88, Flag(Signed(n) > 0);
    var v0, v1, v2 := Vm(a, [n, c] + ds, rs), Vm(a + 8, [n, n, c] + ds, rs), Vm(a + 16, [f, n, c] + ds, rs);
    FourCells(image, a, code, 0);
    assert [n] + ([c] + ds) == [n, c] + ds && [n, n] + ([c] + ds) == [n, n, c] + ds;
    assert [n] + ([n, c] + ds) == [n, n, c] + ds && [f] + ([n, c] + ds) == [f, n, c] + ds;
    DupStep(image, w, a, n, [c] + ds, rs);
    ZGtStep(image, w, a + 8, n, [n, c] + ds, rs);
    ZBranchStep(image, a + 16, 56, f, [n, c] + ds, rs);
    Stays(image, v0, a, hi, rs);
    GoesOn(image, v0, v0, v1, a, hi, rs);
    GoesOn(image, v0, v1, v2, a, hi, rs);
    GoesOn(image, v0, v2, Vm(if Signed(n) > 0 then a + 32 else a + 80, [n, c] + ds, rs), a, hi, rs);
  }

  /** The body of the loop and the way back. */
  lemma {:induction false} CountRound(image: Image, w: Words, a: int, n: Word, c: Word, ds: seq<int>, rs: seq<int>)
    requires Standard(image, w) && CodeAt(image, a, CountCode(image, w))
    ensures Goes(image, Vm(a + 32, [n, c] + ds, rs), Vm(a, [Wrap(n - 1), Wrap(c + 1)] + ds, rs), a, a + 88, rs)
  {
    OwnWords(image, w);
    hide Standard, CodeAt, Step, Path;
    var code, hi, n', c' := CountCode(image, w), a + 88, Wrap(n - 1), Wrap(c + 1);
    var v0, v1, v2, v3, v4 := Vm(a + 32, [n, c] + ds, rs), Vm(a + 40, [c, n] + ds, rs), Vm(a + 48, [c', n] + ds, rs),
                              Vm(a + 56, [n, c'] + ds, rs), Vm(a + 64, [n', c'] + ds, rs);
    FourCells(image, a, code, 4);
    FourCells(image, a, code, 8);
    assert [c] + ([n] + ds) == [c, n] + ds && [c'] + ([n] + ds) == [c', n] + ds;
    assert [n] + ([c'] + ds) == [n, c'] + ds && [n'] + ([c'] + ds) == [n', c'] + ds;
    SwapStep(image, w, a + 32, n, c, ds, rs);
    IncrStep(image, w, a + 40, c, [n] + ds, rs);
    SwapStep(image, w, a + 48, c', n, ds, rs);
    DecrStep(image, w, a + 56, n, [c'] + ds, rs);
    JumpStep(image, a + 64, -72, [n', c'] + ds, rs);
    Stays(image, v0, a, hi, rs);
    GoesOn(image, v0, v0, v1, a, hi, rs);
    GoesOn(image, v0, v1, v2, a, hi, rs);
    GoesOn(image, v0, v2, v3, a, hi, rs);
    GoesOn(image, v0, v3, v4, a, hi, rs);
    GoesOn(image, v0, v4, Vm(a, [n', c'] + ds, rs), a, hi, rs);
  }

  lemma {:induction false} CountDrop(image: Image, w: Words, a: int, n: Word, c: Word, ds: seq<int>, rs: seq<int>)
    requires Standard(image, w) && CodeAt(image, a, CountCode(image, w))
    ensures Goes(image, Vm(a + 80, [n, c] + ds, rs), Vm(a + 88, [c] + ds, rs), a, a + 88, rs)
  {
    OwnWords(image, w);
    hide Standard, CodeAt, Step, Path;
    FourCells(image, a, CountCode(image, w), 10);
    assert [n] + ([c] + ds) == [n, c] + ds;
    DropStep(image, w, a + 80, n, [c] + ds, rs);
    Stays(image, Vm(a + 80, [n, c] + ds, rs), a, a + 88, rs);
    GoesOn(image, Vm(a + 80, [n, c] + ds, rs), Vm(a + 80, [n, c] + ds, rs), Vm(a + 88, [c] + ds, rs), a, a + 88, rs);
  }

  /** The compiled loop makes n rounds for positive n, and none for zero and negative n. */
  lemma {:induction false} Count(image: Image, w: Words, a: int, n: Word, c: Word, ds: seq<int>, rs: seq<int>)
    requires Standard(image, w) && CodeAt(image, a, CountCode(image, w))
    ensures Leaves(image, Vm(a, [n, c] + ds, rs), a, a + 88,
                   Vm(a + 88, [Wrap(c + if Signed(n) > 0 then Signed(n) else 0)] + ds, rs))
    decreases if Signed(n) > 0 then Signed(n) else 0
  {
    hide Standard, Step, Path, CodeAt;
    CountTest(image, w, a, n, c, ds, rs);
    if Signed(n) > 0 {
      CountRound(image, w, a, n, c, ds, rs);
      Count(image, w, a, Wrap(n - 1), Wrap(c + 1), ds, rs);
      var mid, top := Vm(a + 32, [n, c] + ds, rs), Vm(a, [Wrap(n - 1), Wrap(c + 1)] + ds, rs);
      var end := Vm(a + 88, [Wrap(Wrap(c + 1) + Signed(n) - 1)] + ds, rs);
      assert Goes(image, top, end, a, a + 88, rs);
      GoesJoin(image, Vm(a, [n, c] + ds, rs), mid, top, a, a + 88, rs);
      GoesJoin(image, Vm(a, [n, c] + ds, rs), top, end, a, a + 88, rs);
      WrapAdd(c + 1, Signed(n) - 1);
    } else {
      CountDrop(image, w, a, n, c, ds, rs);
      GoesJoin(image, Vm(a, [n, c] + ds, rs), Vm(a + 80, [n, c] + ds, rs), Vm(a + 88, [c] + ds, rs), a, a + 88, rs);
    }
  }

  // ----- BEGIN 1- DUP 0= UNTIL   and   BEGIN DUP 0= IF EXIT THEN 1- AGAIN -------------------------------

  function UntilCode(image: Image, w: Words): seq<int> {
    [w.decr, w.dup, w.zequ, image.zbranch, -32]
  }

  lemma {:induction false} UntilRound(image: Image, w: Words, a: int, n: Word, ds: seq<int>, rs: seq<int>)
    requires Standard(image, w) && CodeAt(image, a, UntilCode(image, w))
    ensures var n' := Wrap(n - 1);
            Goes(image, Vm(a, [n] + ds, rs), Vm(if n' == 0 then a + 40 else a, [n'] + ds, rs), a, a + 40, rs)
  {
    OwnWords(image, w);
    hide Standard, CodeAt, Step, Path;
    var code, hi, n' := UntilCode(image, w), a + 40, Wrap(n - 1);
    var v0, v1 := Vm(a, [n] + ds, rs), Vm(a + 8, [n'] + ds, rs);
    var v2, v3 := Vm(a + 16, [n', n'] + ds, rs), Vm(a + 24, [Flag(n' == 0), n'] + ds, rs);
    FourCells(image, a, code, 0);
    FourCells(image, a, code, 4);
    assert [n'] + ([n'] + ds) == [n', n'] + ds && [Flag(n' == 0)] + ([n'] + ds) == [Flag(n' == 0), n'] + ds;
    DecrStep(image, w, a, n, ds, rs);
    DupStep(image, w, a + 8, n', ds, rs);
    ZEquStep(image, w, a + 16, n', [n'] + ds, rs);
    ZBranchStep(image, a + 24, -32, Flag(n' == 0), [n'] + ds, rs);
    Stays(image, v0, a, hi, rs);
    GoesOn(image, v0, v0, v1, a, hi, rs);
    GoesOn(image, v0, v1, v2, a, hi, rs);
    GoesOn(image, v0, v2, v3, a, hi, rs);
    GoesOn(image, v0, v3, Vm(if n' == 0 then hi else a, [n'] + ds, rs), a, hi, rs);
  }

  /** The loop counts down to 0 from every number, and from 0 all the way round. */
  lemma {:induction false} Until0(image: Image, w: Words, a: int, n: Word, ds: seq<int>, rs: seq<int>)
    requires Standard(image, w) && CodeAt(image, a, UntilCode(image, w))
    ensures Leaves(image, Vm(a, [n] + ds, rs), a, a + 40, Vm(a + 40, [0] + ds, rs))
    decreases Wrap(n - 1)
  {
    hide Standard, Step, Path, CodeAt;
    UntilRound(image, w, a, n, ds, rs);
    var n' := Wrap(n - 1);
    if n' != 0 {
      Until0(image, w, a, n', ds, rs);
      assert Goes(image, Vm(a, [n'] + ds, rs), Vm(a + 40, [0] + ds, rs), a, a + 40, rs);
      GoesJoin(image, Vm(a, [n] + ds, rs), Vm(a, [n'] + ds, rs), Vm(a + 40, [0] + ds, rs), a, a + 40, rs);
    }
  }

  function AgainCode(image: Image, w: Words): seq<int> {
    [w.dup, w.zequ, image.zbranch, 16, image.exit, w.decr, image.branch, -56]
  }

  lemma AgainTest(image: Image, w: Words, a: int, n: Word, ds: seq<int>, rs: seq<int>)
    requires Standard(image, w) && CodeAt(image, a, AgainCode(image, w))
    ensures Goes(image, Vm(a, [n] + ds, rs), Vm(if n == 0 then a + 32 else a + 40, [n] + ds, rs), a, a + 64, rs)
  {
    OwnWords(image, w);
    hide Standard, CodeAt, Step, Path;
    var code, hi := AgainCode(image, w), a + 64;
    var v0, v1, v2 := Vm(a, [n] + ds, rs), Vm(a + 8, [n, n] + ds, rs), Vm(a + 16, [Flag(n == 0), n] + ds, rs);
    FourCells(image, a, code, 0);
    assert [n] + ([n] + ds) == [n, n] + ds && [Flag(n == 0)] + ([n] + ds) == [Flag(n == 0), n] + ds;
    DupStep(image, w, a, n, ds, rs);
    ZEquStep(image, w, a + 8, n, [n] + ds, rs);
    ZBranchStep(image, a + 16, 16, Flag(n == 0), [n] + ds, rs);
    Stays(image, v0, a, hi, rs);
    GoesOn(image, v0, v0, v1, a, hi, rs);
    GoesOn(image, v0, v1, v2, a, hi, rs);
    GoesOn(image, v0, v2, Vm(if n == 0 then a + 32 else a + 40, [n] + ds, rs), a, hi, rs);
  }

  lemma {:induction false} AgainBack(image: Image, w: Words, a: int, n: Word, ds: seq<int>, ret: int, rs: seq<int>)
    requires Standard(image, w) && CodeAt(image, a, AgainCode(image, w))
    ensures Goes(image, Vm(a + 40, [n] + ds, [ret] + rs), Vm(a, [Wrap(n - 1)] + ds, [ret] + rs), a, a + 64, [ret] + rs)
    ensures Goes(image, Vm(a + 32, [n] + ds, [ret] + rs), Vm(ret, [n] + ds, rs), a, a + 64, [ret] + rs)
  {
    OwnWords(image, w);
    hide Standard, CodeAt, Step, Path;
    var hi, stack, v0 := a + 64, [ret] + rs, Vm(a + 40, [n] + ds, [ret] + rs);
    FourCells(image, a, AgainCode(image, w), 4);
    DecrStep(image, w, a + 40, n, ds, stack);
    JumpStep(image, a + 48, -56, [Wrap(n - 1)] + ds, stack);
    ExitStep(image, a + 32, [n] + ds, ret, rs);
    Stays(image, v0, a, hi, stack);
    GoesOn(image, v0, v0, Vm(a + 48, [Wrap(n - 1)] + ds, stack), a, hi, stack);
    GoesOn(image, v0, Vm(a + 48, [Wrap(n - 1)] + ds, stack), Vm(a, [Wrap(n - 1)] + ds, stack), a, hi, stack);
    Stays(image, Vm(a + 32, [n] + ds, stack), a, hi, stack);
    GoesOn(image, Vm(a + 32, [n] + ds, stack), Vm(a + 32, [n] + ds, stack), Vm(ret, [n] + ds, rs), a, hi, stack);
  }

  /** The endless loop is left by EXIT, to the return address, with 0. */
  lemma {:induction false} AgainUntil0(image: Image, w: Words, a: int, n: Word, ds: seq<int>, ret: int, rs: seq<int>)
    requires Standard(image, w) && CodeAt(image, a, AgainCode(image, w))
    ensures Leaves(image, Vm(a, [n] + ds, [ret] + rs), a, a + 64, Vm(ret, [0] + ds, rs))
    decreases n
  {
    hide Standard, Step, Path, CodeAt;
    var stack := [ret] + rs;
    AgainTest(image, w, a, n, ds, stack);
    AgainBack(image, w, a, n, ds, ret, rs);
    if n == 0 {
      GoesJoin(image, Vm(a, [n] + ds, stack), Vm(a + 32, [n] + ds, stack), Vm(ret, [0] + ds, rs), a, a + 64, stack);
    } else {
      var n' := Wrap(n - 1);
      AgainUntil0(image, w, a, n', ds, ret, rs);
      assert Goes(image, Vm(a, [n'] + ds, stack), Vm(ret, [0] + ds, rs), a, a + 64, stack);
      GoesJoin(image, Vm(a, [n] + ds, stack), Vm(a + 40, [n] + ds, stack), Vm(a, [n'] + ds, stack), a, a + 64, stack);
      GoesJoin(image, Vm(a, [n] + ds, stack), Vm(a, [n'] + ds, stack), Vm(ret, [0] + ds, rs), a, a + 64, stack);
    }
  }

  // ----- : / /MOD SWAP DROP ;   and   : UWIDTH base / ?DUP IF RECURSE 1+ ELSE 1 THEN ; -------------------

  function DivideCode(image: Image, w: Words): seq<int> {
    [w.divmod, w.swap, w.drop, image.exit]
  }

  lemma {:induction false} DivideBody(image: Image, w: Words, b: int, u: Word, d: Word, r: Word, q: Word,
                                      ds: seq<int>, ret: int, rs: seq<int>)
    requires Standard(image, w) && CodeAt(image, b, DivideCode(image, w)) && DivMod(u, d) == Some((r, q))
    ensures Goes(image, Vm(b, [d, u] + ds, [ret] + rs), Vm(ret, [q] + ds, rs), b, b + 32, [ret] + rs)
  {
    OwnWords(image, w);
    hide Standard, CodeAt, Step, Path, DivMod;
    var hi, stack := b + 32, [ret] + rs;
    var v0, v1 := Vm(b, [d, u] + ds, stack), Vm(b + 8, [q, r] + ds, stack);
    var v2, v3 := Vm(b + 16, [r, q] + ds, stack), Vm(b + 24, [q] + ds, stack);
    FourCells(image, b, DivideCode(image, w), 0);
    DivModStep(image, w, b, d, u, r, q, ds, stack);
    SwapStep(image, w, b + 8, q, r, ds, stack);
    assert [r] + ([q] + ds) == [r, q] + ds;
    DropStep(image, w, b + 16, r, [q] + ds, stack);
    ExitStep(image, b + 24, [q] + ds, ret, rs);
    Stays(image, v0, b, hi, stack);
    GoesOn(image, v0, v0, v1, b, hi, stack);
    GoesOn(image, v0, v1, v2, b, hi, stack);
    GoesOn(image, v0, v2, v3, b, hi, stack);
    GoesOn(image, v0, v3, Vm(ret, [q] + ds, rs), b, hi, stack);
  }

  /** The quotient, when the division does not fault. */
  lemma {:induction false} Divide(image: Image, w: Words, divide: int, a: int, u: Word, d: Word, r: Word, q: Word,
                                  ds: seq<int>, rs: seq<int>)
    requires Standard(image, w) && Has(image, a, divide) && Has(image, divide, DOCOL)
    requires CodeAt(image, divide + 8, DivideCode(image, w)) && DivMod(u, d) == Some((r, q))
    ensures Goes(image, Vm(a, [d, u] + ds, rs), Vm(a + 8, [q] + ds, rs), a, a + 8, rs)
  {
    hide Standard, CodeAt, Step, Path, DivMod;
    var b, ret := divide + 8, [a + 8] + rs;
    var v0, v1, v2 := Vm(a, [d, u] + ds, rs), Vm(b, [d, u] + ds, ret), Vm(a + 8, [q] + ds, rs);
    CallStep(image, a, divide, [d, u] + ds, rs);
    DivideBody(image, w, b, u, d, r, q, ds, a + 8, rs);
    Stays(image, v0, a, a + 8, rs);
    GoesOn(image, v0, v0, v1, a, a + 8, rs);
    GoesWiden(image, v1, v2, b, b + 32, ret, a, a + 8, rs);
    GoesJoin(image, v0, v1, v2, a, a + 8, rs);
  }

  /** UWIDTH, at address uwidth, with a fixed base for BASE @, closed by EXIT. */
  function WidthCode(image: Image, w: Words, divide: int, uwidth: int, base: int): seq<int> {
    [image.lit, base, divide, w.qdup, image.zbranch, 40, uwidth, w.incr, image.branch, 24, image.lit, 1, image.exit]
  }

  ghost predicate WidthThere(image: Image, w: Words, divide: int, uwidth: int, base: Word) {
    && Standard(image, w) && 2 <= base <= 36
    && Has(image, divide, DOCOL) && CodeAt(image, divide + 8, DivideCode(image, w))
    && Has(image, uwidth, DOCOL) && CodeAt(image, uwidth + 8, WidthCode(image, w, divide, uwidth, base))
  }

  /** The division at the start of the body at b. */
  lemma WidthDivides(image: Image, w: Words, divide: int, uwidth: int, b: int, u: Word, base: Word, r: Word, q: Word,
                     ds: seq<int>, rs: seq<int>)
    requires WidthThere(image, w, divide, uwidth, base) && b == uwidth + 8 && DivMod(u, base) == Some((r, q))
    ensures Goes(image, Vm(b, [u] + ds, rs), Vm(b + 24, [q] + ds, rs), b, b + 104, rs)
  {
    OwnWords(image, w);
    hide Standard, CodeAt, Step, Path, DivMod;
    var hi, v0, v1, v2 := b + 104, Vm(b, [u] + ds, rs), Vm(b + 16, [base, u] + ds, rs), Vm(b + 24, [q] + ds, rs);
    FourCells(image, b, WidthCode(image, w, divide, uwidth, base), 0);
    LitStep(image, b, base, [u] + ds, rs);
    assert [base] + ([u] + ds) == [base, u] + ds;
    Divide(image, w, divide, b + 16, u, base, r, q, ds, rs);
    Stays(image, v0, b, hi, rs);
    GoesOn(image, v0, v0, v1, b, hi, rs);
    GoesWiden(image, v1, v2, b + 16, b + 24, rs, b, hi, rs);
    GoesJoin(image, v0, v1, v2, b, hi, rs);
  }

  /** Up to the call or the literal, from the start of the body at b. */
  lemma WidthTest(image: Image, w: Words, divide: int, uwidth: int, b: int, u: Word, base: Word, r: Word, q: Word,
                  ds: seq<int>, rs: seq<int>)
    requires WidthThere(image, w, divide, uwidth, base) && b == uwidth + 8 && DivMod(u, base) == Some((r, q))
    ensures q == 0 ==> Goes(image, Vm(b, [u] + ds, rs), Vm(b + 80, ds, rs), b, b + 104, rs)
    ensures q != 0 ==> Goes(image, Vm(b, [u] + ds, rs), Vm(b + 48, [q] + ds, rs), b, b + 104, rs)
  {
    OwnWords(image, w);
    WidthDivides(image, w, divide, uwidth, b, u, base, r, q, ds, rs);
    hide Standard, CodeAt, Step, Path, DivMod;
    var code, hi := WidthCode(image, w, divide, uwidth, base), b + 104;
    var v0, v2 := Vm(b, [u] + ds, rs), Vm(b + 24, [q] + ds, rs);
    var v3 := Vm(b + 32, (if q == 0 then [q] else [q, q]) + ds, rs);
    FourCells(image, b, code, 0);
    FourCells(image, b, code, 4);
    assert [q] + ([q] + ds) == [q, q] + ds;
    QDupStep(image, w, b + 24, q, ds, rs);
    GoesOn(image, v0, v2, v3, b, hi, rs);
    if q == 0 {
      ZBranchStep(image, b + 32, 40, q, ds, rs);
      GoesOn(image, v0, v3, Vm(b + 80, ds, rs), b, hi, rs);
    } else {
      ZBranchStep(image, b + 32, 40, q, [q] + ds, rs);
      GoesOn(image, v0, v3, Vm(b + 48, [q] + ds, rs), b, hi, rs);
    }
  }

  /** The two ends of the body: one digit, or one more than the recursive call answers. */
  lemma WidthEnds(image: Image, w: Words, divide: int, uwidth: int, b: int, base: Word, n: Word, ds: seq<int>,
                  ret: int, rs: seq<int>)
    requires WidthThere(image, w, divide, uwidth, base) && b == uwidth + 8
    ensures Goes(image, Vm(b + 80, ds, [ret] + rs), Vm(ret, [1] + ds, rs), b, b + 104, [ret] + rs)
    ensures Goes(image, Vm(b + 56, [n] + ds, [ret] + rs), Vm(ret, [Wrap(n + 1)] + ds, rs), b, b + 104, [ret] + rs)
  {
    OwnWords(image, w);
    hide Standard, CodeAt, Step, Path;
    var code, hi, stack, n' := WidthCode(image, w, divide, uwidth, base), b + 104, [ret] + rs, Wrap(n + 1);
    FourCells(image, b, code, 4);
    FourCells(image, b, code, 8);
    FourCells(image, b, code, 12);
    LitStep(image, b + 80, 1, ds, stack);
    ExitStep(image, b + 96, [1] + ds, ret, rs);
    IncrStep(image, w, b + 56, n, ds, stack);
    JumpStep(image, b + 64, 24, [n'] + ds, stack);
    ExitStep(image, b + 96, [n'] + ds, ret, rs);
    var v0, v1 := Vm(b + 80, ds, stack), Vm(b + 56, [n] + ds, stack);
    Stays(image, v0, b, hi, stack);
    GoesOn(image, v0, v0, Vm(b + 96, [1] + ds, stack), b, hi, stack);
    GoesOn(image, v0, Vm(b + 96, [1] + ds, stack), Vm(ret, [1] + ds, rs), b, hi, stack);
    Stays(image, v1, b, hi, stack);
    GoesOn(image, v1, v1, Vm(b + 64, [n'] + ds, stack), b, hi, stack);
    GoesOn(image, v1, Vm(b + 64, [n'] + ds, stack), Vm(b + 96, [n'] + ds, stack), b, hi, stack);
    GoesOn(image, v1, Vm(b + 96, [n'] + ds, stack), Vm(ret, [n'] + ds, rs), b, hi, stack);
  }

  /** The recursive word, called from a cell, leaves the number of digits of every unsigned number. */
  lemma {:induction false} Width(image: Image, w: Words, divide: int, uwidth: int, a: int, u: Word, base: Word,
                                 ds: seq<int>, rs: seq<int>)
    requires WidthThere(image, w, divide, uwidth, base) && Has(image, a, uwidth)
    ensures Goes(image, Vm(a, [u] + ds, rs), Vm(a + 8, [|Digits(u, base)|] + ds, rs), a, a + 8, rs)
    decreases u
  {
    DivModUnsigned(u, base);
    WidthIsLength(u, base);
    var b, ret, v0 := uwidth + 8, [a + 8] + rs, Vm(a, [u] + ds, rs);
    WidthCells(image, w, divide, uwidth, base);
    CallStep(image, a, uwidth, [u] + ds, rs);
    hide WidthThere, Step, Path, CodeAt;
    WidthTest(image, w, divide, uwidth, b, u, base, u % base, u / base, ds, ret);
    Stays(image, v0, a, a + 8, rs);
    GoesOn(image, v0, v0, Vm(b, [u] + ds, ret), a, a + 8, rs);
    var q, end := u / base, Vm(a + 8, [|Digits(u, base)|] + ds, rs);
    if q == 0 {
      WidthEnds(image, w, divide, uwidth, b, base, 0, ds, a + 8, rs);
      GoesJoin(image, Vm(b, [u] + ds, ret), Vm(b + 80, ds, ret), end, b, b + 104, ret);
    } else {
      Width(image, w, divide, uwidth, b + 48, q, base, ds, ret);
      WidthIsLength(q, base);
      WidthBound(q, base);
      var k := |Digits(q, base)|;
      WidthEnds(image, w, divide, uwidth, b, base, k, ds, a + 8, rs);
      WrapSmall(k + 1);
      GoesWiden(image, Vm(b + 48, [q] + ds, ret), Vm(b + 56, [k] + ds, ret), b + 48, b + 56, ret, b, b + 104, ret);
      GoesJoin(image, Vm(b, [u] + ds, ret), Vm(b + 48, [q] + ds, ret), Vm(b + 56, [k] + ds, ret), b, b + 104, ret);
      GoesJoin(image, Vm(b, [u] + ds, ret), Vm(b + 56, [k] + ds, ret), end, b, b + 104, ret);
    }
    GoesWiden(image, Vm(b, [u] + ds, ret), end, b, b + 104, ret, a, a + 8, rs);
    GoesJoin(image, v0, Vm(b, [u] + ds, ret), end, a, a + 8, rs);
  }

  lemma WidthCells(image: Image, w: Words, divide: int, uwidth: int, base: Word)
    requires WidthThere(image, w, divide, uwidth, base)
    ensures Has(image, uwidth + 56, uwidth)
  {
    FourCells(image, uwidth + 8, WidthCode(image, w, divide, uwidth, base), 4);
  }

  // ----- the code is what the compiler makes of the words -------------------------------------------------

  lemma {:induction false} Cons(image: Image, item: Item, c: seq<Item>)
    ensures Tokens(image, [item] + c) == ItemTokens(image, item) + Tokens(image, c)
    ensures Compile(image, [item] + c) == CompileItem(image, item) + Compile(image, c)
  {
    assert ([item] + c)[1..] == c;
  }

  lemma {:induction false} Both(image: Image, x: seq<Item>, y: seq<Item>)
    ensures Tokens(image, x + y) == Tokens(image, x) + Tokens(image, y)
    ensures Compile(image, x + y) == Compile(image, x) + Compile(image, y)
  {
    if x == [] {
      assert x + y == y;
    } else {
      assert x == [x[0]] + x[1..] && x + y == [x[0]] + (x[1..] + y);
      Cons(image, x[0], x[1..]);
      Cons(image, x[0], x[1..] + y);
      Both(image, x[1..], y);
    }
  }

  lemma {:induction false} One(image: Image, item: Item)
    ensures Tokens(image, [item]) == ItemTokens(image, item) && Compile(image, [item]) == CompileItem(image, item)
  {
    Cons(image, item, []);
    assert [item] + [] == [item];
  }

  lemma {:induction false} TwoItems(image: Image, x: Item, y: Item)
    ensures Tokens(image, [x, y]) == ItemTokens(image, x) + ItemTokens(image, y)
    ensures Compile(image, [x, y]) == CompileItem(image, x) + CompileItem(image, y)
  {
    Cons(image, x, [y]);
    One(image, y);
    assert [x] + [y] == [x, y];
  }

  lemma {:induction false} ThreeItems(image: Image, x: Item, y: Item, z: Item)
    ensures Tokens(image, [x, y, z]) == ItemTokens(image, x) + ItemTokens(image, y) + ItemTokens(image, z)
    ensures Compile(image, [x, y, z]) == CompileItem(image, x) + CompileItem(image, y) + CompileItem(image, z)
  {
    Cons(image, x, [y, z]);
    TwoItems(image, y, z);
    assert [x] + [y, z] == [x, y, z];
  }

  /** ABS, word by word. */
  lemma {:induction false} AbsCompiled(image: Image, w: Words, negate: int, s: Compiling)
    ensures ProcessAll(image, s, [TWord(w.dup), TWord(w.zlt), TIf, TWord(negate), TThen])
         == Some(Add(s, AbsCode(image, w, negate)))
  {
    var c := [Word(w.dup), Word(w.zlt), If([Word(negate)])];
    OnePass(image, s, c);
    One(image, Word(negate));
    ThreeItems(image, c[0], c[1], c[2]);
    assert Tokens(image, c) == [TWord(w.dup), TWord(w.zlt), TIf, TWord(negate), TThen];
    assert Compile(image, c) == AbsCode(image, w, negate);
  }

  /** The counting loop. */
  lemma {:induction false} CountCompiled(image: Image, w: Words, s: Compiling)
    ensures ProcessAll(image, s, [TBegin, TWord(w.dup), TWord(w.zgt), TWhile, TWord(w.swap), TWord(w.incr),
                                  TWord(w.swap), TWord(w.decr), TRepeat, TWord(w.drop)])
         == Some(Add(s, CountCode(image, w)))
  {
    var cond := [Word(w.dup), Word(w.zgt)];
    var body := [Word(w.swap), Word(w.incr), Word(w.swap), Word(w.decr)];
    var c := [While(cond, body), Word(w.drop)];
    OnePass(image, s, c);
    TwoItems(image, cond[0], cond[1]);
    ThreeItems(image, body[1], body[2], body[3]);
    Cons(image, body[0], body[1..]);
    assert body == [body[0]] + body[1..] && body[1..] == [body[1], body[2], body[3]];
    TwoItems(image, c[0], c[1]);
    assert Tokens(image, c) == [TBegin, TWord(w.dup), TWord(w.zgt), TWhile, TWord(w.swap), TWord(w.incr),
                                TWord(w.swap), TWord(w.decr), TRepeat, TWord(w.drop)];
    assert Compile(image, c) == CountCode(image, w);
  }

  /** The two loops that count down to 0. */
  lemma {:induction false} UntilCompiled(image: Image, w: Words, s: Compiling)
    ensures ProcessAll(image, s, [TBegin, TWord(w.decr), TWord(w.dup), TWord(w.zequ), TUntil])
         == Some(Add(s, UntilCode(image, w)))
  {
    var body := [Word(w.decr), Word(w.dup), Word(w.zequ)];
    OnePass(image, s, [Until(body)]);
    ThreeItems(image, body[0], body[1], body[2]);
    One(image, Until(body));
    assert Tokens(image, [Until(body)]) == [TBegin, TWord(w.decr), TWord(w.dup), TWord(w.zequ), TUntil];
    assert Compile(image, [Until(body)]) == UntilCode(image, w);
  }

  lemma {:induction false} AgainCompiled(image: Image, w: Words, s: Compiling)
    ensures ProcessAll(image, s, [TBegin, TWord(w.dup), TWord(w.zequ), TIf, TWord(image.exit), TThen, TWord(w.decr),
                                  TAgain])
         == Some(Add(s, AgainCode(image, w)))
  {
    var leave := If([Exit]);
    var body := [Word(w.dup), Word(w.zequ), leave, Word(w.decr)];
    OnePass(image, s, [Again(body)]);
    One(image, Exit);
    ThreeItems(image, body[1], body[2], body[3]);
    Cons(image, body[0], body[1..]);
    assert body == [body[0]] + body[1..] && body[1..] == [body[1], body[2], body[3]];
    One(image, Again(body));
    assert Tokens(image, [Again(body)]) == [TBegin, TWord(w.dup), TWord(w.zequ), TIf, TWord(image.exit), TThen,
                                            TWord(w.decr), TAgain];
    assert Compile(image, [Again(body)]) == AgainCode(image, w);
  }

  /** UWIDTH up to its EXIT. */
  lemma {:induction false} WidthCompiled(image: Image, w: Words, divide: int, uwidth: int, base: int, s: Compiling)
    ensures ProcessAll(image, s, [TNumber(base), TWord(divide), TWord(w.qdup), TIf, TWord(uwidth), TWord(w.incr),
                                  TElse, TNumber(1), TThen, TWord(image.exit)])
         == Some(Add(s, WidthCode(image, w, divide, uwidth, base)))
  {
    var front, back := [Literal(base), Word(divide)], WidthBack(w, uwidth);
    OnePass(image, s, front + back);
    Both(image, front, back);
    WidthFrontCode(image, divide, base);
    WidthBackCode(image, w, uwidth);
    hide Tokens, Compile;
    assert Tokens(image, front + back) == [TNumber(base), TWord(divide), TWord(w.qdup), TIf, TWord(uwidth),
                                           TWord(w.incr), TElse, TNumber(1), TThen, TWord(image.exit)];
    assert Compile(image, front + back) == WidthCode(image, w, divide, uwidth, base);
  }

  function WidthBack(w: Words, uwidth: int): seq<Item> {
    [Word(w.qdup), IfElse([Word(uwidth), Word(w.incr)], [Literal(1)]), Exit]
  }

  lemma {:induction false} WidthFrontCode(image: Image, divide: int, base: int)
    ensures Tokens(image, [Literal(base), Word(divide)]) == [TNumber(base), TWord(divide)]
    ensures Compile(image, [Literal(base), Word(divide)]) == [image.lit, base, divide]
  {
    TwoItems(image, Literal(base), Word(divide));
  }

  lemma {:induction false} WidthBackCode(image: Image, w: Words, uwidth: int)
    ensures Tokens(image, WidthBack(w, uwidth))
         == [TWord(w.qdup), TIf, TWord(uwidth), TWord(w.incr), TElse, TNumber(1), TThen, TWord(image.exit)]
    ensures Compile(image, WidthBack(w, uwidth))
         == [w.qdup, image.zbranch, 40, uwidth, w.incr, image.branch, 24, image.lit, 1, image.exit]
  {
    var c := WidthBack(w, uwidth);
    ChoiceCode(image, w, uwidth);
    ThreeItems(image, c[0], c[1], c[2]);
  }

  lemma {:induction false} ChoiceCode(image: Image, w: Words, uwidth: int)
    ensures var choice := IfElse([Word(uwidth), Word(w.incr)], [Literal(1)]);
            && ItemTokens(image, choice) == [TIf, TWord(uwidth), TWord(w.incr), TElse, TNumber(1), TThen]
            && CompileItem(image, choice) == [image.zbranch, 40, uwidth, w.incr, image.branch, 24, image.lit, 1]
  {
    TwoItems(image, Word(uwidth), Word(w.incr));
    One(image, Literal(1));
  }

  /** There is such a machine. */
  lemma StandardExists(cells: map<int, int>) returns (image: Image, w: Words)
    requires forall a :: a in cells ==> a >= 1000
    ensures Standard(image, w) && forall a :: a in cells ==> Has(image, a, cells[a])
  {
    hide StackWord;
    w := Words(10, 11, 12, 13, 14, 15, 16, 17, 18, 19, 20);
    var codes := {2, 3, 4, 5, 10, 11, 12, 13, 14, 15, 16, 17, 18, 19, 20};
    var own := map c | c in codes :: c;
    image := Image(own + cells, CODE_EXIT, CODE_LIT, CODE_BRANCH, CODE_ZBRANCH, StackWord);
    assert forall c :: c in codes ==> Has(image, c, c);
  }
}
