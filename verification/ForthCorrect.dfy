/** Compiler correctness: compiled cells on the threaded-code machine mean what the source means. */
module ForthCorrect {
  import opened Wrappers
  import opened ForthMachine

  /** The machine is still inside the code from lo up to hi, or in a word called from it. */
  predicate Inside(vm: Vm, lo: int, hi: int, rs: seq<int>) {
    (vm.rs == rs && lo <= vm.ip < hi) || |vm.rs| > |rs|
  }

  /** n steps lead from vm to end, each taken inside the code. */
  ghost predicate Path(image: Image, vm: Vm, n: nat, end: Vm, lo: int, hi: int, rs: seq<int>)
    decreases n
  {
    if n == 0 then vm == end
    else Inside(vm, lo, hi, rs) && Step(image, vm).Some? && Path(image, Step(image, vm).value, n - 1, end, lo, hi, rs)
  }

  lemma {:induction false} PathJoin(image: Image, a: Vm, n: nat, b: Vm, k: nat, c: Vm, lo: int, hi: int, rs: seq<int>)
    requires Path(image, a, n, b, lo, hi, rs) && Path(image, b, k, c, lo, hi, rs)
    ensures Path(image, a, n + k, c, lo, hi, rs)
    decreases n
  {
    if n > 0 {
      PathJoin(image, Step(image, a).value, n - 1, b, k, c, lo, hi, rs);
    }
  }

  /** A path inside a part of the code, or inside a called word, is a path inside the code. */
  lemma {:induction false} PathWiden(image: Image, a: Vm, n: nat, b: Vm, lo: int, hi: int, rs: seq<int>,
                                     lo': int, hi': int, rs': seq<int>)
    requires Path(image, a, n, b, lo, hi, rs)
    requires |rs| > |rs'| || (rs == rs' && lo' <= lo && hi <= hi')
    ensures Path(image, a, n, b, lo', hi', rs')
    decreases n
  {
    if n > 0 {
      PathWiden(image, Step(image, a).value, n - 1, b, lo, hi, rs, lo', hi', rs');
    }
  }

  lemma {:induction false} PathStep(image: Image, a: Vm, n: nat, b: Vm, lo: int, hi: int, rs: seq<int>)
    requires Inside(a, lo, hi, rs) && Step(image, a).Some?
    requires Path(image, Step(image, a).value, n, b, lo, hi, rs)
    ensures Path(image, a, n + 1, b, lo, hi, rs)
  {
  }

  /** What the machine does in n steps from the start of code that stands for a program whose meaning
      is r: it ends at address `after`, or at the return address, or stuck inside the code, or it is
      still inside after at least `fuel` steps. */
  ghost predicate Matches(image: Image, r: Result, n: nat, end: Vm, after: int, lo: int, hi: int, rs: seq<int>,
                          fuel: nat) {
    match r
    case Done(ds) => end == Vm(after, ds, rs)
    case Exited(ds) => rs != [] && end == Vm(rs[0], ds, rs[1..])
    case Failed => Inside(end, lo, hi, rs) && Step(image, end) == None
    case OutOfFuel => n >= fuel && Inside(end, lo, hi, rs)
  }

  /** Code that stands in two parts, the second from b on. */
  lemma {:induction false} CodeAtSplit(image: Image, a: int, x: seq<int>, b: int, y: seq<int>)
    requires CodeAt(image, a, x + y) && b == a + 8 * |x|
    ensures CodeAt(image, a, x) && CodeAt(image, b, y)
    decreases x
  {
    if x == [] {
      assert x + y == y;
    } else {
      assert (x + y)[1..] == x[1..] + y;
      CodeAtSplit(image, a + 8, x[1..], b, y);
    }
  }

  lemma CodeAtTwo(image: Image, a: int, x: int, y: int)
    requires CodeAt(image, a, [x, y])
    ensures a in image.cells && image.cells[a] == x && a + 8 in image.cells && image.cells[a + 8] == y
  {
    assert [x, y][1..] == [y];
    assert CodeAt(image, a + 8, [y]);
  }

  /** A program of several items: the path of the first, then the path of the rest. */
  lemma {:induction false} Simulate(image: Image, defs: Definitions, c: seq<Item>, a: int, ds: seq<int>,
                                    rs: seq<int>, fuel: nat)
    returns (n: nat, end: Vm)
    requires WellFormed(image, defs) && Plain(image, defs, c) && rs != []
    requires CodeAt(image, a, Compile(image, c))
    ensures Path(image, Vm(a, ds, rs), n, end, a, a + 8 * |Compile(image, c)|, rs)
    ensures Matches(image, Eval(image, defs, c, ds, fuel), n, end, a + 8 * |Compile(image, c)|,
                    a, a + 8 * |Compile(image, c)|, rs, fuel)
    decreases fuel, c, 0
  {
    var hi := a + 8 * |Compile(image, c)|;
    if c == [] {
      n, end := 0, Vm(a, ds, rs);
    } else {
      var x, y := CompileItem(image, c[0]), Compile(image, c[1..]);
      assert Compile(image, c) == x + y;
      var mid := a + 8 * |x|;
      CodeAtSplit(image, a, x, mid, y);
      n, end := SimulateItem(image, defs, c[0], a, ds, rs, fuel, mid);
      PathWiden(image, Vm(a, ds, rs), n, end, a, mid, rs, a, hi, rs);
      var r := EvalItem(image, defs, c[0], ds, fuel);
      if r.Done? {
        var n1, end1 := Simulate(image, defs, c[1..], mid, r.ds, rs, fuel);
        PathWiden(image, end, n1, end1, mid, hi, rs, a, hi, rs);
        PathJoin(image, Vm(a, ds, rs), n, end, n1, end1, a, hi, rs);
        n, end := n + n1, end1;
      }
    }
  }

  /** The same for code that is part of a larger piece, from a up to hi. */
  lemma {:induction false} SimulatePart(image: Image, defs: Definitions, c: seq<Item>, lo: int, ds: seq<int>,
                                        rs: seq<int>, fuel: nat,
                                        a: int, hi: int)
    returns (n: nat, end: Vm)
    requires WellFormed(image, defs) && Plain(image, defs, c) && rs != []
    requires CodeAt(image, lo, Compile(image, c)) && a <= lo && lo + 8 * |Compile(image, c)| <= hi
    ensures Path(image, Vm(lo, ds, rs), n, end, a, hi, rs)
    ensures Matches(image, Eval(image, defs, c, ds, fuel), n, end, lo + 8 * |Compile(image, c)|, a, hi, rs, fuel)
    decreases fuel, c, 1
  {
    n, end := Simulate(image, defs, c, lo, ds, rs, fuel);
    PathWiden(image, Vm(lo, ds, rs), n, end, lo, lo + 8 * |Compile(image, c)|, rs, a, hi, rs);
  }

  lemma {:induction false} SimulateItem(image: Image, defs: Definitions, item: Item, a: int, ds: seq<int>,
                                        rs: seq<int>, fuel: nat, hi: int)
    returns (n: nat, end: Vm)
    requires WellFormed(image, defs) && PlainItem(image, defs, item) && rs != []
    requires hi == a + 8 * |CompileItem(image, item)|
    requires CodeAt(image, a, CompileItem(image, item))
    ensures Path(image, Vm(a, ds, rs), n, end, a, hi, rs)
    ensures Matches(image, EvalItem(image, defs, item, ds, fuel), n, end, hi, a, hi, rs, fuel)
    decreases fuel, item, 2
  {
    match item
    case Word(xt) => n, end := SimulateWord(image, defs, xt, a, ds, rs, fuel);
    case Literal(k) => n, end := 1, Vm(a + 16, [k] + ds, rs); SimulateSmall(image, item, a, ds, rs);
    case Exit => n, end := 1, Vm(rs[0], ds, rs[1..]); SimulateSmall(image, item, a, ds, rs);
    case If(yes) =>
      var y := Compile(image, yes);
      CodeAtSplit(image, a, [image.zbranch, 8 * (|y| + 1)], a + 16, y);
      n, end := SimulateIf(image, defs, yes, 8 * (|y| + 1), a, ds, rs, fuel, hi);
    case IfElse(yes, no) =>
      var over := IfElseLayout(image, yes, no, a, hi);
      n, end := SimulateIfElse(image, defs, yes, no, over, a, ds, rs, fuel, hi);
    case Until(body) =>
      var b := Compile(image, body);
      CodeAtSplit(image, a, b, hi - 16, [image.zbranch, -8 * (|b| + 1)]);
      n, end := SimulateUntil(image, defs, body, -8 * (|b| + 1), a, ds, rs, fuel, hi);
    case While(cond, body) =>
      var mid := WhileLayout(image, cond, body, a, hi);
      n, end := SimulateWhile(image, defs, cond, body, mid, a, ds, rs, fuel, hi);
    case Again(body) =>
      var b := Compile(image, body);
      CodeAtSplit(image, a, b, hi - 16, [image.branch, -8 * (|b| + 1)]);
      n, end := SimulateAgain(image, defs, body, -8 * (|b| + 1), a, ds, rs, fuel, hi);
  }

  /** A branch cell pair, code, a second pair and more code, one after the other. */
  lemma {:induction false} FourParts(image: Image, a: int, p: seq<int>, b: int, q: seq<int>, c: int, r: seq<int>,
                                     d: int, t: seq<int>)
    requires CodeAt(image, a, p + q + r + t)
    requires b == a + 8 * |p| && c == b + 8 * |q| && d == c + 8 * |r|
    ensures CodeAt(image, a, p) && CodeAt(image, b, q) && CodeAt(image, c, r) && CodeAt(image, d, t)
  {
    CodeAtSplit(image, a, p + q + r, d, t);
    CodeAtSplit(image, a, p + q, c, r);
    CodeAtSplit(image, a, p, b, q);
  }

  /** Where the parts of an IF with ELSE stand; `over` is the BRANCH between them. */
  lemma IfElseLayout(image: Image, yes: seq<Item>, no: seq<Item>, a: int, hi: int) returns (over: int)
    requires hi == a + 8 * |CompileItem(image, IfElse(yes, no))|
    requires CodeAt(image, a, CompileItem(image, IfElse(yes, no)))
    ensures over == a + 16 + 8 * |Compile(image, yes)| && hi == over + 16 + 8 * |Compile(image, no)|
    ensures CodeAt(image, a, [image.zbranch, over + 8 - a])
    ensures CodeAt(image, a + 16, Compile(image, yes))
    ensures CodeAt(image, over, [image.branch, hi - over - 8])
    ensures CodeAt(image, over + 16, Compile(image, no))
  {
    var y, z := Compile(image, yes), Compile(image, no);
    over := a + 16 + 8 * |y|;
    FourParts(image, a, [image.zbranch, 8 * (|y| + 3)], a + 16, y, over, [image.branch, 8 * (|z| + 1)], over + 16, z);
  }

  /** Where the parts of a WHILE loop stand; `mid` is its 0BRANCH, and its BRANCH ends it. */
  lemma WhileLayout(image: Image, cond: seq<Item>, body: seq<Item>, a: int, hi: int) returns (mid: int)
    requires hi == a + 8 * |CompileItem(image, While(cond, body))|
    requires CodeAt(image, a, CompileItem(image, While(cond, body)))
    ensures mid == a + 8 * |Compile(image, cond)| && hi == mid + 32 + 8 * |Compile(image, body)|
    ensures CodeAt(image, a, Compile(image, cond))
    ensures CodeAt(image, mid, [image.zbranch, hi - mid - 8])
    ensures CodeAt(image, mid + 16, Compile(image, body))
    ensures CodeAt(image, hi - 16, [image.branch, a - hi + 8])
  {
    var k, b := Compile(image, cond), Compile(image, body);
    mid := a + 8 * |k|;
    FourParts(image, a, k, mid, [image.zbranch, 8 * (|b| + 3)], mid + 16, b,
              hi - 16, [image.branch, -8 * (|k| + |b| + 3)]);
  }

  /** LIT and EXIT each take one step. */
  lemma {:induction false} SimulateSmall(image: Image, item: Item, a: int, ds: seq<int>, rs: seq<int>)
    requires image.exit in image.cells && image.cells[image.exit] == CODE_EXIT
    requires image.lit in image.cells && image.cells[image.lit] == CODE_LIT
    requires (item.Literal? || item.Exit?) && rs != []
    requires CodeAt(image, a, CompileItem(image, item))
    ensures var end := if item.Exit? then Vm(rs[0], ds, rs[1..]) else Vm(a + 8 * 2, [item.n] + ds, rs);
            Path(image, Vm(a, ds, rs), 1, end, a, a + 8 * |CompileItem(image, item)|, rs)
  {
    var code := CompileItem(image, item);
    if item.Literal? {
      CodeAtTwo(image, a, image.lit, item.n);
    }
    var end := if item.Exit? then Vm(rs[0], ds, rs[1..]) else Vm(a + 8 * 2, [item.n] + ds, rs);
    assert Step(image, Vm(a, ds, rs)) == Some(end);
    PathStep(image, Vm(a, ds, rs), 0, end, a, a + 8 * |code|, rs);
  }

  /** A primitive takes one step; a defined word runs through DOCOL, its body and EXIT. */
  lemma {:induction false} SimulateWord(image: Image, defs: Definitions, xt: int, a: int, ds: seq<int>, rs: seq<int>,
                                        fuel: nat)
    returns (n: nat, end: Vm)
    requires WellFormed(image, defs) && PlainItem(image, defs, Word(xt)) && rs != []
    requires CodeAt(image, a, [xt])
    ensures Path(image, Vm(a, ds, rs), n, end, a, a + 8, rs)
    ensures Matches(image, EvalItem(image, defs, Word(xt), ds, fuel), n, end, a + 8, a, a + 8, rs, fuel)
    decreases fuel, Word(xt), 1
  {
    var start, hi := Vm(a, ds, rs), a + 8;
    if xt !in defs {
      match Step(image, start)
      case None => n, end := 0, start;
      case Some(vm) => n, end := 1, vm; PathStep(image, start, 0, vm, a, hi, rs);
    } else if fuel == 0 {
      n, end := 0, start;
    } else {
      var body := Compile(image, defs[xt]);
      var lo, ret := xt + 8, [hi] + rs;
      var top := lo + 8 * |body|;
      CodeAtSplit(image, lo, body, top, [image.exit]);
      n, end := Simulate(image, defs, defs[xt], lo, ds, ret, fuel - 1);
      PathWiden(image, Vm(lo, ds, ret), n, end, lo, top, ret, a, hi, rs);
      var r := Eval(image, defs, defs[xt], ds, fuel - 1);
      if r.Done? {
        var back := Vm(hi, r.ds, rs);
        assert Step(image, end) == Some(back);
        PathStep(image, end, 0, back, a, hi, rs);
        PathJoin(image, Vm(lo, ds, ret), n, end, 1, back, a, hi, rs);
        n, end := n + 1, back;
      }
      PathStep(image, start, n, end, a, hi, rs);
      n := n + 1;
    }
  }

  /** BRANCH jumps; 0BRANCH pops a flag and jumps when it is zero, or else goes on after the offset. */
  lemma {:induction false} BranchStep(image: Image, code: int, offset: int, a: int, target: int, next: int,
                                      ds: seq<int>, rs: seq<int>)
    requires CodeAt(image, a, [code, offset]) && code in image.cells
    requires target == a + 8 + offset && next == a + 16
    requires image.cells[code] == CODE_ZBRANCH || image.cells[code] == CODE_BRANCH
    ensures image.cells[code] == CODE_BRANCH ==> Step(image, Vm(a, ds, rs)) == Some(Vm(target, ds, rs))
    ensures image.cells[code] == CODE_ZBRANCH ==>
              Step(image, Vm(a, ds, rs))
              == if ds == [] then None else Some(Vm(if ds[0] == 0 then target else next, ds[1..], rs))
  {
    CodeAtTwo(image, a, code, offset);
  }

  lemma {:induction false} SimulateIf(image: Image, defs: Definitions, yes: seq<Item>, offset: int,
                                      a: int, ds: seq<int>, rs: seq<int>, fuel: nat, hi: int)
    returns (n: nat, end: Vm)
    requires WellFormed(image, defs) && Plain(image, defs, yes) && rs != []
    requires CodeAt(image, a, [image.zbranch, offset]) && CodeAt(image, a + 16, Compile(image, yes))
    requires hi == a + 8 + offset == a + 16 + 8 * |Compile(image, yes)|
    ensures Path(image, Vm(a, ds, rs), n, end, a, hi, rs)
    ensures Matches(image, EvalItem(image, defs, If(yes), ds, fuel), n, end, hi, a, hi, rs, fuel)
    decreases fuel, If(yes), 1
  {
    BranchStep(image, image.zbranch, offset, a, hi, a + 16, ds, rs);
    if ds == [] {
      n, end := 0, Vm(a, ds, rs);
    } else if ds[0] == 0 {
      n, end := 1, Vm(hi, ds[1..], rs);
      PathStep(image, Vm(a, ds, rs), 0, end, a, hi, rs);
    } else {
      n, end := SimulatePart(image, defs, yes, a + 16, ds[1..], rs, fuel, a, hi);
      PathStep(image, Vm(a, ds, rs), n, end, a, hi, rs);
      n := n + 1;
    }
  }

  /** After a part of the code has run from a to b, one more machine step, then a further path. */
  lemma PathThen(image: Image, a: Vm, n: nat, b: Vm, next: Vm, k: nat, c: Vm, lo: int, hi: int, rs: seq<int>)
    requires Path(image, a, n, b, lo, hi, rs) && Inside(b, lo, hi, rs)
    requires Step(image, b) == Some(next) && Path(image, next, k, c, lo, hi, rs)
    ensures Path(image, a, n + (k + 1), c, lo, hi, rs)
  {
    PathStep(image, b, k, c, lo, hi, rs);
    PathJoin(image, a, n, b, k + 1, c, lo, hi, rs);
  }

  /** The true part of an IF with ELSE, and the BRANCH over the false part. */
  lemma {:induction false} SimulateYes(image: Image, defs: Definitions, yes: seq<Item>, over: int,
                                       a: int, ds: seq<int>, rs: seq<int>, fuel: nat, hi: int)
    returns (n: nat, end: Vm)
    requires WellFormed(image, defs) && Plain(image, defs, yes) && rs != []
    requires CodeAt(image, a + 16, Compile(image, yes)) && CodeAt(image, over, [image.branch, hi - over - 8])
    requires over == a + 16 + 8 * |Compile(image, yes)| && over + 16 <= hi
    ensures Path(image, Vm(a + 16, ds, rs), n, end, a, hi, rs)
    ensures Matches(image, Eval(image, defs, yes, ds, fuel), n, end, hi, a, hi, rs, fuel)
    decreases fuel, yes, 2
  {
    n, end := SimulatePart(image, defs, yes, a + 16, ds, rs, fuel, a, hi);
    var r := Eval(image, defs, yes, ds, fuel);
    if r.Done? {
      BranchStep(image, image.branch, hi - over - 8, over, hi, over + 16, r.ds, rs);
      PathThen(image, Vm(a + 16, ds, rs), n, end, Vm(hi, r.ds, rs), 0, Vm(hi, r.ds, rs), a, hi, rs);
      n, end := n + 1, Vm(hi, r.ds, rs);
    }
  }

  lemma {:induction false} SimulateIfElse(image: Image, defs: Definitions, yes: seq<Item>, no: seq<Item>, over: int,
                                          a: int, ds: seq<int>, rs: seq<int>, fuel: nat, hi: int)
    returns (n: nat, end: Vm)
    requires WellFormed(image, defs) && Plain(image, defs, yes) && Plain(image, defs, no) && rs != []
    requires over == a + 16 + 8 * |Compile(image, yes)| && hi == over + 16 + 8 * |Compile(image, no)|
    requires CodeAt(image, a, [image.zbranch, over + 8 - a]) && CodeAt(image, a + 16, Compile(image, yes))
    requires CodeAt(image, over, [image.branch, hi - over - 8]) && CodeAt(image, over + 16, Compile(image, no))
    ensures Path(image, Vm(a, ds, rs), n, end, a, hi, rs)
    ensures Matches(image, EvalItem(image, defs, IfElse(yes, no), ds, fuel), n, end, hi, a, hi, rs, fuel)
    decreases fuel, IfElse(yes, no), 1
  {
    BranchStep(image, image.zbranch, over + 8 - a, a, over + 16, a + 16, ds, rs);
    if ds == [] {
      n, end := 0, Vm(a, ds, rs);
    } else if ds[0] != 0 {
      n, end := SimulateYes(image, defs, yes, over, a, ds[1..], rs, fuel, hi);
      PathStep(image, Vm(a, ds, rs), n, end, a, hi, rs);
      n := n + 1;
    } else {
      n, end := SimulatePart(image, defs, no, over + 16, ds[1..], rs, fuel, a, hi);
      PathStep(image, Vm(a, ds, rs), n, end, a, hi, rs);
      n := n + 1;
    }
  }

  lemma {:induction false} SimulateUntil(image: Image, defs: Definitions, body: seq<Item>, offset: int,
                                         a: int, ds: seq<int>, rs: seq<int>, fuel: nat, hi: int)
    returns (n: nat, end: Vm)
    requires WellFormed(image, defs) && Plain(image, defs, body) && rs != []
    requires CodeAt(image, a, Compile(image, body)) && CodeAt(image, hi - 16, [image.zbranch, offset])
    requires hi == a + 8 * |Compile(image, body)| + 16 && a == hi - 8 + offset
    ensures Path(image, Vm(a, ds, rs), n, end, a, hi, rs)
    ensures Matches(image, EvalItem(image, defs, Until(body), ds, fuel), n, end, hi, a, hi, rs, fuel)
    decreases fuel, Until(body), 1
  {
    n, end := SimulatePart(image, defs, body, a, ds, rs, fuel, a, hi);
    var r := Eval(image, defs, body, ds, fuel);
    if r.Done? {
      BranchStep(image, image.zbranch, offset, hi - 16, a, hi, r.ds, rs);
      if r.ds != [] && r.ds[0] != 0 {
        PathThen(image, Vm(a, ds, rs), n, end, Vm(hi, r.ds[1..], rs), 0, Vm(hi, r.ds[1..], rs), a, hi, rs);
        n, end := n + 1, Vm(hi, r.ds[1..], rs);
      } else if r.ds != [] && fuel > 0 {
        var k, end1 := SimulateUntil(image, defs, body, offset, a, r.ds[1..], rs, fuel - 1, hi);
        PathThen(image, Vm(a, ds, rs), n, end, Vm(a, r.ds[1..], rs), k, end1, a, hi, rs);
        n, end := n + (k + 1), end1;
      }
    }
  }

  lemma {:induction false} SimulateAgain(image: Image, defs: Definitions, body: seq<Item>, offset: int,
                                         a: int, ds: seq<int>, rs: seq<int>, fuel: nat, hi: int)
    returns (n: nat, end: Vm)
    requires WellFormed(image, defs) && Plain(image, defs, body) && rs != []
    requires CodeAt(image, a, Compile(image, body)) && CodeAt(image, hi - 16, [image.branch, offset])
    requires hi == a + 8 * |Compile(image, body)| + 16 && a == hi - 8 + offset
    ensures Path(image, Vm(a, ds, rs), n, end, a, hi, rs)
    ensures Matches(image, EvalItem(image, defs, Again(body), ds, fuel), n, end, hi, a, hi, rs, fuel)
    decreases fuel, Again(body), 1
  {
    n, end := SimulatePart(image, defs, body, a, ds, rs, fuel, a, hi);
    var r := Eval(image, defs, body, ds, fuel);
    if r.Done? && fuel > 0 {
      BranchStep(image, image.branch, offset, hi - 16, a, hi, r.ds, rs);
      var k, end1 := SimulateAgain(image, defs, body, offset, a, r.ds, rs, fuel - 1, hi);
      PathThen(image, Vm(a, ds, rs), n, end, Vm(a, r.ds, rs), k, end1, a, hi, rs);
      n, end := n + (k + 1), end1;
    }
  }

  lemma {:induction false} SimulateWhile(image: Image, defs: Definitions, cond: seq<Item>, body: seq<Item>, mid: int,
                                         a: int, ds: seq<int>, rs: seq<int>, fuel: nat, hi: int)
    returns (n: nat, end: Vm)
    requires WellFormed(image, defs) && Plain(image, defs, cond) && Plain(image, defs, body) && rs != []
    requires mid == a + 8 * |Compile(image, cond)| && hi == mid + 32 + 8 * |Compile(image, body)|
    requires CodeAt(image, a, Compile(image, cond)) && CodeAt(image, mid, [image.zbranch, hi - mid - 8])
    requires CodeAt(image, mid + 16, Compile(image, body)) && CodeAt(image, hi - 16, [image.branch, a - hi + 8])
    ensures Path(image, Vm(a, ds, rs), n, end, a, hi, rs)
    ensures Matches(image, EvalItem(image, defs, While(cond, body), ds, fuel), n, end, hi, a, hi, rs, fuel)
    decreases fuel, While(cond, body), 1
  {
    n, end := SimulatePart(image, defs, cond, a, ds, rs, fuel, a, hi);
    var r := Eval(image, defs, cond, ds, fuel);
    if r.Done? {
      BranchStep(image, image.zbranch, hi - mid - 8, mid, hi, mid + 16, r.ds, rs);
      if r.ds != [] && r.ds[0] == 0 {
        assert EvalItem(image, defs, While(cond, body), ds, fuel) == Done(r.ds[1..]);
        PathThen(image, Vm(a, ds, rs), n, end, Vm(hi, r.ds[1..], rs), 0, Vm(hi, r.ds[1..], rs), a, hi, rs);
        n, end := n + 1, Vm(hi, r.ds[1..], rs);
      } else if r.ds != [] {
        assert EvalItem(image, defs, While(cond, body), ds, fuel)
            == WhileRest(image, defs, cond, body, r.ds[1..], fuel);
        var k, end1 := SimulateWhileBody(image, defs, cond, body, mid, a, r.ds[1..], rs, fuel, hi);
        PathThen(image, Vm(a, ds, rs), n, end, Vm(mid + 16, r.ds[1..], rs), k, end1, a, hi, rs);
        n, end := n + (k + 1), end1;
      }
    }
  }

  /** What is left of a WHILE loop once its condition has held. */
  function WhileRest(image: Image, defs: Definitions, cond: seq<Item>, body: seq<Item>, ds: seq<int>,
                     fuel: nat): Result {
    match Eval(image, defs, body, ds, fuel)
    case Done(ds2) => if fuel == 0 then OutOfFuel else EvalItem(image, defs, While(cond, body), ds2, fuel - 1)
    case r => r
  }

  /** The body of a WHILE loop, the BRANCH back, and the rounds after it. */
  lemma {:induction false} SimulateWhileBody(image: Image, defs: Definitions, cond: seq<Item>, body: seq<Item>,
                                             mid: int,
                                             a: int, ds: seq<int>, rs: seq<int>, fuel: nat, hi: int)
    returns (n: nat, end: Vm)
    requires WellFormed(image, defs) && Plain(image, defs, cond) && Plain(image, defs, body) && rs != []
    requires mid == a + 8 * |Compile(image, cond)| && hi == mid + 32 + 8 * |Compile(image, body)|
    requires CodeAt(image, a, Compile(image, cond)) && CodeAt(image, mid, [image.zbranch, hi - mid - 8])
    requires CodeAt(image, mid + 16, Compile(image, body)) && CodeAt(image, hi - 16, [image.branch, a - hi + 8])
    ensures Path(image, Vm(mid + 16, ds, rs), n, end, a, hi, rs)
    ensures Matches(image, WhileRest(image, defs, cond, body, ds, fuel), n, end, hi, a, hi, rs, fuel)
    decreases fuel, While(cond, body), 0
  {
    n, end := SimulatePart(image, defs, body, mid + 16, ds, rs, fuel, a, hi);
    var q := Eval(image, defs, body, ds, fuel);
    if q.Done? && fuel > 0 {
      BranchStep(image, image.branch, a - hi + 8, hi - 16, a, hi, q.ds, rs);
      var k, end1 := SimulateWhile(image, defs, cond, body, mid, a, q.ds, rs, fuel - 1, hi);
      PathThen(image, Vm(mid + 16, ds, rs), n, end, Vm(a, q.ds, rs), k, end1, a, hi, rs);
      n, end := n + (k + 1), end1;
    }
  }

  // ----- the theorem -------------------------------------------------------------------------------

  /** The machine has left the code, or cannot go on. */
  predicate Over(image: Image, vm: Vm, lo: int, hi: int, rs: seq<int>) {
    !Inside(vm, lo, hi, rs) || Step(image, vm) == None
  }

  /** The machine has one behaviour: a path that has left the code, or is stuck, is the longest there is. */
  lemma {:induction false} OnePath(image: Image, a: Vm, n: nat, x: Vm, k: nat, y: Vm, lo: int, hi: int, rs: seq<int>)
    requires Path(image, a, n, x, lo, hi, rs) && Path(image, a, k, y, lo, hi, rs)
    requires Over(image, x, lo, hi, rs)
    ensures k <= n && (k == n ==> x == y)
    ensures k < n ==> !Over(image, y, lo, hi, rs)
    decreases n
  {
    if n > 0 && k > 0 {
      OnePath(image, Step(image, a).value, n - 1, x, k - 1, y, lo, hi, rs);
    }
  }

  /** The first k steps of a path. */
  lemma {:induction false} PathPrefix(image: Image, a: Vm, n: nat, b: Vm, k: nat, lo: int, hi: int, rs: seq<int>)
    returns (mid: Vm)
    requires Path(image, a, n, b, lo, hi, rs) && k <= n
    ensures Path(image, a, k, mid, lo, hi, rs)
    ensures if k < n then Inside(mid, lo, hi, rs) else mid == b
    decreases n
  {
    if k == 0 {
      mid := a;
    } else {
      mid := PathPrefix(image, Step(image, a).value, n - 1, b, k - 1, lo, hi, rs);
    }
  }

  /** The machine, started at lo, leaves the code for the first time in state `out`. */
  ghost predicate Leaves(image: Image, start: Vm, lo: int, hi: int, out: Vm) {
    exists n :: Path(image, start, n, out, lo, hi, start.rs)
  }

  /** The program ends with stack ds, by running past its last item. */
  ghost predicate Ends(image: Image, defs: Definitions, c: seq<Item>, ds: seq<int>, ds': seq<int>) {
    exists fuel :: Eval(image, defs, c, ds, fuel) == Done(ds')
  }

  /** The program ends with stack ds by executing EXIT. */
  ghost predicate Returns(image: Image, defs: Definitions, c: seq<Item>, ds: seq<int>, ds': seq<int>) {
    exists fuel :: Eval(image, defs, c, ds, fuel) == Exited(ds')
  }

  /** When the machine has left the code, the source ended accordingly. */
  lemma {:induction false} LeavesMeansEnds(image: Image, defs: Definitions, c: seq<Item>, a: int, ds: seq<int>,
                                           rs: seq<int>, out: Vm)
    requires WellFormed(image, defs) && Plain(image, defs, c) && rs != []
    requires CodeAt(image, a, Compile(image, c))
    requires Leaves(image, Vm(a, ds, rs), a, a + 8 * |Compile(image, c)|, out)
    requires !Inside(out, a, a + 8 * |Compile(image, c)|, rs)
    ensures || (Ends(image, defs, c, ds, out.ds) && out == Vm(a + 8 * |Compile(image, c)|, out.ds, rs))
            || (Returns(image, defs, c, ds, out.ds) && out == Vm(rs[0], out.ds, rs[1..]))
  {
    var hi := a + 8 * |Compile(image, c)|;
    var n :| Path(image, Vm(a, ds, rs), n, out, a, hi, rs);
    var fuel := n + 1;
    var k, end := Simulate(image, defs, c, a, ds, rs, fuel);
    OnePath(image, Vm(a, ds, rs), n, out, k, end, a, hi, rs);
  }

  /** Compiler correctness.  For every program, stack and return stack: the compiled code arrives at
      the cell after it with stack ds' exactly when the source ends with ds', and jumps to the return
      address with stack ds' exactly when the source leaves by EXIT with ds'. */
  lemma {:induction false} CompilerCorrect(image: Image, defs: Definitions, c: seq<Item>, a: int, ds: seq<int>,
                                           rs: seq<int>, ds': seq<int>)
    requires WellFormed(image, defs) && Plain(image, defs, c) && rs != []
    requires CodeAt(image, a, Compile(image, c))
    ensures var hi := a + 8 * |Compile(image, c)|;
            && (Leaves(image, Vm(a, ds, rs), a, hi, Vm(hi, ds', rs)) <==> Ends(image, defs, c, ds, ds'))
            && (Leaves(image, Vm(a, ds, rs), a, hi, Vm(rs[0], ds', rs[1..])) <==> Returns(image, defs, c, ds, ds'))
  {
    var hi := a + 8 * |Compile(image, c)|;
    if Ends(image, defs, c, ds, ds') {
      var fuel: nat :| Eval(image, defs, c, ds, fuel) == Done(ds');
      var n, end := Simulate(image, defs, c, a, ds, rs, fuel);
    }
    if Returns(image, defs, c, ds, ds') {
      var fuel: nat :| Eval(image, defs, c, ds, fuel) == Exited(ds');
      var n, end := Simulate(image, defs, c, a, ds, rs, fuel);
    }
    if Leaves(image, Vm(a, ds, rs), a, hi, Vm(hi, ds', rs)) {
      LeavesMeansEnds(image, defs, c, a, ds, rs, Vm(hi, ds', rs));
    }
    if Leaves(image, Vm(a, ds, rs), a, hi, Vm(rs[0], ds', rs[1..])) {
      LeavesMeansEnds(image, defs, c, a, ds, rs, Vm(rs[0], ds', rs[1..]));
    }
  }

  /** n steps lead the machine, started at lo, to a state inside the code from which it has no step. */
  ghost predicate SticksAfter(image: Image, start: Vm, n: nat, lo: int, hi: int) {
    exists vm :: Path(image, start, n, vm, lo, hi, start.rs)
      && Inside(vm, lo, hi, start.rs) && Step(image, vm) == None
  }

  /** The machine, started at lo, is still inside the code after n steps. */
  ghost predicate StaysFor(image: Image, start: Vm, n: nat, lo: int, hi: int) {
    exists vm :: Path(image, start, n, vm, lo, hi, start.rs) && Inside(vm, lo, hi, start.rs)
  }

  ghost predicate Sticks(image: Image, start: Vm, lo: int, hi: int) {
    exists n :: SticksAfter(image, start, n, lo, hi)
  }

  ghost predicate RunsForever(image: Image, start: Vm, lo: int, hi: int) {
    forall n :: StaysFor(image, start, n, lo, hi)
  }

  /** The source fails. */
  ghost predicate Fails(image: Image, defs: Definitions, c: seq<Item>, ds: seq<int>) {
    exists fuel :: Eval(image, defs, c, ds, fuel) == Failed
  }

  /** No amount of fuel is enough for the source. */
  ghost predicate Endless(image: Image, defs: Definitions, c: seq<Item>, ds: seq<int>) {
    forall fuel :: Eval(image, defs, c, ds, fuel) == OutOfFuel
  }

  lemma {:induction false} StuckMeansFailed(image: Image, defs: Definitions, c: seq<Item>, a: int, ds: seq<int>,
                                            rs: seq<int>, n: nat)
    requires WellFormed(image, defs) && Plain(image, defs, c) && rs != []
    requires CodeAt(image, a, Compile(image, c))
    requires SticksAfter(image, Vm(a, ds, rs), n, a, a + 8 * |Compile(image, c)|)
    ensures Eval(image, defs, c, ds, n + 1) == Failed
  {
    var start, hi := Vm(a, ds, rs), a + 8 * |Compile(image, c)|;
    var vm :| Path(image, start, n, vm, a, hi, rs) && Inside(vm, a, hi, rs) && Step(image, vm) == None;
    var k, end := Simulate(image, defs, c, a, ds, rs, n + 1);
    OnePath(image, start, n, vm, k, end, a, hi, rs);
  }

  /** The compiled code sticks exactly when the source fails. */
  lemma {:induction false} SticksWhenFailing(image: Image, defs: Definitions, c: seq<Item>, a: int, ds: seq<int>,
                                             rs: seq<int>)
    requires WellFormed(image, defs) && Plain(image, defs, c) && rs != []
    requires CodeAt(image, a, Compile(image, c))
    ensures Sticks(image, Vm(a, ds, rs), a, a + 8 * |Compile(image, c)|) <==> Fails(image, defs, c, ds)
  {
    var start, hi := Vm(a, ds, rs), a + 8 * |Compile(image, c)|;
    if n: nat :| SticksAfter(image, start, n, a, hi) {
      StuckMeansFailed(image, defs, c, a, ds, rs, n);
    }
    if fuel: nat :| Eval(image, defs, c, ds, fuel) == Failed {
      var n, end := Simulate(image, defs, c, a, ds, rs, fuel);
      assert SticksAfter(image, start, n, a, hi);
    }
  }

  /** While the source is out of fuel n, the machine is still inside after n steps. */
  lemma {:induction false} OutOfFuelStays(image: Image, defs: Definitions, c: seq<Item>, a: int, ds: seq<int>,
                                          rs: seq<int>, n: nat)
    requires WellFormed(image, defs) && Plain(image, defs, c) && rs != []
    requires CodeAt(image, a, Compile(image, c))
    requires Eval(image, defs, c, ds, n) == OutOfFuel
    ensures StaysFor(image, Vm(a, ds, rs), n, a, a + 8 * |Compile(image, c)|)
  {
    var start, hi := Vm(a, ds, rs), a + 8 * |Compile(image, c)|;
    var k, end := Simulate(image, defs, c, a, ds, rs, n);
    var vm := PathPrefix(image, start, k, end, n, a, hi, rs);
  }

  /** A machine that is inside after any number of steps runs a source that always wants more fuel. */
  lemma {:induction false} StayingIsOutOfFuel(image: Image, defs: Definitions, c: seq<Item>, a: int, ds: seq<int>,
                                              rs: seq<int>, fuel: nat)
    requires WellFormed(image, defs) && Plain(image, defs, c) && rs != []
    requires CodeAt(image, a, Compile(image, c))
    requires RunsForever(image, Vm(a, ds, rs), a, a + 8 * |Compile(image, c)|)
    ensures Eval(image, defs, c, ds, fuel) == OutOfFuel
  {
    var start, hi := Vm(a, ds, rs), a + 8 * |Compile(image, c)|;
    var n, end := Simulate(image, defs, c, a, ds, rs, fuel);
    assert StaysFor(image, start, n + 1, a, hi);
    var vm :| Path(image, start, n + 1, vm, a, hi, rs) && Inside(vm, a, hi, rs);
    if Over(image, end, a, hi, rs) {
      OnePath(image, start, n, end, n + 1, vm, a, hi, rs);
    }
  }

  /** The compiled code stays inside for any number of steps exactly when the source never ends. */
  lemma {:induction false} RunsWhenEndless(image: Image, defs: Definitions, c: seq<Item>, a: int, ds: seq<int>,
                                           rs: seq<int>)
    requires WellFormed(image, defs) && Plain(image, defs, c) && rs != []
    requires CodeAt(image, a, Compile(image, c))
    ensures RunsForever(image, Vm(a, ds, rs), a, a + 8 * |Compile(image, c)|) <==> Endless(image, defs, c, ds)
  {
    var start, hi := Vm(a, ds, rs), a + 8 * |Compile(image, c)|;
    if RunsForever(image, start, a, hi) {
      forall fuel: nat ensures Eval(image, defs, c, ds, fuel) == OutOfFuel {
        StayingIsOutOfFuel(image, defs, c, a, ds, rs, fuel);
      }
    } else if Endless(image, defs, c, ds) {
      forall n: nat ensures StaysFor(image, start, n, a, hi) {
        OutOfFuelStays(image, defs, c, a, ds, rs, n);
      }
    }
  }

  /** A defined word, called from a cell, comes back to the next cell with stack ds' exactly when its
      body ends, or leaves by EXIT, with ds'; the return stack is as before. */
  lemma {:induction false} CallCorrect(image: Image, defs: Definitions, xt: int, a: int, ds: seq<int>, rs: seq<int>,
                                       ds': seq<int>)
    requires WellFormed(image, defs) && xt in defs && rs != [] && CodeAt(image, a, [xt])
    ensures Leaves(image, Vm(a, ds, rs), a, a + 8, Vm(a + 8, ds', rs))
            <==> Ends(image, defs, defs[xt], ds, ds') || Returns(image, defs, defs[xt], ds, ds')
  {
    assert [xt] + [] == [xt];
    assert Compile(image, [Word(xt)]) == [xt];
    assert Plain(image, defs, [Word(xt)]);
    CompilerCorrect(image, defs, [Word(xt)], a, ds, rs, ds');
    CallEnds(image, defs, xt, ds, ds');
  }

  lemma CallEnds(image: Image, defs: Definitions, xt: int, ds: seq<int>, ds': seq<int>)
    requires xt in defs
    ensures Ends(image, defs, [Word(xt)], ds, ds')
            <==> Ends(image, defs, defs[xt], ds, ds') || Returns(image, defs, defs[xt], ds, ds')
  {
    forall fuel: nat ensures Eval(image, defs, [Word(xt)], ds, fuel)
                             == match EvalItem(image, defs, Word(xt), ds, fuel) { case Done(d) => Done(d) case r => r }
    {
      assert [Word(xt)][1..] == [];
    }
    if Ends(image, defs, [Word(xt)], ds, ds') {
      var fuel: nat :| Eval(image, defs, [Word(xt)], ds, fuel) == Done(ds');
      assert Eval(image, defs, defs[xt], ds, fuel - 1) in {Done(ds'), Exited(ds')};
    }
    if Ends(image, defs, defs[xt], ds, ds') {
      var fuel: nat :| Eval(image, defs, defs[xt], ds, fuel) == Done(ds');
      assert Eval(image, defs, [Word(xt)], ds, fuel + 1) == Done(ds');
    }
    if Returns(image, defs, defs[xt], ds, ds') {
      var fuel: nat :| Eval(image, defs, defs[xt], ds, fuel) == Exited(ds');
      assert Eval(image, defs, [Word(xt)], ds, fuel + 1) == Done(ds');
    }
  }
}
