/** The threaded-code machine of VirtualMemoryAllocator/forth/myjf.S (NEXT, DOCOL, EXIT, LIT, BRANCH
    and 0BRANCH) and the structured source programs compiled to it. */
module ForthMachine {
  import opened Wrappers

  // ----- the machine ----------------------------------------------------------------------------

  /** Codeword contents.  The linker picks these addresses; only that they differ matters. */
  const DOCOL := 1
  const CODE_EXIT := 2
  const CODE_LIT := 3
  const CODE_BRANCH := 4
  const CODE_ZBRANCH := 5

  /** Memory as 8-byte cells by byte address, the codeword addresses of the five words the compiler
      itself uses, and what every other primitive does to the parameter stack (top first). */
  datatype Image = Image(cells: map<int, int>, exit: int, lit: int, branch: int, zbranch: int,
                         primitive: (int, seq<int>) -> Option<seq<int>>)

  /** The registers: %rsi, the parameter stack and the return stack, tops first. */
  datatype Vm = Vm(ip: int, ds: seq<int>, rs: seq<int>)

  /** NEXT: fetch the codeword address at ip, step over it, and do what its codeword says.  None when
      the machine reads outside the image or pops an empty stack. */
  function Step(image: Image, vm: Vm): Option<Vm> {
    if vm.ip !in image.cells || image.cells[vm.ip] !in image.cells then None
    else
      var xt := image.cells[vm.ip];
      var code, ip := image.cells[xt], vm.ip + 8;
      if code == DOCOL then Some(Vm(xt + 8, vm.ds, [ip] + vm.rs))
      else if code == CODE_EXIT then
        if vm.rs == [] then None else Some(Vm(vm.rs[0], vm.ds, vm.rs[1..]))
      else if code == CODE_LIT then
        if ip !in image.cells then None else Some(Vm(ip + 8, [image.cells[ip]] + vm.ds, vm.rs))
      else if code == CODE_BRANCH then
        if ip !in image.cells then None else Some(Vm(ip + image.cells[ip], vm.ds, vm.rs))
      else if code == CODE_ZBRANCH then
        if vm.ds == [] || ip !in image.cells then None
        else if vm.ds[0] == 0 then Some(Vm(ip + image.cells[ip], vm.ds[1..], vm.rs))
        else Some(Vm(ip + 8, vm.ds[1..], vm.rs))
      else
        match image.primitive(code, vm.ds)
        case None => None
        case Some(ds) => Some(Vm(ip, ds, vm.rs))
  }

  // ----- structured source programs ---------------------------------------------------------------

  datatype Item =
    | Word(xt: int)
    | Literal(n: int)
    | If(yes: seq<Item>)
    | IfElse(yes: seq<Item>, no: seq<Item>)
    | Until(body: seq<Item>)
    | While(cond: seq<Item>, body: seq<Item>)
    | Again(body: seq<Item>)
    | Exit

  /** How a program ends: past its last item, by EXIT, by a failing primitive, or not within the fuel
      (which bounds nested loop rounds and calls). */
  datatype Result = Done(ds: seq<int>) | Exited(ds: seq<int>) | Failed | OutOfFuel

  /** The bodies of the colon definitions, by codeword address. */
  type Definitions = map<int, seq<Item>>

  /** The meaning of a program, written without addresses, offsets or a return stack. */
  function Eval(image: Image, defs: Definitions, c: seq<Item>, ds: seq<int>, fuel: nat): Result
    decreases fuel, c, 0
  {
    if c == [] then Done(ds)
    else
      match EvalItem(image, defs, c[0], ds, fuel)
      case Done(ds1) => Eval(image, defs, c[1..], ds1, fuel)
      case r => r
  }

  function EvalItem(image: Image, defs: Definitions, item: Item, ds: seq<int>, fuel: nat): Result
    decreases fuel, item, 1
  {
    match item
    case Word(xt) =>
      if xt in defs then
        if fuel == 0 then OutOfFuel
        else
          (match Eval(image, defs, defs[xt], ds, fuel - 1)
           case Exited(ds1) => Done(ds1)
           case r => r)
      else if xt !in image.cells then Failed
      else
        (match image.primitive(image.cells[xt], ds)
         case None => Failed
         case Some(ds1) => Done(ds1))
    case Literal(n) => Done([n] + ds)
    case If(yes) =>
      if ds == [] then Failed
      else if ds[0] != 0 then Eval(image, defs, yes, ds[1..], fuel)
      else Done(ds[1..])
    case IfElse(yes, no) =>
      if ds == [] then Failed
      else if ds[0] != 0 then Eval(image, defs, yes, ds[1..], fuel)
      else Eval(image, defs, no, ds[1..], fuel)
    case Until(body) =>
      (match Eval(image, defs, body, ds, fuel)
       case Done(ds1) =>
         if ds1 == [] then Failed
         else if ds1[0] != 0 then Done(ds1[1..])
         else if fuel == 0 then OutOfFuel
         else EvalItem(image, defs, item, ds1[1..], fuel - 1)
       case r => r)
    case While(cond, body) =>
      (match Eval(image, defs, cond, ds, fuel)
       case Done(ds1) =>
         if ds1 == [] then Failed
         else if ds1[0] == 0 then Done(ds1[1..])
         else
           (match Eval(image, defs, body, ds1[1..], fuel)
            case Done(ds2) =>
              if fuel == 0 then OutOfFuel else EvalItem(image, defs, item, ds2, fuel - 1)
            case r => r)
       case r => r)
    case Again(body) =>
      (match Eval(image, defs, body, ds, fuel)
       case Done(ds1) => if fuel == 0 then OutOfFuel else EvalItem(image, defs, item, ds1, fuel - 1)
       case r => r)
    case Exit => Exited(ds)
  }

  // ----- the code a program should become -----------------------------------------------------------

  /** The cells for a program: position-independent, every offset counted in bytes from its own cell. */
  function Compile(image: Image, c: seq<Item>): seq<int> {
    if c == [] then [] else CompileItem(image, c[0]) + Compile(image, c[1..])
  }

  function CompileItem(image: Image, item: Item): seq<int> {
    match item
    case Word(xt) => [xt]
    case Literal(n) => [image.lit, n]
    case If(yes) =>
      var y := Compile(image, yes);
      [image.zbranch, 8 * (|y| + 1)] + y
    case IfElse(yes, no) =>
      var y, n := Compile(image, yes), Compile(image, no);
      [image.zbranch, 8 * (|y| + 3)] + y + [image.branch, 8 * (|n| + 1)] + n
    case Until(body) =>
      var b := Compile(image, body);
      b + [image.zbranch, -8 * (|b| + 1)]
    case While(cond, body) =>
      var k, b := Compile(image, cond), Compile(image, body);
      k + [image.zbranch, 8 * (|b| + 3)] + b + [image.branch, -8 * (|k| + |b| + 3)]
    case Again(body) =>
      var b := Compile(image, body);
      b + [image.branch, -8 * (|b| + 1)]
    case Exit => [image.exit]
  }

  /** `code` stands in memory from byte address a on. */
  ghost predicate CodeAt(image: Image, a: int, code: seq<int>)
    decreases code
  {
    code == [] || (a in image.cells && image.cells[a] == code[0] && CodeAt(image, a + 8, code[1..]))
  }

  /** The five words the compiler uses have their codewords, and every definition is compiled after
      its DOCOL codeword and closed by EXIT. */
  ghost predicate WellFormed(image: Image, defs: Definitions) {
    && image.exit in image.cells && image.cells[image.exit] == CODE_EXIT
    && image.lit in image.cells && image.cells[image.lit] == CODE_LIT
    && image.branch in image.cells && image.cells[image.branch] == CODE_BRANCH
    && image.zbranch in image.cells && image.cells[image.zbranch] == CODE_ZBRANCH
    && forall xt :: xt in defs ==>
         && xt in image.cells && image.cells[xt] == DOCOL
         && CodeAt(image, xt + 8, Compile(image, defs[xt]) + [image.exit])
         && Plain(image, defs, defs[xt])
  }

  /** The words of a program are defined words or primitives, never the branching words themselves. */
  ghost predicate Plain(image: Image, defs: Definitions, c: seq<Item>) {
    forall i :: 0 <= i < |c| ==> PlainItem(image, defs, c[i])
  }

  ghost predicate PlainItem(image: Image, defs: Definitions, item: Item) {
    match item
    case Word(xt) =>
      xt in defs || (xt in image.cells ==> image.cells[xt] !in {DOCOL, CODE_EXIT, CODE_LIT, CODE_BRANCH, CODE_ZBRANCH})
    case Literal(_) => true
    case If(yes) => Plain(image, defs, yes)
    case IfElse(yes, no) => Plain(image, defs, yes) && Plain(image, defs, no)
    case Until(body) => Plain(image, defs, body)
    case While(cond, body) => Plain(image, defs, cond) && Plain(image, defs, body)
    case Again(body) => Plain(image, defs, body)
    case Exit => true
  }
}
