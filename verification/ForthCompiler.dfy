/** The one-pass compiler of VirtualMemoryAllocator/forth/jonesforth.f: the immediate words IF, ELSE,
    THEN, BEGIN, UNTIL, AGAIN, WHILE and REPEAT append cells at HERE, keep addresses on the parameter
    stack, and fill offsets in backwards. */
module ForthCompiler {
  import opened Wrappers
  import opened ForthMachine
  import opened ForthCorrect

  datatype Token =
    | TWord(xt: int)
    | TNumber(n: int)
    | TIf
    | TElse
    | TThen
    | TBegin
    | TUntil
    | TAgain
    | TWhile
    | TRepeat

  /** The words of a program as they come in from the input. */
  function Tokens(image: Image, c: seq<Item>): seq<Token> {
    if c == [] then [] else ItemTokens(image, c[0]) + Tokens(image, c[1..])
  }

  function ItemTokens(image: Image, item: Item): seq<Token> {
    match item
    case Word(xt) => [TWord(xt)]
    case Literal(n) => [TNumber(n)]
    case If(yes) => [TIf] + Tokens(image, yes) + [TThen]
    case IfElse(yes, no) => [TIf] + Tokens(image, yes) + [TElse] + Tokens(image, no) + [TThen]
    case Until(body) => [TBegin] + Tokens(image, body) + [TUntil]
    case While(cond, body) => [TBegin] + Tokens(image, cond) + [TWhile] + Tokens(image, body) + [TRepeat]
    case Again(body) => [TBegin] + Tokens(image, body) + [TAgain]
    case Exit => [TWord(image.exit)]
  }

  /** The compiler's state: the cells laid down from org on, and the parameter stack, top first. */
  datatype Compiling = Compiling(org: int, cells: seq<int>, stack: seq<int>) {
    function Here(): int {
      org + 8 * |cells|
    }

    function Emit(x: int): Compiling {
      this.(cells := cells + [x])
    }

    predicate Laid(a: int) {
      org <= a < Here() && (a - org) % 8 == 0
    }

    /** Fill the cell at address a, laid down earlier, with the distance from it to HERE. */
    function Resolve(a: int): Compiling
      requires Laid(a)
    {
      this.(cells := cells[(a - org) / 8 := Here() - a])
    }
  }

  /** What one word of the input does in compile mode; None when the control words do not nest. */
  function Process(image: Image, s: Compiling, t: Token): Option<Compiling> {
    match t
    case TWord(xt) => Some(s.Emit(xt))
    case TNumber(n) => Some(s.Emit(image.lit).Emit(n))
    case TIf => Some(Forward(image, s))
    case TWhile => Some(Forward(image, s))
    case TThen =>
      if s.stack == [] || !s.Laid(s.stack[0]) then None
      else Some(s.(stack := s.stack[1..]).Resolve(s.stack[0]))
    case TElse =>
      if s.stack == [] || !s.Laid(s.stack[0]) then None
      else
        var s1 := s.Emit(image.branch);
        Some(s1.(stack := [s1.Here()] + s.stack[1..]).Emit(0).Resolve(s.stack[0]))
    case TBegin => Some(s.(stack := [s.Here()] + s.stack))
    case TUntil => Backward(image.zbranch, s)
    case TAgain => Backward(image.branch, s)
    case TRepeat =>
      if |s.stack| < 2 || !s.Laid(s.stack[0]) then None
      else
        var s1 := s.Emit(image.branch);
        Some(s1.(stack := s.stack[2..]).Emit(s.stack[1] - s1.Here()).Resolve(s.stack[0]))
  }

  /** IF and WHILE: a 0BRANCH with a dummy offset, whose address stays on the stack. */
  function Forward(image: Image, s: Compiling): Compiling {
    var s1 := s.Emit(image.zbranch);
    s1.(stack := [s1.Here()] + s.stack).Emit(0)
  }

  /** UNTIL and AGAIN: a branch back to the address BEGIN left on the stack. */
  function Backward(branch: int, s: Compiling): Option<Compiling> {
    if s.stack == [] then None
    else
      var s1 := s.Emit(branch);
      Some(s1.(stack := s.stack[1..]).Emit(s.stack[0] - s1.Here()))
  }

  function ProcessAll(image: Image, s: Compiling, ts: seq<Token>): Option<Compiling>
    decreases ts
  {
    if ts == [] then Some(s)
    else
      match Process(image, s, ts[0])
      case None => None
      case Some(s1) => ProcessAll(image, s1, ts[1..])
  }

  lemma {:induction false} ProcessConcat(image: Image, s: Compiling, x: seq<Token>, y: seq<Token>)
    ensures ProcessAll(image, s, x + y)
            == match ProcessAll(image, s, x) { case None => None case Some(s1) => ProcessAll(image, s1, y) }
    decreases x
  {
    if x == [] {
      assert x + y == y;
    } else {
      assert (x + y)[0] == x[0] && (x + y)[1..] == x[1..] + y;
      match Process(image, s, x[0])
      case None =>
      case Some(s1) => ProcessConcat(image, s1, x[1..], y);
    }
  }

  lemma {:induction false} ProcessOne(image: Image, s: Compiling, t: Token)
    ensures ProcessAll(image, s, [t]) == Process(image, s, t)
  {
    assert [t][1..] == [];
  }

  function Add(s: Compiling, code: seq<int>): Compiling {
    s.(cells := s.cells + code)
  }

  /** One pass of back-patching lays down exactly the structured code, and leaves the stack as it was,
      whatever was compiled before and whatever is on the stack. */
  lemma {:induction false} OnePass(image: Image, s: Compiling, c: seq<Item>)
    ensures ProcessAll(image, s, Tokens(image, c)) == Some(Add(s, Compile(image, c)))
    decreases c, 0
  {
    if c == [] {
      assert s.cells + [] == s.cells;
    } else {
      OnePassItem(image, s, c[0]);
      var s1 := Add(s, CompileItem(image, c[0]));
      OnePass(image, s1, c[1..]);
      ProcessConcat(image, s, ItemTokens(image, c[0]), Tokens(image, c[1..]));
      assert Add(s1, Compile(image, c[1..])).cells == s.cells + Compile(image, c);
    }
  }

  lemma {:induction false} OnePassItem(image: Image, s: Compiling, item: Item)
    ensures ProcessAll(image, s, ItemTokens(image, item)) == Some(Add(s, CompileItem(image, item)))
    decreases item, 1
  {
    match item
    case Word(xt) => ProcessOne(image, s, TWord(xt));
    case Exit => ProcessOne(image, s, TWord(image.exit));
    case Literal(n) =>
      ProcessOne(image, s, TNumber(n));
      assert s.Emit(image.lit).Emit(n).cells == s.cells + [image.lit, n];
    case If(yes) => OnePassIf(image, s, yes);
    case IfElse(yes, no) => OnePassIfElse(image, s, yes, no);
    case Until(body) => OnePassLoop(image, s, body, TUntil, image.zbranch);
    case Again(body) => OnePassLoop(image, s, body, TAgain, image.branch);
    case While(cond, body) => OnePassWhile(image, s, cond, body);
  }

  lemma {:induction false} OnePassIf(image: Image, s: Compiling, yes: seq<Item>)
    ensures ProcessAll(image, s, ItemTokens(image, If(yes))) == Some(Add(s, CompileItem(image, If(yes))))
    decreases yes, 2
  {
    var y := Compile(image, yes);
    var s1 := Forward(image, s);
    var s2 := Add(s1, y);
    ProcessConcat(image, s, [TIf] + Tokens(image, yes), [TThen]);
    ProcessConcat(image, s, [TIf], Tokens(image, yes));
    ProcessOne(image, s, TIf);
    OnePass(image, s1, yes);
    ProcessOne(image, s2, TThen);
    var s3 := s2.(stack := s2.stack[1..]).Resolve(s2.stack[0]);
    assert s3.stack == s.stack;
    assert s3.cells == s.cells + ([image.zbranch, 8 * (|y| + 1)] + y);
  }

  lemma {:induction false} OnePassLoop(image: Image, s: Compiling, body: seq<Item>, t: Token, branch: int)
    requires (t == TUntil && branch == image.zbranch) || (t == TAgain && branch == image.branch)
    ensures ProcessAll(image, s, [TBegin] + Tokens(image, body) + [t])
            == Some(Add(s, Compile(image, body) + [branch, -8 * (|Compile(image, body)| + 1)]))
    decreases body, 2
  {
    var b := Compile(image, body);
    var s1 := s.(stack := [s.Here()] + s.stack);
    var s2 := Add(s1, b);
    ProcessConcat(image, s, [TBegin] + Tokens(image, body), [t]);
    ProcessConcat(image, s, [TBegin], Tokens(image, body));
    ProcessOne(image, s, TBegin);
    OnePass(image, s1, body);
    ProcessOne(image, s2, t);
    var s3 := Backward(branch, s2).value;
    assert s3.stack == s.stack;
    assert s3.cells == s.cells + (b + [branch, -8 * (|b| + 1)]);
  }

  /** Three control words around two programs, one after the other. */
  lemma {:induction false} FiveParts(image: Image, s: Compiling, t1: Token, s1: Compiling, x: seq<Token>,
                                     s2: Compiling, t2: Token,
                  s3: Compiling, y: seq<Token>, s4: Compiling, t3: Token)
    requires Process(image, s, t1) == Some(s1) && ProcessAll(image, s1, x) == Some(s2)
    requires Process(image, s2, t2) == Some(s3) && ProcessAll(image, s3, y) == Some(s4)
    ensures ProcessAll(image, s, [t1] + x + [t2] + y + [t3]) == Process(image, s4, t3)
  {
    ProcessConcat(image, s, [t1] + x + [t2] + y, [t3]);
    ProcessConcat(image, s, [t1] + x + [t2], y);
    ProcessConcat(image, s, [t1] + x, [t2]);
    ProcessConcat(image, s, [t1], x);
    ProcessOne(image, s, t1);
    ProcessOne(image, s2, t2);
    ProcessOne(image, s4, t3);
  }

  lemma {:induction false} OnePassIfElse(image: Image, s: Compiling, yes: seq<Item>, no: seq<Item>)
    ensures ProcessAll(image, s, ItemTokens(image, IfElse(yes, no)))
            == Some(Add(s, CompileItem(image, IfElse(yes, no))))
    decreases IfElse(yes, no), 0
  {
    var y, z := Compile(image, yes), Compile(image, no);
    var s1 := Forward(image, s);
    var s2 := Add(s1, y);
    OnePass(image, s1, yes);
    var s3 := ElseState(image, s, y);
    ElseLaid(image, s, y);
    OnePass(image, s3, no);
    var s4 := Add(s3, z);
    FiveParts(image, s, TIf, s1, Tokens(image, yes), s2, TElse, s3, Tokens(image, no), s4, TThen);
    ThenLaid(image, s, y, z);
  }

  lemma ThenLaid(image: Image, s: Compiling, y: seq<int>, z: seq<int>)
    ensures Process(image, Add(ElseState(image, s, y), z), TThen)
            == Some(Add(s, [image.zbranch, 8 * (|y| + 3)] + y + [image.branch, 8 * (|z| + 1)] + z))
  {
    var s4 := Add(ElseState(image, s, y), z);
    assert s4.stack[1..] == s.stack;
    assert s4.cells[|s.cells| + |y| + 3 := 8 * (|z| + 1)]
        == s.cells + ([image.zbranch, 8 * (|y| + 3)] + y + [image.branch, 8 * (|z| + 1)] + z);
  }

  /** After IF, the true part (compiled to y) and ELSE. */
  function ElseState(image: Image, s: Compiling, y: seq<int>): Compiling {
    Compiling(s.org, s.cells + [image.zbranch, 8 * (|y| + 3)] + y + [image.branch, 0],
              [s.org + 8 * (|s.cells| + |y| + 3)] + s.stack)
  }

  lemma ElseLaid(image: Image, s: Compiling, y: seq<int>)
    ensures Process(image, Add(Forward(image, s), y), TElse) == Some(ElseState(image, s, y))
  {
    var s2 := Add(Forward(image, s), y);
    var s3 := Process(image, s2, TElse).value;
    assert s3.stack == ElseState(image, s, y).stack;
    assert s3.cells == ElseState(image, s, y).cells;
  }

  lemma {:induction false} OnePassWhile(image: Image, s: Compiling, cond: seq<Item>, body: seq<Item>)
    ensures ProcessAll(image, s, ItemTokens(image, While(cond, body)))
            == Some(Add(s, CompileItem(image, While(cond, body))))
    decreases While(cond, body), 0
  {
    var k, b := Compile(image, cond), Compile(image, body);
    var s1 := s.(stack := [s.Here()] + s.stack);
    var s2 := Add(s1, k);
    OnePass(image, s1, cond);
    var s3 := Forward(image, s2);
    OnePass(image, s3, body);
    var s4 := Add(s3, b);
    FiveParts(image, s, TBegin, s1, Tokens(image, cond), s2, TWhile, s3, Tokens(image, body), s4, TRepeat);
    RepeatLaid(image, s, k, b);
  }

  lemma RepeatLaid(image: Image, s: Compiling, k: seq<int>, b: seq<int>)
    ensures var s4 := Add(Forward(image, Add(s.(stack := [s.Here()] + s.stack), k)), b);
            Process(image, s4, TRepeat)
            == Some(Add(s, k + [image.zbranch, 8 * (|b| + 3)] + b + [image.branch, -8 * (|k| + |b| + 3)]))
  {
    var s4 := Add(Forward(image, Add(s.(stack := [s.Here()] + s.stack), k)), b);
    var s5 := Process(image, s4, TRepeat).value;
    assert s5.stack == s.stack;
    assert s5.cells == s.cells + (k + [image.zbranch, 8 * (|b| + 3)] + b + [image.branch, -8 * (|k| + |b| + 3)]);
  }

  /** Source to stack: what the one-pass compiler lays down for a program, wherever it lands in memory,
      runs on the machine to exactly the stacks the structured source yields. */
  lemma {:induction false} SourceToMachine(image: Image, defs: Definitions, c: seq<Item>, s: Compiling, a: int,
                        ds: seq<int>, rs: seq<int>, ds': seq<int>)
    requires WellFormed(image, defs) && Plain(image, defs, c) && rs != []
    requires ProcessAll(image, s, Tokens(image, c)).Some?
    requires var cells := ProcessAll(image, s, Tokens(image, c)).value.cells;
             |cells| >= |s.cells| && CodeAt(image, a, cells[|s.cells|..])
    ensures var hi := a + 8 * (|ProcessAll(image, s, Tokens(image, c)).value.cells| - |s.cells|);
            Leaves(image, Vm(a, ds, rs), a, hi, Vm(hi, ds', rs)) <==> Ends(image, defs, c, ds, ds')
  {
    OnePass(image, s, c);
    assert (s.cells + Compile(image, c))[|s.cells|..] == Compile(image, c);
    CompilerCorrect(image, defs, c, a, ds, rs, ds');
  }
}
