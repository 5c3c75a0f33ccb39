/** The compiling words as they update memory, HERE and the parameter stack in place, each written with
    the same primitive words, in the same order, as in jonesforth.f. */
module ForthHost {
  import opened Wrappers
  import opened ForthMachine
  import opened ForthCompiler

  class Host {
    const image: Image
    const org: int
    const memory: array<int>
    var here: int
    var stack: seq<int>  // top first

    constructor (image: Image, org: int, size: nat)
      ensures Valid() && this.image == image && this.org == org && memory.Length == size && fresh(memory)
      ensures State() == Compiling(org, [], [])
    {
      this.image, this.org, here, stack := image, org, org, [];
      memory := new int[size];
    }

    ghost predicate Valid()
      reads this
    {
      org <= here && (here - org) % 8 == 0 && (here - org) / 8 <= memory.Length
    }

    ghost function State(): Compiling
      requires Valid()
      reads this, memory
    {
      Compiling(org, memory[..(here - org) / 8], stack)
    }

    ghost predicate Room(n: nat)
      reads this
    {
      (here - org) / 8 + n <= memory.Length
    }

    // ----- primitives ---------------------------------------------------------------------------

    method Push(x: int)
      requires Valid()
      modifies this`stack
      ensures stack == [x] + old(stack)
    {
      stack := [x] + stack;
    }

    method Dup()
      requires stack != []
      modifies this`stack
      ensures stack == [old(stack)[0]] + old(stack)
    {
      stack := [stack[0]] + stack;
    }

    method Swap()
      requires |stack| >= 2
      modifies this`stack
      ensures stack == [old(stack)[1], old(stack)[0]] + old(stack)[2..]
    {
      stack := [stack[1], stack[0]] + stack[2..];
    }

    method Minus()
      requires |stack| >= 2
      modifies this`stack
      ensures stack == [old(stack)[1] - old(stack)[0]] + old(stack)[2..]
    {
      stack := [stack[1] - stack[0]] + stack[2..];
    }

    method HereFetch()
      modifies this`stack
      ensures stack == [here] + old(stack)
    {
      stack := [here] + stack;
    }

    method Store()
      requires Valid() && |stack| >= 2 && State().Laid(stack[0])
      modifies this`stack, memory
      ensures Valid()
      ensures State() == old(State().(stack := stack[2..],
                                      cells := State().cells[(stack[0] - org) / 8 := stack[1]]))
    {
      memory[(stack[0] - org) / 8] := stack[1];
      stack := stack[2..];
    }

    method Comma()
      requires Valid() && stack != [] && Room(1)
      modifies this, memory
      ensures Valid() && here == old(here) + 8
      ensures State() == old(State().(stack := stack[1..]).Emit(stack[0]))
    {
      memory[(here - org) / 8] := stack[0];
      here := here + 8;
      stack := stack[1..];
    }

    // ----- the compiling words ------------------------------------------------------------------

    /** The beginning of IF, WHILE and ELSE: a branch with an empty offset, whose address stays on the
        stack. */
    method EmptyBranch(branch: int)
      requires Valid() && Room(2)
      modifies this, memory
      ensures Valid() && here == old(here) + 16
      ensures State() == old(var s1 := State().Emit(branch); s1.(stack := [s1.Here()] + stack).Emit(0))
    {
      Push(branch);
      Comma();
      HereFetch();
      Push(0);
      Comma();
    }

    /** IF, and WHILE: a conditional branch with an empty offset, whose address stays on the stack. */
    method If()
      requires Valid() && Room(2)
      modifies this, memory
      ensures Valid() && here == old(here) + 16
      ensures Some(State()) == Process(image, old(State()), TIf)
    {
      EmptyBranch(image.zbranch);
    }

    /** The first words of THEN: below the address on top goes the distance from it to HERE. */
    method Distance()
      requires stack != []
      modifies this`stack
      ensures stack == [old(stack)[0], here - old(stack)[0]] + old(stack)[1..]
    {
      ghost var a, rest := stack[0], stack[1..];
      Dup();
      HereFetch();
      Swap();
      Minus();
      Swap();
      assert stack == [a, here - a] + rest;
    }

    /** THEN: the cell whose address is on top gets the distance from it to HERE. */
    method Then()
      requires Valid() && Process(image, State(), TThen).Some?
      modifies this`stack, memory
      ensures Valid()
      ensures Some(State()) == Process(image, old(State()), TThen)
    {
      ghost var a, rest := stack[0], stack[1..];
      Distance();
      assert stack[2..] == rest;
      Store();
    }

    /** ELSE: a branch over what follows, with its own empty offset; then the offset that IF left empty
        is made to lead here. */
    method Else()
      requires Valid() && Process(image, State(), TElse).Some? && Room(2)
      modifies this, memory
      ensures Valid() && here == old(here) + 16
      ensures Some(State()) == Process(image, old(State()), TElse)
    {
      ghost var a, rest := stack[0], stack[1..];
      EmptyBranch(image.branch);
      ghost var back := stack[0];
      Swap();
      assert stack[1..] == [back] + rest;
      Then();
    }

    /** BEGIN: the place to branch back to stays on the stack. */
    method Begin()
      requires Valid()
      modifies this
      ensures Valid() && here == old(here)
      ensures Some(State()) == Process(image, old(State()), TBegin)
    {
      HereFetch();
    }

    /** The end of UNTIL and AGAIN: the distance back to the address on top becomes an offset. */
    method BackOffset()
      requires Valid() && stack != [] && Room(1)
      modifies this, memory
      ensures Valid() && here == old(here) + 8
      ensures State() == old(State().(stack := stack[1..]).Emit(stack[0] - here))
    {
      ghost var b, rest := stack[0], stack[1..];
      HereFetch();
      Minus();
      assert stack == [b - here] + rest && stack[1..] == rest;
      Comma();
    }

    /** UNTIL: a conditional branch back to BEGIN. */
    method Until()
      requires Valid() && stack != [] && Room(2)
      modifies this, memory
      ensures Valid() && here == old(here) + 16
      ensures Some(State()) == Process(image, old(State()), TUntil)
    {
      ghost var b, rest := stack[0], stack[1..];
      Push(image.zbranch);
      Comma();
      assert stack == [b] + rest && stack[1..] == rest;
      BackOffset();
    }

    /** AGAIN: a branch back to BEGIN. */
    method Again()
      requires Valid() && stack != [] && Room(2)
      modifies this, memory
      ensures Valid() && here == old(here) + 16
      ensures Some(State()) == Process(image, old(State()), TAgain)
    {
      ghost var b, rest := stack[0], stack[1..];
      Push(image.branch);
      Comma();
      assert stack == [b] + rest && stack[1..] == rest;
      BackOffset();
    }

    /** The first half of REPEAT: a branch back to the address below the top, which goes. */
    method BranchBack()
      requires Valid() && |stack| >= 2 && Room(2)
      modifies this, memory
      ensures Valid() && here == old(here) + 16
      ensures State() == old(var s1 := State().Emit(image.branch);
                             s1.(stack := [stack[0]] + stack[2..]).Emit(stack[1] - s1.Here()))
    {
      ghost var w, b, rest := stack[0], stack[1], stack[2..];
      Push(image.branch);
      Comma();
      assert stack == [w, b] + rest;
      ghost var s1 := State();
      Swap();
      assert stack == [b, w] + rest && stack[1..] == [w] + rest;
      assert State().(stack := stack[1..]) == s1.(stack := [w] + rest);
      BackOffset();
    }

    /** REPEAT: a branch back to BEGIN; then the offset that WHILE left empty is made to lead here. */
    method Repeat()
      requires Valid() && Process(image, State(), TRepeat).Some? && Room(2)
      modifies this, memory
      ensures Valid() && here == old(here) + 16
      ensures Some(State()) == Process(image, old(State()), TRepeat)
    {
      BranchBack();
      assert stack[1..] == old(stack)[2..];
      Then();
    }

    /** The interpreter in compile mode: an ordinary word is appended, a number is appended after LIT,
        an immediate word runs. */
    method Interpret(t: Token)
      requires Valid() && Process(image, State(), t).Some? && Room(2)
      modifies this, memory
      ensures Valid() && old(here) <= here <= old(here) + 16
      ensures Some(State()) == Process(image, old(State()), t)
    {
      match t
      case TWord(xt) => Push(xt); Comma();
      case TNumber(n) => Push(image.lit); Comma(); Push(n); Comma();
      case TIf => If();
      case TWhile => If();
      case TThen => Then();
      case TElse => Else();
      case TBegin => Begin();
      case TUntil => Until();
      case TAgain => Again();
      case TRepeat => Repeat();
    }

    /** Compiling the words of a program lays down its structured code at HERE, and leaves earlier cells
        and the stack as they were. */
    method CompileProgram(ts: seq<Token>, ghost c: seq<Item>)
      requires Valid() && ts == Tokens(image, c) && Room(2 * |ts|)
      modifies this, memory
      ensures Valid() && State() == Add(old(State()), Compile(image, c))
    {
      OnePass(image, State(), c);
      ghost var start := State();
      for i := 0 to |ts|
        invariant Valid() && Room(2 * (|ts| - i))
        invariant ProcessAll(image, State(), ts[i..]) == ProcessAll(image, start, ts)
      {
        assert ts[i..][0] == ts[i] && ts[i..][1..] == ts[i + 1..];
        Interpret(ts[i]);
      }
      assert ts[|ts|..] == [];
    }
  }
}
