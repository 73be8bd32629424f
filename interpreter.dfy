/** Tree-walking execution of a program against the tape (src/main.rs,
    `execute`). A program may run forever, so execution takes fuel: each
    execution of a loop body costs one unit of the fuel of the loop that runs
    it, and the body runs with what is left. */
module Interpreter {
  import opened Syntax
  import opened Tape

  /** How a run stopped: at the end of the program, at the unsupported `,`
      instruction (a fatal exit that runs nothing after it), or when the fuel
      bound was reached. */
  datatype Halt = Finished | InputUnsupported | OutOfFuel

  datatype Outcome = Outcome(halt: Halt, st: State)

  /** Run the nodes of `p` in order; the first one that does not finish ends
      the run. Output only ever grows. */
  function Run(p: Series, st: State, fuel: nat): (r: Outcome)
    requires WellFormed(st)
    ensures WellFormed(r.st) && st.output <= r.st.output
    decreases fuel, p
  {
    if p == [] then Outcome(Finished, st)
    else
      var o := Step(p[0], st, fuel);
      if o.halt == Finished then Run(p[1..], o.st, fuel) else o
  }

  /** One node: the five primitive commands change the state as the `Tape`
      functions say, `,` stops the run, a loop runs its body. */
  function Step(n: Node, st: State, fuel: nat): (r: Outcome)
    requires WellFormed(st)
    ensures WellFormed(r.st) && st.output <= r.st.output
    ensures !n.Loop? ==> r.halt == (if n == InputReplace then InputUnsupported else Finished)
    decreases fuel, n
  {
    match n
    case Left => Outcome(Finished, MoveLeft(st))
    case Right => Outcome(Finished, MoveRight(st))
    case Increment => Outcome(Finished, IncrementCell(st))
    case Decrement => Outcome(Finished, DecrementCell(st))
    case Output => Outcome(Finished, EmitCell(st))
    case InputReplace => Outcome(InputUnsupported, st)
    case Loop(body) => RunLoop(body, st, fuel)
  }

  /** A loop: while the addressed cell is not zero, run the body. A loop that
      finishes leaves a zero under the pointer, and a loop entered on a zero
      cell changes nothing. */
  function RunLoop(body: Series, st: State, fuel: nat): (r: Outcome)
    requires WellFormed(st)
    ensures WellFormed(r.st) && st.output <= r.st.output
    ensures r.halt == Finished ==> r.st.tape[r.st.ptr] == 0
    ensures st.tape[st.ptr] == 0 ==> r == Outcome(Finished, st)
    decreases fuel, body
  {
    if st.tape[st.ptr] == 0 then Outcome(Finished, st)
    else if fuel == 0 then Outcome(OutOfFuel, st)
    else
      var o := Run(body, st, fuel - 1);
      if o.halt == Finished then RunLoop(body, o.st, fuel - 1) else o
  }

  /** The pointer and tape of one execution, shared by every nested loop,
      with the output written so far. */
  class Machine {
    var pointer: nat
    const tape: array<Byte>
    var output: seq<Byte>

    ghost function Snapshot(): State
      reads this, tape
    {
      State(pointer, tape[..], output)
    }

    ghost predicate Valid()
      reads this, tape
    {
      WellFormed(Snapshot())
    }

    /** A zeroed tape with the pointer on its first cell. */
    constructor ()
      ensures Valid() && fresh(tape) && Snapshot() == Initial()
    {
      pointer := 0;
      tape := new Byte[TAPE_SIZE](_ => 0);
      output := [];
      new;
      assert tape[..] == Initial().tape;
    }

    /** Execute `program` in place, node by node, against the shared pointer
        and tape; the contract ties the final state to `Run`. */
    method Execute(program: Series, fuel: nat) returns (halt: Halt)
      requires Valid()
      modifies this, tape
      ensures Valid()
      ensures Run(program, old(Snapshot()), fuel) == Outcome(halt, Snapshot())
      decreases fuel, program
    {
      for i := 0 to |program|
        invariant Valid()
        invariant Run(program, old(Snapshot()), fuel) == Run(program[i..], Snapshot(), fuel)
      {
        assert program[i..][0] == program[i];
        assert program[i..][1..] == program[i + 1..];
        match program[i]
        case Left =>
          if pointer == 0 {
            pointer := TAPE_SIZE - 1;
          } else {
            pointer := pointer - 1;
          }
        case Right =>
          if pointer == TAPE_SIZE - 1 {
            pointer := 0;
          } else {
            pointer := pointer + 1;
          }
        case Increment =>
          if tape[pointer] == 255 {
            tape[pointer] := 0;
          } else {
            tape[pointer] := tape[pointer] + 1;
          }
        case Decrement =>
          if tape[pointer] == 0 {
            tape[pointer] := 255;
          } else {
            tape[pointer] := tape[pointer] - 1;
          }
        case Output =>
          output := output + [tape[pointer]];
        case InputReplace =>
          return InputUnsupported;
        case Loop(body) =>
          var h := ExecuteLoop(body, fuel);
          if h != Finished {
            return h;
          }
      }
      halt := Finished;
    }

    /** Execute a loop in place: test the addressed cell once before a first
        run of the body, then repeat test and body. The contract shows this
        to be the plain while loop `RunLoop`. */
    method ExecuteLoop(body: Series, fuel: nat) returns (halt: Halt)
      requires Valid()
      modifies this, tape
      ensures Valid()
      ensures RunLoop(body, old(Snapshot()), fuel) == Outcome(halt, Snapshot())
      decreases fuel, body
    {
      var f: nat := fuel;
      if tape[pointer] != 0 {
        if f == 0 {
          return OutOfFuel;
        }
        halt := Execute(body, f - 1);
        if halt != Finished {
          return;
        }
        f := f - 1;
      }
      while tape[pointer] > 0
        invariant Valid() && f <= fuel
        invariant RunLoop(body, old(Snapshot()), fuel) == RunLoop(body, Snapshot(), f)
        decreases f
      {
        if f == 0 {
          return OutOfFuel;
        }
        halt := Execute(body, f - 1);
        if halt != Finished {
          return;
        }
        f := f - 1;
      }
      halt := Finished;
    }
  }
}
