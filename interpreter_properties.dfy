/** What execution promises: sequencing, the fatal `,`, wraparound of the
    pointer and of cells, and that fuel only ever cuts a run short. */
module InterpreterProperties {
  import opened Syntax
  import opened Tape
  import opened Interpreter

  /** Running `p + q` runs `p`, then `q` only if `p` finished: in particular
      nothing after a `,` that is reached runs or produces output. */
  lemma {:induction false} RunAppend(p: Series, q: Series, st: State, fuel: nat)
    requires WellFormed(st)
    ensures Run(p + q, st, fuel) ==
      (var o := Run(p, st, fuel); if o.halt == Finished then Run(q, o.st, fuel) else o)
    decreases p
  {
    if p == [] {
      assert p + q == q;
    } else {
      assert (p + q)[0] == p[0];
      assert (p + q)[1..] == p[1..] + q;
      var o := Step(p[0], st, fuel);
      if o.halt == Finished {
        RunAppend(p[1..], q, o.st, fuel);
      }
    }
  }

  /** Two runs that finish, one after the other. */
  lemma RunThen(p: Series, q: Series, st: State, mid: State, end: State, fuel: nat)
    requires WellFormed(st)
    requires Run(p, st, fuel) == Outcome(Finished, mid) && Run(q, mid, fuel) == Outcome(Finished, end)
    ensures Run(p + q, st, fuel) == Outcome(Finished, end)
  {
    RunAppend(p, q, st, fuel);
  }

  /** A `,` that is reached ends the run where it stands. */
  lemma InputStops(p: Series, q: Series, st: State, fuel: nat)
    requires WellFormed(st)
    requires Run(p, st, fuel).halt == Finished
    ensures Run(p + [InputReplace] + q, st, fuel) == Outcome(InputUnsupported, Run(p, st, fuel).st)
  {
    RunAppend(p, [InputReplace] + q, st, fuel);
    assert p + [InputReplace] + q == p + ([InputReplace] + q);
  }

  /** `k` consecutive `>` move the pointer up by `k` modulo the tape size. */
  lemma {:induction false} RepeatRight(k: nat, st: State, fuel: nat)
    requires WellFormed(st)
    ensures Run(seq(k, _ => Right), st, fuel) == Outcome(Finished, st.(ptr := (st.ptr + k) % TAPE_SIZE))
  {
    if k > 0 {
      var p := seq(k, _ => Right);
      assert p[1..] == seq(k - 1, _ => Right);
      var st' := MoveRight(st);
      RepeatRight(k - 1, st', fuel);
      assert (st'.ptr + (k - 1)) % TAPE_SIZE == (st.ptr + k) % TAPE_SIZE;
    }
  }

  /** `k` consecutive `<` move the pointer down by `k` modulo the tape size. */
  lemma {:induction false} RepeatLeft(k: nat, st: State, fuel: nat)
    requires WellFormed(st)
    ensures Run(seq(k, _ => Left), st, fuel) == Outcome(Finished, st.(ptr := (st.ptr - k) % TAPE_SIZE))
  {
    if k > 0 {
      var p := seq(k, _ => Left);
      assert p[1..] == seq(k - 1, _ => Left);
      var st' := MoveLeft(st);
      RepeatLeft(k - 1, st', fuel);
      assert (st'.ptr - (k - 1)) % TAPE_SIZE == (st.ptr - k) % TAPE_SIZE;
    }
  }

  /** A full turn of the tape in either direction brings the pointer back. */
  lemma FullTurn(st: State, fuel: nat)
    requires WellFormed(st)
    ensures Run(seq(TAPE_SIZE, _ => Right), st, fuel) == Outcome(Finished, st)
    ensures Run(seq(TAPE_SIZE, _ => Left), st, fuel) == Outcome(Finished, st)
  {
    RepeatRight(TAPE_SIZE, st, fuel);
    RepeatLeft(TAPE_SIZE, st, fuel);
  }

  /** `k` consecutive `+` add `k` modulo 256 to the addressed cell only. */
  lemma {:induction false} RepeatIncrement(k: nat, st: State, fuel: nat)
    requires WellFormed(st)
    ensures Run(seq(k, _ => Increment), st, fuel) ==
      Outcome(Finished, st.(tape := st.tape[st.ptr := (st.tape[st.ptr] as int + k) % 256]))
  {
    if k > 0 {
      var p := seq(k, _ => Increment);
      assert p[1..] == seq(k - 1, _ => Increment);
      var st' := IncrementCell(st);
      RepeatIncrement(k - 1, st', fuel);
      assert (st'.tape[st.ptr] as int + (k - 1)) % 256 == (st.tape[st.ptr] as int + k) % 256;
      assert st'.tape[st.ptr := (st.tape[st.ptr] as int + k) % 256]
          == st.tape[st.ptr := (st.tape[st.ptr] as int + k) % 256];
    }
  }

  /** `k` consecutive `-` subtract `k` modulo 256 from the addressed cell only. */
  lemma {:induction false} RepeatDecrement(k: nat, st: State, fuel: nat)
    requires WellFormed(st)
    ensures Run(seq(k, _ => Decrement), st, fuel) ==
      Outcome(Finished, st.(tape := st.tape[st.ptr := (st.tape[st.ptr] as int - k) % 256]))
  {
    if k > 0 {
      var p := seq(k, _ => Decrement);
      assert p[1..] == seq(k - 1, _ => Decrement);
      var st' := DecrementCell(st);
      RepeatDecrement(k - 1, st', fuel);
      assert (st'.tape[st.ptr] as int - (k - 1)) % 256 == (st.tape[st.ptr] as int - k) % 256;
      assert st'.tape[st.ptr := (st.tape[st.ptr] as int - k) % 256]
          == st.tape[st.ptr := (st.tape[st.ptr] as int - k) % 256];
    }
  }

  /** A cell wraps: 256 increments, or 256 decrements, restore it. */
  lemma CellWraps(st: State, fuel: nat)
    requires WellFormed(st)
    ensures Run(seq(256, _ => Increment), st, fuel) == Outcome(Finished, st)
    ensures Run(seq(256, _ => Decrement), st, fuel) == Outcome(Finished, st)
  {
    RepeatIncrement(256, st, fuel);
    RepeatDecrement(256, st, fuel);
    assert st.tape[st.ptr := st.tape[st.ptr]] == st.tape;
  }

  /** More fuel never changes a run that did not run out of fuel. */
  lemma {:induction false} RunFuelMonotone(p: Series, st: State, fuel: nat, more: nat)
    requires WellFormed(st) && fuel <= more
    requires Run(p, st, fuel).halt != OutOfFuel
    ensures Run(p, st, more) == Run(p, st, fuel)
    decreases fuel, p
  {
    if p != [] {
      var o := Step(p[0], st, fuel);
      if p[0].Loop? {
        RunLoopFuelMonotone(p[0].body, st, fuel, more);
      }
      if o.halt == Finished {
        RunFuelMonotone(p[1..], o.st, fuel, more);
      }
    }
  }

  lemma {:induction false} RunLoopFuelMonotone(body: Series, st: State, fuel: nat, more: nat)
    requires WellFormed(st) && fuel <= more
    requires RunLoop(body, st, fuel).halt != OutOfFuel
    ensures RunLoop(body, st, more) == RunLoop(body, st, fuel)
    decreases fuel, body
  {
    if st.tape[st.ptr] != 0 {
      var o := Run(body, st, fuel - 1);
      RunFuelMonotone(body, st, fuel - 1, more - 1);
      if o.halt == Finished {
        RunLoopFuelMonotone(body, o.st, fuel - 1, more - 1);
      }
    }
  }
}
