/** Concrete runs of whole source texts. */
module Scenarios {
  import opened Wrappers
  import opened Syntax
  import opened Tape
  import opened Parser
  import opened Interpreter
  import opened Pipeline
  import opened InterpreterProperties

  /** `+[+`: the loop is never closed, so the text is rejected. */
  lemma UnclosedScenario()
    ensures Parse("+[+") == None
    ensures Interpret("+[+", 1000) == LoopNotClosed
  {
    var s := "+[+";
    assert Close(s, 2, 1) == None;
  }

  /** `++.` prints one character, of code 2. */
  lemma OutputScenario()
    ensures Parse("++.") == Some([Increment, Increment, Output])
    ensures Interpret("++.", 0) == Ran(Finished, [2])
  {
    var s := "++.";
    var r: Series := [];
    assert ParseFrom(s, 3) == Some(r);
    r := CommandStep(s, 2, r);
    r := CommandStep(s, 1, r);
    r := CommandStep(s, 0, r);
    assert r == [Increment, Increment, Output];
    PrintTwo(Initial());
  }

  lemma PrintTwo(st: State)
    requires WellFormed(st) && st.tape[st.ptr] == 0 && st.output == []
    ensures Run([Increment, Increment, Output], st, 0).halt == Finished
    ensures Run([Increment, Increment, Output], st, 0).st.output == [2]
  {
    var p := [Increment, Increment, Output];
    assert p[1..] == [Increment, Output] && p[1..][1..] == [Output] && p[1..][1..][1..] == [];
  }

  /** `.,+.`: the first `.` prints cell 0; the `,` then ends the run, so the
      `+` and the second `.` never run. */
  lemma InputScenario()
    ensures Parse(".,+.") == Some([Output, InputReplace, Increment, Output])
    ensures Interpret(".,+.", 0) == Ran(InputUnsupported, [0])
  {
    var s := ".,+.";
    var r: Series := [];
    assert ParseFrom(s, 4) == Some(r);
    r := CommandStep(s, 3, r);
    r := CommandStep(s, 2, r);
    r := CommandStep(s, 1, r);
    r := CommandStep(s, 0, r);
    assert r == [Output, InputReplace, Increment, Output];
    PrintThenStop(Initial());
  }

  lemma PrintThenStop(st: State)
    requires WellFormed(st) && st.tape[st.ptr] == 0 && st.output == []
    ensures Run([Output, InputReplace, Increment, Output], st, 0) ==
      Outcome(InputUnsupported, st.(output := [0]))
  {
    var p := [Output, InputReplace, Increment, Output];
    assert p[1..] == [InputReplace, Increment, Output];
  }

  /** `++>+++++[<+>-]` adds 5 to 2: cell 0 ends at 7 and cell 1 at 0. The
      loop body ends with `>-`, so the pointer finishes on cell 1. */
  lemma AdditionScenario()
    ensures Parse("++>+++++[<+>-]").Some?
    ensures var o := Run(Parse("++>+++++[<+>-]").value, Initial(), 5);
      o.halt == Finished && o.st.ptr == 1 && o.st.tape[0] == 7 && o.st.tape[1] == 0 && o.st.output == []
  {
    AdditionParse();
    AdditionRun();
  }

  function TransferBody(): Series
  {
    [Left, Increment, Right, Decrement]
  }

  function AdditionProgram(): Series
  {
    [Increment, Increment, Right, Increment, Increment, Increment, Increment, Increment,
     Loop(TransferBody())]
  }

  /** With the pointer on cell 1, `[<+>-]` moves the value of cell 1 onto
      cell 0, one unit per iteration. */
  lemma {:induction false} TransferLoop(n: nat, st: State, fuel: nat)
    requires WellFormed(st) && st.ptr == 1 && st.tape[1] == n && st.tape[0] + n < 256 && n <= fuel
    ensures RunLoop(TransferBody(), st, fuel) ==
      Outcome(Finished, st.(tape := st.tape[0 := st.tape[0] + n][1 := 0]))
  {
    if n > 0 {
      var st' := st.(tape := st.tape[0 := st.tape[0] + 1][1 := n - 1]);
      var p := TransferBody();
      var s1 := MoveLeft(st);
      var s2 := IncrementCell(s1);
      var s3 := MoveRight(s2);
      var s4 := DecrementCell(s3);
      assert s4 == st';
      assert p[3..] == [Decrement] && p[3..][1..] == [];
      assert Run(p[3..], s3, fuel - 1) == Outcome(Finished, s4);
      assert p[2..][1..] == p[3..];
      assert Run(p[2..], s2, fuel - 1) == Outcome(Finished, s4);
      assert p[1..][1..] == p[2..];
      assert Run(p[1..], s1, fuel - 1) == Outcome(Finished, s4);
      assert Run(p, st, fuel - 1) == Outcome(Finished, st');
      TransferLoop(n - 1, st', fuel - 1);
      assert st'.tape[0 := st'.tape[0] + (n - 1)][1 := 0] == st.tape[0 := st.tape[0] + n][1 := 0];
    } else {
      assert st.tape[0 := st.tape[0]][1 := 0] == st.tape;
    }
  }

  lemma AdditionRun()
    ensures var o := Run(AdditionProgram(), Initial(), 5);
      o.halt == Finished && o.st.ptr == 1 && o.st.tape[0] == 7 && o.st.tape[1] == 0 && o.st.output == []
  {
    AdditionRunFrom(Initial());
  }

  /** The addition from any state with the pointer on two zero cells. */
  lemma AdditionRunFrom(st: State)
    requires WellFormed(st) && st.ptr == 0 && st.tape[0] == 0 && st.tape[1] == 0
    ensures Run(AdditionProgram(), st, 5) == Outcome(Finished, st.(ptr := 1, tape := st.tape[0 := 7][1 := 0]))
  {
    var loaded := st.(ptr := 1, tape := st.tape[0 := 2][1 := 5]);
    var done := st.(ptr := 1, tape := st.tape[0 := 7][1 := 0]);
    AdditionPrefixRun(st);
    TransferRun(loaded, 5);
    SettledTape(st.tape);
    assert loaded.(tape := loaded.tape[0 := 7][1 := 0]) == done;
    AdditionThen(st, loaded, done);
  }

  /** Overwriting cells 0 and 1 again forgets what was written there before. */
  lemma SettledTape(t: seq<Byte>)
    requires |t| >= 2
    ensures t[0 := 2][1 := 5][0 := 7][1 := 0] == t[0 := 7][1 := 0]
  {
    var a, b := t[0 := 2][1 := 5][0 := 7][1 := 0], t[0 := 7][1 := 0];
    forall k | 0 <= k < |t|
      ensures a[k] == b[k]
    {
    }
  }

  lemma TransferRun(st: State, fuel: nat)
    requires WellFormed(st) && st.ptr == 1 && st.tape[0] == 2 && st.tape[1] == 5 && fuel >= 5
    ensures Run([Loop(TransferBody())], st, fuel) == Outcome(Finished, st.(tape := st.tape[0 := 7][1 := 0]))
  {
    TransferLoop(5, st, fuel);
    var o := Step(Loop(TransferBody()), st, fuel);
    assert [Loop(TransferBody())][1..] == [];
  }

  lemma AdditionThen(st: State, loaded: State, done: State)
    requires WellFormed(st)
    requires Run(AdditionPrefix(), st, 5) == Outcome(Finished, loaded)
    requires Run([Loop(TransferBody())], loaded, 5) == Outcome(Finished, done)
    ensures Run(AdditionProgram(), st, 5) == Outcome(Finished, done)
  {
    assert AdditionProgram() == AdditionPrefix() + [Loop(TransferBody())];
    RunThen(AdditionPrefix(), [Loop(TransferBody())], st, loaded, done, 5);
  }

  function AdditionPrefix(): Series
  {
    [Increment, Increment, Right, Increment, Increment, Increment, Increment, Increment]
  }

  /** `++>+++++`: 2 in cell 0, 5 in cell 1, pointer on cell 1. */
  lemma AdditionPrefixRun(st: State)
    requires WellFormed(st) && st.ptr == 0 && st.tape[0] == 0 && st.tape[1] == 0
    ensures Run(AdditionPrefix(), st, 5) == Outcome(Finished, st.(ptr := 1, tape := st.tape[0 := 2][1 := 5]))
  {
    var two := st.(tape := st.tape[0 := 2]);
    var moved := two.(ptr := 1);
    IncrementsFromZero(2, st);
    RightStep(two);
    IncrementsFromZero(5, moved);
    PrefixThen(st, two, moved, moved.(tape := moved.tape[1 := 5]));
  }

  lemma IncrementsFromZero(k: nat, st: State)
    requires WellFormed(st) && st.tape[st.ptr] == 0 && k < 256
    ensures Run(seq(k, _ => Increment), st, 5) == Outcome(Finished, st.(tape := st.tape[st.ptr := k]))
  {
    RepeatIncrement(k, st, 5);
    var cell := st.tape[st.ptr] as int;
    assert (cell + k) % 256 == k;
  }

  lemma RightStep(st: State)
    requires WellFormed(st) && st.ptr == 0
    ensures Run([Right], st, 5) == Outcome(Finished, st.(ptr := 1))
  {
  }

  lemma PrefixThen(st: State, two: State, moved: State, loaded: State)
    requires WellFormed(st)
    requires Run(seq(2, _ => Increment), st, 5) == Outcome(Finished, two)
    requires Run([Right], two, 5) == Outcome(Finished, moved)
    requires Run(seq(5, _ => Increment), moved, 5) == Outcome(Finished, loaded)
    ensures Run(AdditionPrefix(), st, 5) == Outcome(Finished, loaded)
  {
    var a, b, c := seq(2, _ => Increment), [Right], seq(5, _ => Increment);
    assert AdditionPrefix() == a + b + c;
    RunThen(a, b, st, two, moved, 5);
    RunThen(a + b, c, st, moved, loaded, 5);
  }

  lemma AdditionParse()
    ensures Parse("++>+++++[<+>-]") == Some(AdditionProgram())
  {
    var s := "++>+++++[<+>-]";
    TransferParse(s[9..13]);
    assert Close(s, 9, 1) == Some(13);
    assert ParseFrom(s, 14) == Some([]);
    var r := LoopStep(s, 8, 13, TransferBody(), []);
    r := CommandStep(s, 7, r);
    r := CommandStep(s, 6, r);
    r := CommandStep(s, 5, r);
    r := CommandStep(s, 4, r);
    r := CommandStep(s, 3, r);
    r := CommandStep(s, 2, r);
    r := CommandStep(s, 1, r);
    r := CommandStep(s, 0, r);
    assert r == AdditionProgram();
  }

  /** The loop text `<+>-` parses to the transfer body. */
  lemma TransferParse(t: seq<char>)
    requires t == "<+>-"
    ensures ParseFrom(t, 0) == Some(TransferBody())
  {
    var r: Series := [];
    assert ParseFrom(t, 4) == Some(r);
    r := CommandStep(t, 3, r);
    r := CommandStep(t, 2, r);
    r := CommandStep(t, 1, r);
    r := CommandStep(t, 0, r);
    assert r == TransferBody();
  }

  /** A matched loop in front of a parsed rest. */
  lemma LoopStep(s: seq<char>, i: nat, j: nat, body: Series, rest: Series) returns (r: Series)
    requires i < j < |s| && s[i] == '[' && Close(s, i + 1, 1) == Some(j)
    requires ParseFrom(s[i + 1..j], 0) == Some(body) && ParseFrom(s, j + 1) == Some(rest)
    ensures r == [Loop(body)] + rest && ParseFrom(s, i) == Some(r)
  {
    r := [Loop(body)] + rest;
  }

  /** One command character in front of a parsed rest. */
  lemma CommandStep(s: seq<char>, i: nat, rest: Series) returns (r: Series)
    requires i < |s| && s[i] != '[' && Command(s[i]).Some? && ParseFrom(s, i + 1) == Some(rest)
    ensures r == [Command(s[i]).value] + rest && ParseFrom(s, i) == Some(r)
  {
    r := [Command(s[i]).value] + rest;
  }
}
