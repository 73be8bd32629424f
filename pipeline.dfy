/** Parse a whole source text, then execute it on a fresh zeroed tape with the
    pointer at cell 0 (src/main.rs, the calls of `parse` and `execute` in
    `main`). */
module Pipeline {
  import opened Wrappers
  import opened Tape
  import opened Parser
  import ParserProperties
  import opened Interpreter

  /** What a run of a source text comes to: rejected for an unclosed loop
      before anything runs, or run until it stopped, with its output. */
  datatype Verdict = LoopNotClosed | Ran(halt: Halt, output: seq<Byte>)

  /** A text is rejected, and nothing runs, exactly when one of its `[` has
      no matching `]`. */
  function Interpret(text: seq<char>, fuel: nat): (r: Verdict)
    ensures r.LoopNotClosed? <==>
      exists k :: 0 <= k < |text| && text[k] == '[' && Close(text, k + 1, 1).None?
  {
    ParserProperties.ParseSucceedsIff(text);
    match Parse(text)
    case None => LoopNotClosed
    case Some(program) =>
      var o := Run(program, Initial(), fuel);
      Ran(o.halt, o.st.output)
  }

  method RunText(text: seq<char>, fuel: nat) returns (v: Verdict)
    ensures v == Interpret(text, fuel)
  {
    var program := ParseText(text);
    if program.None? {
      return LoopNotClosed;
    }
    var machine := new Machine();
    var halt := machine.Execute(program.value, fuel);
    v := Ran(halt, machine.output);
  }
}
