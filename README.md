# A verified model of a Brainfuck interpreter

This project models the core of a small Brainfuck interpreter written in Rust
(`src/main.rs`). The interpreter works in two stages:

- **The parser** turns source text into a tree of instructions. Each of
  `<` `>` `+` `-` `.` `,` becomes one node. Every other character is dropped,
  including a bare `]`. A `[` is matched with a nesting counter. The text up
  to its `]` is parsed recursively into the body of a `Loop` node. A `[`
  that is never closed ends the process.
- **The executor** walks the tree against a tape of 30000 byte cells and a
  pointer. The pointer wraps at both ends of the tape. Cells wrap modulo 256.
  `.` prints the current cell. `,` is unsupported and ends the process. A
  loop runs its body while the current cell is not zero.

Modules, one per component:

- `Syntax`: the `Node` datatype and the character-to-command map. It also
  defines three reference functions: `Commands` (the command characters of
  a text, in order), `Flatten` (the primitive nodes of a tree, in pre-order)
  and `LoopCount` (the number of loop nodes in a tree, nested ones included).
- `Parser`: `Close` is the bracket scan as a function, `Depth` is the nesting
  depth a text adds, and `ParseFrom`/`Parse`
  is the parser as a function. The methods `CollectBody` and `ParseText`
  follow the source's cursor loop and are proved equal to those functions.
  Text is a `seq<char>`, and the cursor moves one character at a time.
- `ParserProperties`: lemmas about the parser. They cover which characters
  give which nodes, and exactly when a text is rejected.
- `Tape`: the machine state (pointer, tape, output) and one function per
  primitive instruction.
- `Interpreter`: the execution semantics `Run`/`Step`/`RunLoop`, bounded by
  fuel. The class `Machine` holds the pointer, the tape (an `array`) and the
  output. Its methods `Execute` and `ExecuteLoop` update them in place, as
  the source does, and are proved equal to `Run` and `RunLoop`.
- `InterpreterProperties`: lemmas about sequencing, the fatal `,`,
  wraparound, and fuel.
- `Pipeline`: parse a text, then run it on a fresh zeroed machine.
- `ByteSkip`: the parser as written, which resumes after a loop by a byte
  count (see Findings).
- `Scenarios`: runs of concrete source texts.

Fatal exits (`process::exit`) are modelled as values. A parse that fails is
`None`. A run stopped by `,` has the outcome `InputUnsupported`, and the
output printed before the `,` is kept. A Brainfuck program may run forever,
so execution takes **fuel**. Each run of a loop body costs one unit of the
enclosing loop's fuel, and the body itself runs with the fuel that remains.
A run that reaches the bound stops with `OutOfFuel`. `RunFuelMonotone` shows
that fuel only ever cuts a run short: with more fuel, a run that did not run
out gives the same result.

The scenario `++>+++++[<+>-]` ends with 7 in cell 0 and 0 in cell 1. The
pointer ends on cell 1, not cell 0, because the loop body ends with `>-`.

## Model

| member | source | states |
|---|---|---|
| `Syntax.Command` | src/main.rs:75-81 | A character gives a node exactly when it is one of `<>+-.,`. That node is never a loop. |
| `Parser.Close` | src/main.rs:83-95 | Scanning from a position with a nesting counter finds, if anything, the position of a `]` at or after the start, inside the text. |
| `ParserProperties.CloseMatches` | src/main.rs:83-95 | The `]` that `Close` finds is the matching one: the counter, moved up by each `[` and down by each `]`, first comes back to zero there. `None` means the counter stays positive all the way to the end of the text. |
| `Parser.ParseFrom` | src/main.rs:71-112 | The recursive parser that `Parser.ParseText` is proved equal to, with the corrected character-count skip after a loop (see Left out and Findings). It has no contract of its own. What it promises is stated by `ParserProperties.ParseOrder`, `ParserProperties.ParseSucceedsIff` and `ParserProperties.UnclosedRejectsWhole`. |
| `Parser.CollectBody` | src/main.rs:83-99 | The counter ends at 0 exactly when the `[` has a matching `]`. In that case the collected text is exactly the text strictly between the brackets. |
| `Parser.ParseText` | src/main.rs:71-112 | The cursor-and-counter parser returns exactly `Parse(text)`. A loop body is the parse of the text between the brackets. Parsing resumes just after the `]`. `None` means a loop was not closed. |
| `ParserProperties.ParseSucceedsIff` | src/main.rs:82-99 | Parsing succeeds if and only if every `[` in the text has a matching `]`. |
| `ParserProperties.UnclosedRejectsWhole` | src/main.rs:96-99 | A text with an unclosed loop stays rejected whatever text is put in front of it. The whole program is rejected, with no partial result. |
| `ParserProperties.ParseOrder` | src/main.rs:74-111 | The primitive nodes of a parsed tree, in pre-order, are exactly the command characters of the text in text order. The number of loop nodes equals the number of `[`. |
| `ParserProperties.FlatTextParse` | src/main.rs:74-81 | A text without `[` parses to its command characters in order. Every other character, a bare `]` included, gives no node. |
| `Tape.Initial` | src/main.rs:20 | Execution starts with the pointer at 0, every cell 0 and no output. |
| `Tape.MoveLeft` | src/main.rs:117-123 | `<` sets the pointer to `(ptr - 1) mod 30000`, so 0 goes to 29999. The pointer stays in range. Tape and output are unchanged. |
| `Tape.MoveRight` | src/main.rs:124-130 | `>` sets the pointer to `(ptr + 1) mod 30000`, so 29999 goes to 0. The pointer stays in range. Tape and output are unchanged. |
| `Tape.IncrementCell` | src/main.rs:131-137 | `+` replaces only the current cell, with `(cell + 1) mod 256`. Pointer and output are unchanged. |
| `Tape.DecrementCell` | src/main.rs:138-144 | `-` replaces only the current cell, with `(cell - 1) mod 256`. Pointer and output are unchanged. |
| `Tape.EmitCell` | src/main.rs:145 | `.` appends exactly the current cell to the output. Tape and pointer are unchanged. |
| `Interpreter.Run` | src/main.rs:114-116 | Running a program keeps the pointer in range and the tape at 30000 cells. Output only ever grows. |
| `Interpreter.Step` | src/main.rs:116-157 | Every primitive node finishes, except `,`, which stops the run with `InputUnsupported`. |
| `Interpreter.RunLoop` | src/main.rs:150-157 | A loop entered on a zero cell changes nothing. A loop that finishes leaves a zero under the pointer. |
| `Interpreter.Machine.constructor` | src/main.rs:20 | A fresh machine has a zeroed 30000-cell tape and the pointer at 0. |
| `Interpreter.Machine.Execute` | src/main.rs:114-160 | Executing in place on the shared pointer and tape leaves exactly the state, and returns exactly the halt, that `Run` gives. |
| `Interpreter.Machine.ExecuteLoop` | src/main.rs:150-157 | The source's test of the cell followed by a `while` loop gives exactly the plain while loop `RunLoop`. |
| `InterpreterProperties.RunAppend` | src/main.rs:115-159 | Running `p + q` runs `p`, then runs `q` only if `p` finished. |
| `InterpreterProperties.InputStops` | src/main.rs:146-149 | Once a `,` is reached, the run stops in the state of that moment. Nothing after the `,` runs or prints. |
| `InterpreterProperties.RepeatRight` | src/main.rs:124-130 | `k` consecutive `>` set the pointer to `(ptr + k) mod 30000`. |
| `InterpreterProperties.RepeatLeft` | src/main.rs:117-123 | `k` consecutive `<` set the pointer to `(ptr - k) mod 30000`. |
| `InterpreterProperties.FullTurn` | src/main.rs:117-130 | 30000 `>`, or 30000 `<`, return the machine to the state it started in. |
| `InterpreterProperties.RepeatIncrement` | src/main.rs:131-137 | `k` consecutive `+` add `k` mod 256 to the current cell and change nothing else. |
| `InterpreterProperties.RepeatDecrement` | src/main.rs:138-144 | `k` consecutive `-` subtract `k` mod 256 from the current cell and change nothing else. |
| `InterpreterProperties.CellWraps` | src/main.rs:131-144 | 256 `+`, or 256 `-`, leave the cell as it was. |
| `InterpreterProperties.RunFuelMonotone` | src/main.rs:115-159 | More fuel does not change a run that did not run out of fuel. |
| `InterpreterProperties.RunLoopFuelMonotone` | src/main.rs:150-157 | More fuel does not change a loop that did not run out of fuel. |
| `Pipeline.Interpret` | src/main.rs:19-20 | A source text is rejected before anything runs exactly when one of its `[` has no matching `]`. |
| `Pipeline.RunText` | src/main.rs:19-20 | Parsing, then executing on a fresh machine, gives exactly `Interpret`. |
| `ByteSkip.ByteLen` | src/main.rs:100 | The UTF-8 length of a text, as `String::len` counts it, is never less than its number of characters. It is equal exactly when every character is ASCII. |
| `ByteSkip.ParseFromAsWritten` | src/main.rs:71-112 | The parser as the source writes it, with the byte-count skip at every depth. A successful parse has at most one top-level node per character. Its behaviour is stated by `ByteSkip.AsciiAgrees`, `ByteSkip.ByteSkipDropsCommand`, `ByteSkip.ByteSkipNested` and `ByteSkip.ByteSkipAcceptsUnclosed`. |
| `ByteSkip.AsciiAgrees` | src/main.rs:100-103 | On ASCII text, the source's byte-count skip and the character-count skip give the same parse, at every nesting depth. |
| `ByteSkip.ByteSkipDropsCommand` | src/main.rs:100-102 | On `[é]+` the source's skip drops the `+`; the character-count parser keeps it. |
| `ByteSkip.ByteSkipNested` | src/main.rs:100-103 | On `[[é]+]` the recursive parse of the loop text makes the same skip, so the `+` inside the outer loop is dropped too. |
| `ByteSkip.ByteSkipAcceptsUnclosed` | src/main.rs:96-102 | On `[é][` the source's skip jumps over the second `[`, so the text is accepted although that `[` is never closed; `Parse` rejects it. |
| `Scenarios.UnclosedScenario` | src/main.rs:82-99 | `+[+` is rejected. |
| `Scenarios.OutputScenario` | src/main.rs:131-145 | `++.` prints the single character of code 2. |
| `Scenarios.InputScenario` | src/main.rs:145-149 | `.,+.` prints one zero, then stops at `,` without running the rest. |
| `Scenarios.AdditionScenario` | src/main.rs:71-160 | `++>+++++[<+>-]` on a zero tape finishes with 7 in cell 0 and 0 in cell 1. The pointer ends on cell 1. |

## Left out

- `main` (src/main.rs:6-35) is not modelled: argument handling, `--help`, reading the file, reading stdin and the terminal check. The model starts from a source text.
- `shell` (src/main.rs:39-56) is not modelled. It is an interactive loop over stdin that nothing calls.
- Diagnostics on stderr and exit codes are not modelled. The two fatal exits are the values `None` (loop not closed) and `InputUnsupported`.
- Decoding input into characters is not modelled: UTF-8 for files, one character per byte for stdin. Text is a `seq<char>`.
- Printing is not modelled at the byte level. `print!` writes `char::from(cell)` in UTF-8, so a cell of 128 or more prints two bytes. The model's output is the sequence of cell values.
- `Interpreter.Run`: does not model programs that run forever. Execution is bounded by fuel, and `OutOfFuel` is an outcome the source does not have.
- Stack depth is not modelled. Very deep nesting can overflow the stack in the recursive `parse` and `execute`; the model has no such limit.
- `Parser.ParseFrom`: resumes after a loop just past the `]`, counting characters. The source skips the UTF-8 byte length of the loop text plus one, so on non-ASCII loop text the two differ (`ByteSkip.ByteSkipDropsCommand`). They agree on ASCII text (`ByteSkip.AsciiAgrees`). The source's behaviour is `ByteSkip.ParseFromAsWritten`.
- `Parser.ParseText`: resumes after a loop by the number of characters in the loop text, not by its UTF-8 byte length as the source does. The two agree on ASCII text (`ByteSkip.AsciiAgrees`). The source's behaviour is `ByteSkip.ParseFromAsWritten`.

## Findings

| source | as written | input that shows it | evidently intended | confidence | as-written member | corrected member |
|---|---|---|---|---|---|---|
| src/main.rs:100-102 | After a loop, the cursor skips `sub_string.len() + 1` characters. `len()` counts UTF-8 bytes, but `chars.next()` moves one character. | `[é]+`: the loop text `é` has 2 bytes, so the cursor skips `é`, `]` and `+`. The parse is `[Loop([])]`, and the `+` is lost. The same happens inside a loop (`[[é]+]`). On `[é][` the skip passes over the unclosed `[`, and the text is accepted. | Skip one character per collected character, plus one for the `]`. The parse is then `[Loop([]), Increment]`, and every command character gives a node. | high, not executed | `ByteSkip.ByteSkipDropsCommand` | `ParserProperties.ParseOrder` |
