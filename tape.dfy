/** The machine state the executor works on: a pointer into a fixed-size tape
    of byte cells, and the output emitted so far (src/main.rs, `execute`). */
module Tape {
  /** Number of cells on the tape. */
  const TAPE_SIZE: nat := 30000

  /** An unsigned 8-bit cell value. */
  type Byte = b: int | 0 <= b < 256

  datatype State = State(ptr: nat, tape: seq<Byte>, output: seq<Byte>)

  /** The tape has its fixed size and the pointer addresses one of its cells. */
  predicate WellFormed(st: State)
  {
    |st.tape| == TAPE_SIZE && st.ptr < TAPE_SIZE
  }

  /** The state the interpreter starts from: pointer 0, every cell 0. */
  function Initial(): (st: State)
    ensures WellFormed(st) && st.ptr == 0 && st.output == []
    ensures forall k :: 0 <= k < |st.tape| ==> st.tape[k] == 0
  {
    State(0, seq(TAPE_SIZE, _ => 0), [])
  }

  /** `<`: the pointer moves one cell down, from the first cell to the last. */
  function MoveLeft(st: State): (r: State)
    requires WellFormed(st)
    ensures WellFormed(r) && r.ptr == (st.ptr - 1) % TAPE_SIZE
    ensures r.tape == st.tape && r.output == st.output
  {
    st.(ptr := if st.ptr == 0 then TAPE_SIZE - 1 else st.ptr - 1)
  }

  /** `>`: the pointer moves one cell up, from the last cell to the first. */
  function MoveRight(st: State): (r: State)
    requires WellFormed(st)
    ensures WellFormed(r) && r.ptr == (st.ptr + 1) % TAPE_SIZE
    ensures r.tape == st.tape && r.output == st.output
  {
    st.(ptr := if st.ptr == TAPE_SIZE - 1 then 0 else st.ptr + 1)
  }

  /** `+`: the addressed cell goes up by one modulo 256; nothing else changes. */
  function IncrementCell(st: State): (r: State)
    requires WellFormed(st)
    ensures WellFormed(r) && r.ptr == st.ptr && r.output == st.output
    ensures r.tape == st.tape[st.ptr := (st.tape[st.ptr] as int + 1) % 256]
  {
    st.(tape := st.tape[st.ptr := if st.tape[st.ptr] == 255 then 0 else st.tape[st.ptr] + 1])
  }

  /** `-`: the addressed cell goes down by one modulo 256; nothing else changes. */
  function DecrementCell(st: State): (r: State)
    requires WellFormed(st)
    ensures WellFormed(r) && r.ptr == st.ptr && r.output == st.output
    ensures r.tape == st.tape[st.ptr := (st.tape[st.ptr] as int - 1) % 256]
  {
    st.(tape := st.tape[st.ptr := if st.tape[st.ptr] == 0 then 255 else st.tape[st.ptr] - 1])
  }

  /** `.`: the addressed cell's value is appended to the output; the tape and
      the pointer are unchanged. */
  function EmitCell(st: State): (r: State)
    requires WellFormed(st)
    ensures WellFormed(r) && r.ptr == st.ptr && r.tape == st.tape
    ensures r.output == st.output + [st.tape[st.ptr]]
  {
    st.(output := st.output + [st.tape[st.ptr]])
  }
}
