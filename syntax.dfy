/** The instruction tree produced by the parser and walked by the executor. */
module Syntax {
  import opened Wrappers

  /** One instruction; a loop owns the ordered sequence of its body. */
  datatype Node =
    | Left
    | Right
    | Increment
    | Decrement
    | Output
    | InputReplace
    | Loop(body: Series)

  /** A program, or the body of a loop: instructions in execution order. */
  type Series = seq<Node>

  /** The instruction a single character stands for, if it is one of the six
      single-character commands; brackets and every other character give none. */
  function Command(c: char): (r: Option<Node>)
    ensures r.Some? <==> c in "<>+-.,"
    ensures r.Some? ==> !r.value.Loop?
  {
    match c
    case '<' => Some(Left)
    case '>' => Some(Right)
    case '+' => Some(Increment)
    case '-' => Some(Decrement)
    case '.' => Some(Output)
    case ',' => Some(InputReplace)
    case _ => None
  }

  /** The commands of a text, in text order, ignoring every other character. */
  function Commands(s: seq<char>): seq<Node>
  {
    if s == [] then []
    else (match Command(s[0]) case Some(n) => [n] case None => []) + Commands(s[1..])
  }

  /** The primitive (non-loop) instructions of a program, in pre-order. */
  function Flatten(p: Series): seq<Node>
  {
    if p == [] then []
    else (match p[0] case Loop(body) => Flatten(body) case n => [n]) + Flatten(p[1..])
  }

  /** The number of loop nodes in a program, nested ones included. */
  function LoopCount(p: Series): nat
  {
    if p == [] then 0
    else (match p[0] case Loop(body) => 1 + LoopCount(body) case _ => 0) + LoopCount(p[1..])
  }

  lemma {:induction false} CommandsAppend(a: seq<char>, b: seq<char>)
    ensures Commands(a + b) == Commands(a) + Commands(b)
  {
    if a == [] {
      assert a + b == b;
    } else {
      assert (a + b)[0] == a[0];
      assert (a + b)[1..] == a[1..] + b;
      CommandsAppend(a[1..], b);
    }
  }
}
