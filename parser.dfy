/** Recursive-descent parsing of source text into an instruction tree
    (src/main.rs, `parse`). Text is a sequence of characters, one cursor
    step per character. */
module Parser {
  import opened Wrappers
  import opened Syntax

  /** Scanning forward from index `i` with nesting counter `level`: the index
      of the `]` that brings the counter to zero, or None when the text ends
      first. Each `[` raises the counter, each `]` lowers it. */
  function Close(s: seq<char>, i: nat, level: nat): (r: Option<nat>)
    requires i <= |s| && level >= 1
    ensures r.Some? ==> i <= r.value < |s| && s[r.value] == ']'
    decreases |s| - i
  {
    if i == |s| then None
    else if s[i] == '[' then Close(s, i + 1, level + 1)
    else if s[i] == ']' then (if level == 1 then Some(i) else Close(s, i + 1, level - 1))
    else Close(s, i + 1, level)
  }

  /** The nesting depth a text adds: its `[` count minus its `]` count. */
  function Depth(t: seq<char>): int
  {
    if t == [] then 0
    else (if t[0] == '[' then 1 else if t[0] == ']' then -1 else 0) + Depth(t[1..])
  }

  /** Put `p` in front of a parse result; a failed parse stays failed. */
  function Prepend(p: Series, r: Option<Series>): Option<Series>
  {
    match r
    case None => None
    case Some(q) => Some(p + q)
  }

  /** The parse of `s[i..]`: None when a `[` has no matching `]`. A loop body
      is the parse of the text strictly between the brackets, and parsing
      resumes just after the closing bracket. */
  function ParseFrom(s: seq<char>, i: nat): Option<Series>
    requires i <= |s|
    decreases |s| - i
  {
    if i == |s| then Some([])
    else if s[i] == '[' then
      match Close(s, i + 1, 1)
      case None => None
      case Some(j) =>
        match ParseFrom(s[i + 1..j], 0)
        case None => None
        case Some(body) => Prepend([Loop(body)], ParseFrom(s, j + 1))
    else
      Prepend(match Command(s[i]) case Some(n) => [n] case None => [], ParseFrom(s, i + 1))
  }

  lemma PrependAssoc(p: Series, q: Series, r: Option<Series>)
    ensures Prepend(p, Prepend(q, r)) == Prepend(p + q, r)
  {
    match r
    case None =>
    case Some(t) => assert p + (q + t) == (p + q) + t;
  }

  lemma PrependEmpty(r: Option<Series>)
    ensures Prepend([], r) == r
  {
    match r
    case None =>
    case Some(t) => assert [] + t == t;
  }

  function Parse(s: seq<char>): Option<Series>
  {
    ParseFrom(s, 0)
  }

  /** The scan that follows a `[`: starting just after it with a counter of
      one, collect characters until the matching `]` (left out) or the end of
      the text. A final counter of zero means the bracket was closed. */
  method CollectBody(text: seq<char>, from: nat) returns (level: nat, sub: seq<char>)
    requires from <= |text|
    ensures level == 0 <==> Close(text, from, 1).Some?
    ensures level == 0 ==> sub == text[from..Close(text, from, 1).value]
  {
    level, sub := 1, [];
    var k := from;
    while k < |text|
      invariant from <= k <= |text|
      invariant level >= 1
      invariant sub == text[from..k]
      invariant Close(text, from, 1) == Close(text, k, level)
    {
      var c := text[k];
      if c == '[' {
        level := level + 1;
      } else if c == ']' {
        level := level - 1;
        if level == 0 {
          return;
        }
      }
      sub := sub + [c];
      k := k + 1;
    }
  }

  /** The parser: one pass with a cursor, appending one node per command and
      recursing on the collected text of each loop. None is the "loop not
      closed" exit. */
  method ParseText(text: seq<char>) returns (r: Option<Series>)
    ensures r == Parse(text)
    decreases |text|
  {
    var program: Series := [];
    var i := 0;
    PrependEmpty(ParseFrom(text, 0));
    while i < |text|
      invariant 0 <= i <= |text|
      invariant Parse(text) == Prepend(program, ParseFrom(text, i))
    {
      var ch := text[i];
      ghost var at := i;
      i := i + 1;
      if ch == '[' {
        var level, sub := CollectBody(text, i);
        if level > 0 {
          return None;
        }
        ghost var j := Close(text, at + 1, 1).value;
        i := i + |sub| + 1;
        assert i == j + 1;
        var body := ParseText(sub);
        if body.None? {
          assert ParseFrom(text, at) == None;
          return None;
        }
        PrependAssoc(program, [Loop(body.value)], ParseFrom(text, i));
        program := program + [Loop(body.value)];
      } else {
        var node: Series := match Command(ch) case Some(n) => [n] case None => [];
        PrependAssoc(program, node, ParseFrom(text, i));
        program := program + node;
      }
    }
    assert program + [] == program;
    r := Some(program);
  }
}
