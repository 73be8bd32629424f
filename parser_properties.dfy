/** What the parser promises: which characters become which nodes, and
    exactly when a text is rejected. */
module ParserProperties {
  import opened Wrappers
  import opened Syntax
  import opened Parser

  /** Every `[` from index `i` on has a matching `]` before the end of `s`. */
  ghost predicate ClosedFrom(s: seq<char>, i: nat)
  {
    forall k :: i <= k < |s| && s[k] == '[' ==> Close(s, k + 1, 1).Some?
  }

  // ---- bracket matching -------------------------------------------------

  /** The depth of `s[i..m]` is the first character's step plus the depth of
      the rest. */
  lemma DepthFront(s: seq<char>, i: nat, m: nat)
    requires i < m <= |s|
    ensures Depth(s[i..m]) == (if s[i] == '[' then 1 else if s[i] == ']' then -1 else 0) + Depth(s[i + 1..m])
  {
    assert s[i..m][1..] == s[i + 1..m];
  }

  /** `Close` finds the matching bracket: the first index at which the
      counter, started at `l` and moved by every bracket read, comes back to
      zero. None means the counter stays positive to the end of the text. */
  lemma {:induction false} CloseMatches(s: seq<char>, i: nat, l: nat)
    requires i <= |s| && l >= 1
    ensures Close(s, i, l).Some? ==>
      var j := Close(s, i, l).value;
      s[j] == ']' && l + Depth(s[i..j + 1]) == 0 &&
      forall m :: i <= m <= j ==> l + Depth(s[i..m]) >= 1
    ensures Close(s, i, l).None? ==> forall m :: i <= m <= |s| ==> l + Depth(s[i..m]) >= 1
    decreases |s| - i
  {
    assert s[i..i] == [];
    if i < |s| {
      var step := if s[i] == '[' then 1 else if s[i] == ']' then -1 else 0;
      forall m | i < m <= |s|
        ensures Depth(s[i..m]) == step + Depth(s[i + 1..m])
      {
        DepthFront(s, i, m);
      }
      if s[i] == ']' && l == 1 {
        assert s[i + 1..i + 1] == [];
      } else {
        CloseMatches(s, i + 1, l + step);
      }
    }
  }

  /** Starting the same scan with a lower counter finds a `]` no later, and
      strictly earlier when the counter was strictly lower. */
  lemma {:induction false} CloseEarlier(s: seq<char>, i: nat, l: nat, l': nat)
    requires i <= |s| && 1 <= l' <= l && Close(s, i, l).Some?
    ensures Close(s, i, l').Some?
    ensures Close(s, i, l').value <= Close(s, i, l).value
    ensures l' < l ==> Close(s, i, l').value < Close(s, i, l).value
    decreases |s| - i
  {
    if s[i] == '[' {
      CloseEarlier(s, i + 1, l + 1, l' + 1);
    } else if s[i] == ']' {
      if l > 1 && l' > 1 {
        CloseEarlier(s, i + 1, l - 1, l' - 1);
      }
    } else {
      CloseEarlier(s, i + 1, l, l');
    }
  }

  /** A `[` strictly inside a matched span is matched strictly inside it. */
  lemma {:induction false} CloseInner(s: seq<char>, i: nat, l: nat, k: nat)
    requires i <= |s| && l >= 1 && Close(s, i, l).Some?
    requires i <= k < Close(s, i, l).value && s[k] == '['
    ensures Close(s, k + 1, 1).Some? && Close(s, k + 1, 1).value < Close(s, i, l).value
    decreases k - i
  {
    if i == k {
      CloseEarlier(s, i + 1, l + 1, 1);
    } else if s[i] == '[' {
      CloseInner(s, i + 1, l + 1, k);
    } else if s[i] == ']' {
      CloseInner(s, i + 1, l - 1, k);
    } else {
      CloseInner(s, i + 1, l, k);
    }
  }

  /** A match found in `s` is found at the shifted index in any window of `s`
      that contains both the start of the scan and the match. */
  lemma {:induction false} CloseWindow(s: seq<char>, i: nat, l: nat, m: nat, n: nat)
    requires i <= |s| && l >= 1 && Close(s, i, l).Some?
    requires m <= i && Close(s, i, l).value < n <= |s|
    ensures Close(s[m..n], i - m, l) == Some(Close(s, i, l).value - m)
    decreases |s| - i
  {
    var w := s[m..n];
    assert w[i - m] == s[i];
    if s[i] == '[' {
      CloseWindow(s, i + 1, l + 1, m, n);
    } else if s[i] == ']' {
      if l > 1 {
        CloseWindow(s, i + 1, l - 1, m, n);
      }
    } else {
      CloseWindow(s, i + 1, l, m, n);
    }
  }

  /** A scan that runs off the end of `s` also runs off the end of `t + s`. */
  lemma {:induction false} CloseUnclosedShift(t: seq<char>, s: seq<char>, i: nat, l: nat)
    requires i <= |s| && l >= 1 && Close(s, i, l).None?
    ensures Close(t + s, |t| + i, l).None?
    decreases |s| - i
  {
    if i < |s| {
      assert (t + s)[|t| + i] == s[i];
      if s[i] == '[' {
        CloseUnclosedShift(t, s, i + 1, l + 1);
      } else if s[i] == ']' {
        CloseUnclosedShift(t, s, i + 1, l - 1);
      } else {
        CloseUnclosedShift(t, s, i + 1, l);
      }
    }
  }

  /** The text strictly between a `[` and its matching `]` has all of its own
      brackets matched inside it. */
  lemma BodyClosed(s: seq<char>, i: nat)
    requires i < |s| && Close(s, i + 1, 1).Some?
    ensures ClosedFrom(s[i + 1..Close(s, i + 1, 1).value], 0)
  {
    var j := Close(s, i + 1, 1).value;
    var body := s[i + 1..j];
    forall k | 0 <= k < |body| && body[k] == '['
      ensures Close(body, k + 1, 1).Some?
    {
      assert s[i + 1 + k] == '[';
      CloseInner(s, i + 1, 1, i + 1 + k);
      CloseWindow(s, i + 2 + k, 1, i + 1, j);
    }
  }

  // ---- properties of the parse -----------------------------------------

  /** Parsing succeeds exactly when every `[` has a matching `]`; otherwise
      the whole text is rejected. */
  lemma {:induction false} ParseFromSucceedsIff(s: seq<char>, i: nat)
    requires i <= |s|
    ensures ParseFrom(s, i).Some? <==> ClosedFrom(s, i)
    decreases |s| - i
  {
    if i < |s| {
      if s[i] == '[' {
        match Close(s, i + 1, 1)
        case None =>
        case Some(j) =>
          BodyClosed(s, i);
          ParseFromSucceedsIff(s[i + 1..j], 0);
          ParseFromSucceedsIff(s, j + 1);
          if ClosedFrom(s, j + 1) {
            forall k | i <= k < |s| && s[k] == '['
              ensures Close(s, k + 1, 1).Some?
            {
              if i < k < j {
                CloseInner(s, i + 1, 1, k);
              }
            }
          }
      } else {
        ParseFromSucceedsIff(s, i + 1);
      }
    }
  }

  lemma ParseSucceedsIff(s: seq<char>)
    ensures Parse(s).Some? <==> forall k :: 0 <= k < |s| && s[k] == '[' ==> Close(s, k + 1, 1).Some?
  {
    ParseFromSucceedsIff(s, 0);
  }

  /** An unclosed loop anywhere rejects the whole program: no text placed in
      front of a rejected text makes it parse. */
  lemma UnclosedRejectsWhole(t: seq<char>, s: seq<char>)
    requires Parse(s) == None
    ensures Parse(t + s) == None
  {
    ParseFromSucceedsIff(s, 0);
    var k :| 0 <= k < |s| && s[k] == '[' && Close(s, k + 1, 1).None?;
    CloseUnclosedShift(t, s, k + 1, 1);
    assert (t + s)[|t| + k] == '[';
    ParseFromSucceedsIff(t + s, 0);
  }

  /** Splitting a text at a loop: the brackets themselves are no commands. */
  lemma LoopTextCommands(s: seq<char>, i: nat, j: nat)
    requires i < j < |s| && s[i] == '[' && s[j] == ']'
    ensures Commands(s[i..]) == Commands(s[i + 1..j]) + Commands(s[j + 1..])
  {
    var a, b := s[i + 1..j], s[j + 1..];
    assert s[i..][1..] == s[i + 1..];
    assert Commands(s[i..]) == Commands(s[i + 1..]);
    assert s[i + 1..] == a + s[j..];
    CommandsAppend(a, s[j..]);
    assert s[j..][1..] == b;
    assert Commands(s[j..]) == Commands(b);
  }

  /** Splitting a text at a loop: one `[` for the loop itself, plus those of
      its body and of the rest. */
  lemma LoopTextOpens(s: seq<char>, i: nat, j: nat)
    requires i < j < |s| && s[i] == '[' && s[j] == ']'
    ensures multiset(s[i..])['['] == 1 + multiset(s[i + 1..j])['['] + multiset(s[j + 1..])['[']
  {
    var a, b := s[i + 1..j], s[j + 1..];
    assert s[i..] == [s[i]] + (a + ([s[j]] + b));
  }

  /** The commands of `s[i..]` are those of its first character, then those
      of the rest. */
  lemma CommandTextCommands(s: seq<char>, i: nat)
    requires i < |s|
    ensures Commands(s[i..]) == Commands([s[i]]) + Commands(s[i + 1..])
  {
    assert s[i..] == [s[i]] + s[i + 1..];
    CommandsAppend([s[i]], s[i + 1..]);
  }

  /** A character other than `[` adds no `[` to the count. */
  lemma CommandTextOpens(s: seq<char>, i: nat)
    requires i < |s| && s[i] != '['
    ensures multiset(s[i..])['['] == multiset(s[i + 1..])['[']
  {
    assert s[i..] == [s[i]] + s[i + 1..];
  }

  lemma LoopNodeSplit(body: Series, rest: Series)
    ensures Flatten([Loop(body)] + rest) == Flatten(body) + Flatten(rest)
    ensures LoopCount([Loop(body)] + rest) == 1 + LoopCount(body) + LoopCount(rest)
  {
    assert ([Loop(body)] + rest)[1..] == rest;
  }

  lemma CommandNodeSplit(c: char, rest: Series)
    requires c != '['
    ensures var node: Series := match Command(c) case Some(n) => [n] case None => [];
      Flatten(node + rest) == Commands([c]) + Flatten(rest) && LoopCount(node + rest) == LoopCount(rest)
  {
    var node: Series := match Command(c) case Some(n) => [n] case None => [];
    if node == [] {
      assert node + rest == rest;
    } else {
      assert (node + rest)[1..] == rest;
    }
  }

  /** A successful parse at a `[` is the loop node followed by the parse of
      the text after its `]`. */
  lemma LoopParseStep(s: seq<char>, i: nat) returns (j: nat)
    requires i < |s| && s[i] == '[' && ParseFrom(s, i).Some?
    ensures Close(s, i + 1, 1) == Some(j) && ParseFrom(s[i + 1..j], 0).Some? && ParseFrom(s, j + 1).Some?
    ensures ParseFrom(s, i).value == [Loop(ParseFrom(s[i + 1..j], 0).value)] + ParseFrom(s, j + 1).value
  {
    j := Close(s, i + 1, 1).value;
  }

  /** A successful parse at any other character is that character's node, if
      any, followed by the parse of the rest. */
  lemma CommandParseStep(s: seq<char>, i: nat)
    requires i < |s| && s[i] != '[' && ParseFrom(s, i).Some?
    ensures ParseFrom(s, i + 1).Some?
    ensures ParseFrom(s, i).value == (match Command(s[i]) case Some(n) => [n] case None => []) + ParseFrom(s, i + 1).value
  {
  }

  /** The primitive nodes of a parsed program, read in pre-order, are exactly
      the command characters of the text in text order. */
  lemma {:induction false} ParseFromFlatten(s: seq<char>, i: nat)
    requires i <= |s| && ParseFrom(s, i).Some?
    ensures Flatten(ParseFrom(s, i).value) == Commands(s[i..])
    decreases |s| - i
  {
    if i < |s| {
      if s[i] == '[' {
        var j := LoopParseStep(s, i);
        var body := s[i + 1..j];
        ParseFromFlatten(body, 0);
        ParseFromFlatten(s, j + 1);
        assert body[0..] == body;
        LoopTextCommands(s, i, j);
        LoopNodeSplit(ParseFrom(body, 0).value, ParseFrom(s, j + 1).value);
      } else {
        CommandParseStep(s, i);
        ParseFromFlatten(s, i + 1);
        CommandTextCommands(s, i);
        CommandNodeSplit(s[i], ParseFrom(s, i + 1).value);
      }
    }
  }

  /** A parsed program has one loop node per `[` of the text. */
  lemma {:induction false} ParseFromLoopCount(s: seq<char>, i: nat)
    requires i <= |s| && ParseFrom(s, i).Some?
    ensures LoopCount(ParseFrom(s, i).value) == multiset(s[i..])['[']
    decreases |s| - i
  {
    if i < |s| {
      if s[i] == '[' {
        var j := LoopParseStep(s, i);
        var body := s[i + 1..j];
        ParseFromLoopCount(body, 0);
        ParseFromLoopCount(s, j + 1);
        assert body[0..] == body;
        LoopTextOpens(s, i, j);
        LoopNodeSplit(ParseFrom(body, 0).value, ParseFrom(s, j + 1).value);
      } else {
        CommandParseStep(s, i);
        ParseFromLoopCount(s, i + 1);
        CommandTextOpens(s, i);
        CommandNodeSplit(s[i], ParseFrom(s, i + 1).value);
      }
    }
  }

  lemma ParseOrder(s: seq<char>)
    requires Parse(s).Some?
    ensures Flatten(Parse(s).value) == Commands(s)
    ensures LoopCount(Parse(s).value) == multiset(s)['[']
  {
    ParseFromFlatten(s, 0);
    ParseFromLoopCount(s, 0);
    assert s[0..] == s;
  }

  /** A text without `[` parses to its commands in order: each command
      character gives one node and every other character, a bare `]`
      included, gives none. */
  lemma {:induction false} FlatTextParse(s: seq<char>, i: nat)
    requires i <= |s| && forall k :: i <= k < |s| ==> s[k] != '['
    ensures ParseFrom(s, i) == Some(Commands(s[i..]))
    decreases |s| - i
  {
    if i < |s| {
      FlatTextParse(s, i + 1);
      assert s[i..][1..] == s[i + 1..];
    }
  }
}
