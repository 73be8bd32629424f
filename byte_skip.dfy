/** The parser as written resumes after a loop by skipping as many characters
    as the collected loop text has BYTES in UTF-8, plus one for the `]`
    (src/main.rs:100-102). The two counts agree only on ASCII text: a
    non-ASCII character inside a loop makes the cursor overshoot and drop
    the characters that follow the `]`. */
module ByteSkip {
  import opened Wrappers
  import opened Syntax
  import opened Parser

  /** Bytes taken by a character in UTF-8. */
  function Utf8Len(c: char): (n: nat)
    ensures 1 <= n <= 4 && (n == 1 <==> c as int < 0x80)
  {
    if c as int < 0x80 then 1
    else if c as int < 0x800 then 2
    else if c as int < 0x1_0000 then 3
    else 4
  }

  /** Bytes taken by a text in UTF-8: never fewer than its characters, and as
      many exactly when it is ASCII. */
  function ByteLen(s: seq<char>): (n: nat)
    ensures n >= |s|
    ensures n == |s| <==> forall k :: 0 <= k < |s| ==> s[k] as int < 0x80
  {
    if s == [] then 0 else Utf8Len(s[0]) + ByteLen(s[1..])
  }

  /** `ParseFrom` with the cursor advanced by the byte length of the loop
      text; skipping past the end of the text ends the parse. The loop text
      is parsed by this same procedure, so the skip applies at every depth.
      A success has at most one top-level node per remaining character. */
  function ParseFromAsWritten(s: seq<char>, i: nat): (r: Option<Series>)
    requires i <= |s|
    ensures r.Some? ==> |r.value| <= |s| - i
    decreases |s|, |s| - i
  {
    if i == |s| then Some([])
    else if s[i] == '[' then
      match Close(s, i + 1, 1)
      case None => None
      case Some(j) =>
        var resume := i + 1 + ByteLen(s[i + 1..j]) + 1;
        match ParseFromAsWritten(s[i + 1..j], 0)
        case None => None
        case Some(body) =>
          Prepend([Loop(body)], if resume < |s| then ParseFromAsWritten(s, resume) else Some([]))
    else
      Prepend(match Command(s[i]) case Some(n) => [n] case None => [], ParseFromAsWritten(s, i + 1))
  }

  /** On ASCII text the parser as written and the corrected parser agree, at
      every depth of nesting. */
  lemma {:induction false} AsciiAgrees(s: seq<char>, i: nat)
    requires i <= |s| && forall k :: 0 <= k < |s| ==> s[k] as int < 0x80
    ensures ParseFromAsWritten(s, i) == ParseFrom(s, i)
    decreases |s|, |s| - i
  {
    if i < |s| {
      if s[i] == '[' {
        match Close(s, i + 1, 1)
        case None =>
        case Some(j) =>
          var body := s[i + 1..j];
          assert forall k :: 0 <= k < |body| ==> body[k] == s[i + 1 + k];
          AsciiAgrees(body, 0);
          if j + 1 < |s| {
            AsciiAgrees(s, j + 1);
          }
          AsciiLoop(s, i, j);
      } else {
        AsciiAgrees(s, i + 1);
      }
    }
  }

  /** The step of `AsciiAgrees` at a loop: when the two parsers agree on the
      loop text and on the rest, they agree on the whole. */
  lemma AsciiLoop(s: seq<char>, i: nat, j: nat)
    requires i < j < |s| && s[i] == '[' && Close(s, i + 1, 1) == Some(j)
    requires forall k :: 0 <= k < |s| ==> s[k] as int < 0x80
    requires ParseFromAsWritten(s[i + 1..j], 0) == ParseFrom(s[i + 1..j], 0)
    requires j + 1 < |s| ==> ParseFromAsWritten(s, j + 1) == ParseFrom(s, j + 1)
    ensures ParseFromAsWritten(s, i) == ParseFrom(s, i)
  {
    var body := s[i + 1..j];
    assert forall k :: 0 <= k < |body| ==> body[k] == s[i + 1 + k];
    assert ByteLen(body) == |body|;
  }

  /** `[é]+`: the loop text `é` is two bytes long, so the cursor skips `é`,
      `]` and also `+`, which the corrected parser keeps. */
  lemma ByteSkipDropsCommand()
    ensures ParseFromAsWritten("[\U{E9}]+", 0) == Some([Loop([])])
    ensures Parse("[\U{E9}]+") == Some([Loop([]), Increment])
  {
    var s := "[\U{E9}]+";
    LoopOfAccent(s);
    assert ParseFrom(s, 4) == Some([]);
    assert ParseFrom(s, 3) == Some([Increment]) by {
      assert [Increment] + [] == [Increment];
    }
    assert [Loop([])] + [] == [Loop([])];
    assert [Loop([])] + [Increment] == [Loop([]), Increment];
  }

  /** `[[é]+]`: the loop text is parsed by the same procedure, so the inner
      skip drops the `+` inside the outer loop as well. */
  lemma ByteSkipNested()
    ensures ParseFromAsWritten("[[\U{E9}]+]", 0) == Some([Loop([Loop([])])])
    ensures Parse("[[\U{E9}]+]") == Some([Loop([Loop([]), Increment])])
  {
    var s := "[[\U{E9}]+]";
    var t := s[1..5];
    assert t == "[\U{E9}]+";
    ByteSkipDropsCommand();
    assert Close(s, 1, 1) == Some(5);
    NestedAsWritten(s);
    NestedCorrected(s);
  }

  /** The outer loop of `[[é]+]` under `Parse`: its body is the parse of
      `[é]+`, which keeps the `+`. */
  lemma NestedCorrected(s: seq<char>)
    requires s == "[[\U{E9}]+]" && Close(s, 1, 1) == Some(5)
    requires ParseFrom(s[1..5], 0) == Some([Loop([]), Increment])
    ensures ParseFrom(s, 0) == Some([Loop([Loop([]), Increment])])
  {
    assert ParseFrom(s, 6) == Some([]);
    assert [Loop([Loop([]), Increment])] + [] == [Loop([Loop([]), Increment])];
  }

  /** The outer loop of `[[é]+]` as written: its five-byte text is skipped
      to the end, and its body is the parse of `[é]+` as written. */
  lemma NestedAsWritten(s: seq<char>)
    requires s == "[[\U{E9}]+]" && Close(s, 1, 1) == Some(5)
    requires ParseFromAsWritten(s[1..5], 0) == Some([Loop([])])
    ensures ParseFromAsWritten(s, 0) == Some([Loop([Loop([])])])
  {
    assert ByteLen(s[1..5]) == 5;
    assert [Loop([Loop([])])] + [] == [Loop([Loop([])])];
  }

  /** `[é][`: the same skip jumps over the second `[`, so the parser as
      written accepts a text whose last loop is never closed. */
  lemma ByteSkipAcceptsUnclosed()
    ensures ParseFromAsWritten("[\U{E9}][", 0) == Some([Loop([])])
    ensures Parse("[\U{E9}][") == None
  {
    var s := "[\U{E9}][";
    LoopOfAccent(s);
    assert Close(s, 4, 1) == None;
    assert [Loop([])] + [] == [Loop([])];
  }

  /** The loop `[é]` at the start of `s` has an empty body under both
      parsers, and its text is two bytes long. */
  lemma LoopOfAccent(s: seq<char>)
    requires |s| == 4 && s[0] == '[' && s[1] == '\U{E9}' && s[2] == ']'
    ensures Close(s, 1, 1) == Some(2)
    ensures ByteLen(s[1..2]) == 2
    ensures ParseFrom(s[1..2], 0) == Some([])
    ensures ParseFromAsWritten(s[1..2], 0) == Some([])
  {
    var t := s[1..2];
    assert t == ['\U{E9}'];
    assert t[1..] == [];
    assert ParseFrom(t, 1) == Some([]);
    assert ParseFromAsWritten(t, 1) == Some([]);
    var none: Series := [];
    assert Command(t[0]) == None;
    assert none + none == none;
  }
}
