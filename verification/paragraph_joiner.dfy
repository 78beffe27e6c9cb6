/** `concatParagraphLines`: holds back one labelled line and, when the next
    one arrives, decides whether the held line ends the output line or is
    joined to the next. */
module ParagraphJoiner {
  import opened Strings
  import opened LineLabeler

  type Labelled = (LineLabel, string)

  /** `regexHALFWIDTH`, `^[!-~].*$` (mdstrip.kt line 111): the line
      starts with a printable non-space ASCII character. */
  predicate StartsHalfWidth(s: string) {
    |s| > 0 && IsHalfWidth(s[0])
  }

  /** What is appended to the held line when the next pair arrives, with
      `inCode` already toggled by that pair (mdstrip.kt lines 116-122): a
      space or nothing between two TEXT lines outside a code block, a line
      break otherwise. */
  function Terminator(prev: LineLabel, curr: LineLabel, currLine: string, inCode: bool): string {
    if prev == Text && curr == Text && !inCode then
      (if StartsHalfWidth(currLine) then " " else "")
    else "\n"
  }

  /** Kotlin's string template of a null `linePrev`. */
  const NullText := "null"

  /** The `collect` loop with `inCodeBlock` and the held pair as state,
      followed by the unconditional final flush. */
  function JoinFrom(inCode: bool, held: Option<Labelled>, pairs: seq<Labelled>): (r: seq<string>)
    ensures |r| == (if held.Some? then |pairs| + 1 else if |pairs| == 0 then 1 else |pairs|)
    ensures r[|r| - 1] == LastHeld(held, pairs) + "\n"
    decreases |pairs|
  {
    if |pairs| == 0 then [(if held.None? then NullText else held.value.1) + "\n"]
    else
      var (lab, line) := pairs[0];
      var code := if lab == CodeSep then !inCode else inCode;
      var out := if held.Some? then [held.value.1 + Terminator(held.value.0, lab, line, code)] else [];
      out + JoinFrom(code, Some(pairs[0]), pairs[1..])
  }

  /** The line held when the input ends. */
  function LastHeld(held: Option<Labelled>, pairs: seq<Labelled>): string {
    if |pairs| > 0 then pairs[|pairs| - 1].1
    else if held.Some? then held.value.1
    else NullText
  }

  /** The stage over a stream: not in a code block, nothing held. One
      string per input pair, the last one ending in a line break; on empty
      input, the flush of the null line. */
  function ConcatParagraphLines(pairs: seq<Labelled>): (r: seq<string>)
    ensures |pairs| > 0 ==> |r| == |pairs| && r[|r| - 1] == pairs[|pairs| - 1].1 + "\n"
    ensures |pairs| == 0 ==> r == [NullText + "\n"]
  {
    JoinFrom(false, None, pairs)
  }

  // ---------------------------------------------------------------------
  // The same output described position by position

  /** Number of CODESEP labels in `ps`. */
  function CodeSeps(ps: seq<Labelled>): nat {
    if |ps| == 0 then 0
    else CodeSeps(ps[..|ps| - 1]) + (if ps[|ps| - 1].0 == CodeSep then 1 else 0)
  }

  /** Inside a code block once pair `k` has been read: an odd number of
      fence lines up to and including it. */
  predicate InFence(pairs: seq<Labelled>, k: nat)
    requires k < |pairs|
  {
    CodeSeps(pairs[..k + 1]) % 2 == 1
  }

  /** What follows line `k` in the output: a space or nothing when it and
      the next line are both TEXT outside a code block (a space only before
      a half-width character), a line break otherwise, and always a line
      break after the last line. */
  function Suffix(pairs: seq<Labelled>, k: nat): string
    requires k < |pairs|
  {
    if k + 1 < |pairs| && pairs[k].0 == Text && pairs[k + 1].0 == Text && !InFence(pairs, k + 1) then
      (if StartsHalfWidth(pairs[k + 1].1) then " " else "")
    else "\n"
  }

  function Joined(pairs: seq<Labelled>): (r: seq<string>)
    ensures |r| == |pairs|
  {
    seq(|pairs|, k requires 0 <= k < |pairs| => pairs[k].1 + Suffix(pairs, k))
  }

  lemma InFenceStep(pairs: seq<Labelled>, i: nat)
    requires 0 < i < |pairs|
    ensures InFence(pairs, i) == (if pairs[i].0 == CodeSep then !InFence(pairs, i - 1) else InFence(pairs, i - 1))
  {
    assert pairs[..i + 1][..i] == pairs[..i];
  }

  /** One arrival with a line held: the held line is emitted with its
      terminator and the arriving pair is held in its place. */
  lemma JoinStep(inCode: bool, held: Labelled, pairs: seq<Labelled>)
    requires |pairs| > 0
    ensures JoinFrom(inCode, Some(held), pairs)
         == (var code := if pairs[0].0 == CodeSep then !inCode else inCode;
             [held.1 + Terminator(held.0, pairs[0].0, pairs[0].1, code)] + JoinFrom(code, Some(pairs[0]), pairs[1..]))
  {
  }

  /** The terminator chosen when pair `i` arrives is the suffix the
      position-by-position description gives line `i - 1`. */
  lemma TerminatorIsSuffix(pairs: seq<Labelled>, i: nat)
    requires 0 < i < |pairs|
    ensures Terminator(pairs[i - 1].0, pairs[i].0, pairs[i].1, InFence(pairs, i)) == Suffix(pairs, i - 1)
  {
  }

  lemma JoinedSplit(pairs: seq<Labelled>, i: nat)
    requires 0 < i <= |pairs|
    ensures Joined(pairs)[i - 1..] == [pairs[i - 1].1 + Suffix(pairs, i - 1)] + Joined(pairs)[i..]
  {
    assert Joined(pairs)[i - 1..][0] == Joined(pairs)[i - 1];
    assert Joined(pairs)[i - 1..][1..] == Joined(pairs)[i..];
  }

  lemma {:induction false} JoinFromMatchesJoined(pairs: seq<Labelled>, i: nat)
    requires 0 < i <= |pairs|
    ensures JoinFrom(InFence(pairs, i - 1), Some(pairs[i - 1]), pairs[i..]) == Joined(pairs)[i - 1..]
    decreases |pairs| - i
  {
    JoinedSplit(pairs, i);
    if i < |pairs| {
      var rest := pairs[i..];
      assert rest[0] == pairs[i] && rest[1..] == pairs[i + 1..];
      InFenceStep(pairs, i);
      JoinStep(InFence(pairs, i - 1), pairs[i - 1], rest);
      TerminatorIsSuffix(pairs, i);
      JoinFromMatchesJoined(pairs, i + 1);
    }
  }

  /** The running state machine and the position-by-position description
      agree on every non-empty input. */
  lemma ConcatIsJoined(pairs: seq<Labelled>)
    requires |pairs| > 0
    ensures ConcatParagraphLines(pairs) == Joined(pairs)
  {
    assert CodeSeps(pairs[..1]) == CodeSeps(pairs[..1][..0]) + (if pairs[0].0 == CodeSep then 1 else 0);
    JoinFromMatchesJoined(pairs, 1);
    assert pairs[1..] == pairs[0..][1..];
  }

  // ---------------------------------------------------------------------
  // Consequences

  predicate EndsWithBreak(s: string) {
    |s| > 0 && s[|s| - 1] == '\n'
  }

  /** A line that is not TEXT is never joined: it ends its output line,
      and so does the line before it. */
  lemma StructuralLinesStandAlone(pairs: seq<Labelled>, k: nat)
    requires k < |pairs| && pairs[k].0 != Text
    ensures EndsWithBreak(ConcatParagraphLines(pairs)[k])
    ensures k > 0 ==> EndsWithBreak(ConcatParagraphLines(pairs)[k - 1])
  {
    ConcatIsJoined(pairs);
  }

  /** Inside a code block no line is joined to the next. */
  lemma FencedLinesStandAlone(pairs: seq<Labelled>, k: nat)
    requires k + 1 < |pairs| && InFence(pairs, k + 1)
    ensures EndsWithBreak(ConcatParagraphLines(pairs)[k])
  {
    ConcatIsJoined(pairs);
  }

  /** Each output string is its input line followed by a line break, a
      space, or nothing; nothing only before a TEXT line that does not
      start with a half-width character. */
  lemma OutputShape(pairs: seq<Labelled>, k: nat)
    requires k < |pairs|
    ensures var out := ConcatParagraphLines(pairs)[k];
            && |pairs[k].1| <= |out| <= |pairs[k].1| + 1
            && out[..|pairs[k].1|] == pairs[k].1
            && (|out| > |pairs[k].1| ==> out[|out| - 1] == '\n' || out[|out| - 1] == ' ')
            && (|out| == |pairs[k].1| ==>
                  k + 1 < |pairs| && pairs[k + 1].0 == Text && !StartsHalfWidth(pairs[k + 1].1))
  {
    ConcatIsJoined(pairs);
  }

  /** Two TEXT lines outside a code block make one output line: the first
      is joined to the second, with a space only before a half-width
      character. */
  lemma TwoTextLines(x: string, y: string)
    ensures ConcatParagraphLines([(Text, x), (Text, y)])
         == [x + (if StartsHalfWidth(y) then " " else ""), y + "\n"]
  {
    var pairs := [(Text, x), (Text, y)];
    ConcatIsJoined(pairs);
    assert pairs[..1][..0] == [];
    assert CodeSeps(pairs[..1]) == 0;
    assert pairs[..2][..1] == pairs[..1];
    assert CodeSeps(pairs[..2]) == 0;
  }

  lemma JoinWithSpace()
    ensures Flatten(ConcatParagraphLines([(Text, "Hello"), (Text, "World")])) == "Hello World\n"
  {
    TwoTextLines("Hello", "World");
    FlattenPair("Hello" + " ", "World" + "\n");
  }

  lemma JoinWithoutSpace()
    ensures Flatten(ConcatParagraphLines([(Text, "Hello"), (Text, "世界")])) == "Hello世界\n"
  {
    TwoTextLines("Hello", "世界");
    assert !StartsHalfWidth("世界");
    FlattenPair("Hello" + "", "世界" + "\n");
    assert "Hello" + "" + ("世界" + "\n") == "Hello世界\n";
  }

  /** The text lines between two fence lines are each emitted with their
      own line break. */
  lemma FenceLinesPassThrough()
    ensures ConcatParagraphLines([(CodeSep, "```"), (Text, "some code"), (Text, "more code"), (CodeSep, "```")])
         == ["```\n", "some code\n", "more code\n", "```\n"]
  {
    var pairs := [(CodeSep, "```"), (Text, "some code"), (Text, "more code"), (CodeSep, "```")];
    ConcatIsJoined(pairs);
    assert pairs[..1][..0] == [];
    assert CodeSeps(pairs[..1]) == 1;
    assert pairs[..2][..1] == pairs[..1];
    assert CodeSeps(pairs[..2]) == 1;
    assert pairs[..3][..2] == pairs[..2];
    assert CodeSeps(pairs[..3]) == 1;
    assert Suffix(pairs, 1) == "\n";
    assert Joined(pairs)[0] == "```" + "\n" == "```\n";
    assert Joined(pairs)[1] == "some code" + "\n" == "some code\n";
    assert Joined(pairs)[2] == "more code" + "\n" == "more code\n";
    assert Joined(pairs)[3] == "```" + "\n" == "```\n";
  }

  lemma EmptyInputFlushesNull()
    ensures ConcatParagraphLines([]) == ["null\n"]
  {
    assert NullText + "\n" == "null\n";
  }
}
