/** The stage composition of `main`: comment removal, blank collapsing,
    labelling and paragraph joining, in that order, over the lines of one
    file; the printed text is the produced strings written back to back. */
module Pipeline {
  import opened Strings
  import opened CommentScan
  import opened CommentStripper
  import opened BlankCollapser
  import opened LineLabeler
  import opened ParagraphJoiner

  /** The lines that reach the labeller. */
  function Cleaned(lines: seq<string>): (r: seq<string>)
    ensures |lines| > 0 ==> |r| > 0
    ensures Clean(r)
    ensures NoBlankPair(r)
  {
    var stripped := RemoveComments(lines);
    var r := RemoveConsecutiveBlankLines(stripped);
    CollapseEmitsInputLines(None, stripped);
    assert forall k :: 0 <= k < |r| ==> r[k] in stripped;
    r
  }

  /** The strings `main` prints: one per line that reaches the joiner, the
      last one ending in a line break. */
  function MdStrip(lines: seq<string>): (r: seq<string>)
    ensures |lines| == 0 ==> r == ["null\n"]
    ensures |lines| > 0 ==> |r| == |Cleaned(lines)|
    ensures |r| > 0 && EndsWithBreak(r[|r| - 1])
  {
    assert NullText + "\n" == "null\n";
    ConcatParagraphLines(LabelLines(Cleaned(lines)))
  }

  /** Everything `main` prints. */
  function Printed(lines: seq<string>): string {
    Flatten(MdStrip(lines))
  }

  // ---------------------------------------------------------------------
  // No opener in the printed text

  /** Where two strings meet, no opener can straddle: either the first
      ends with a character that cannot start-or-continue an opener, or
      the second starts with one that cannot continue it. */
  predicate SafeJoint(a: string, b: string) {
    (|a| > 0 && a[|a| - 1] !in "<!-") || (|b| > 0 && b[0] !in "!-")
  }

  lemma ConcatKeepsClean(a: string, b: string)
    requires !Contains(a, Opener) && !Contains(b, Opener) && SafeJoint(a, b)
    ensures !Contains(a + b, Opener)
  {
    var s := a + b;
    assert s[..|a|] == a;
    assert s[|a|..] == b;
    forall i | 0 <= i && i + |Opener| <= |s|
      ensures !OccursAt(s, Opener, i)
    {
      if i + |Opener| <= |a| {
        OccursInPrefix(s, Opener, |a|, i);
      } else if |a| <= i {
        OccursInSuffix(s, Opener, |a|, i - |a|);
      } else {
        assert s[|a| - 1] == a[|a| - 1] && s[|a|] == b[0];
        assert s[i..i + |Opener|][|a| - 1 - i] == s[|a| - 1];
        assert s[i..i + |Opener|][|a| - i] == s[|a|];
      }
    }
  }

  lemma {:induction false} FlattenKeepsClean(ss: seq<string>)
    requires Clean(ss)
    requires forall k :: 0 <= k < |ss| - 1 ==> SafeJoint(ss[k], ss[k + 1])
    ensures !Contains(Flatten(ss), Opener)
  {
    if |ss| == 0 {
      ShorterHasNone("", Opener);
    } else {
      FlattenKeepsClean(ss[1..]);
      if |ss| > 1 {
        assert SafeJoint(ss[0], ss[1]);
        assert SafeJoint(ss[0], Flatten(ss[1..]));
      } else {
        assert ss[1..] == [];
        assert Flatten(ss) == ss[0] + "";
        assert ss[0] + "" == ss[0];
      }
      if |ss| > 1 {
        ConcatKeepsClean(ss[0], Flatten(ss[1..]));
      }
    }
  }

  /** Appending a space or a line break to opener-free text leaves it
      opener-free. */
  lemma AppendSeparatorKeepsClean(a: string, c: char)
    requires !Contains(a, Opener) && (c == ' ' || c == '\n')
    ensures !Contains(a + [c], Opener)
  {
    ShorterHasNone([c], Opener);
    ConcatKeepsClean(a, [c]);
  }

  /** The joiner's output keeps every opener-free line opener-free, and
      what it glues together without a separator starts with a character
      that cannot continue an opener. */
  lemma JoinedKeepsClean(ls: seq<string>)
    requires |ls| > 0 && Clean(ls)
    ensures var out := ConcatParagraphLines(LabelLines(ls));
            && Clean(out)
            && forall k :: 0 <= k < |out| - 1 ==> SafeJoint(out[k], out[k + 1])
  {
    var out := ConcatParagraphLines(LabelLines(ls));
    forall k | 0 <= k < |out|
      ensures !Contains(out[k], Opener)
    {
      JoinedLineIsClean(ls, k);
    }
    forall k | 0 <= k < |out| - 1
      ensures SafeJoint(out[k], out[k + 1])
    {
      JoinedJointIsSafe(ls, k);
    }
  }

  lemma JoinedLineIsClean(ls: seq<string>, k: nat)
    requires k < |ls| && !Contains(ls[k], Opener)
    ensures !Contains(ConcatParagraphLines(LabelLines(ls))[k], Opener)
  {
    var pairs := LabelLines(ls);
    var out := ConcatParagraphLines(pairs)[k];
    OutputShape(pairs, k);
    var m := |ls[k]|;
    if |out| == m {
      assert out == ls[k];
    } else {
      assert out == ls[k] + [out[m]];
      AppendSeparatorKeepsClean(ls[k], out[m]);
    }
  }

  lemma JoinedJointIsSafe(ls: seq<string>, k: nat)
    requires k + 1 < |ls|
    ensures var out := ConcatParagraphLines(LabelLines(ls));
            SafeJoint(out[k], out[k + 1])
  {
    var pairs := LabelLines(ls);
    var out := ConcatParagraphLines(pairs);
    OutputShape(pairs, k);
    OutputShape(pairs, k + 1);
    if |out[k]| == |ls[k]| {
      BlankExactly(ls[k + 1]);
      assert out[k + 1][0] == ls[k + 1][0] by {
        assert out[k + 1][..|ls[k + 1]|][0] == out[k + 1][0];
      }
    }
  }

  /** The printed text never contains `<!--`: the comment stripper emits
      no opener, and the joiner cannot assemble one across lines, since it
      glues lines together only with a space, a line break, or in front of
      a character outside `!`..`~`. */
  lemma PrintedHasNoOpener(lines: seq<string>)
    ensures !Contains(Printed(lines), Opener)
  {
    var out := MdStrip(lines);
    if |lines| == 0 {
      NullHasNoOpener(out);
    } else {
      OutputIsClean(lines);
      FlattenKeepsClean(out);
    }
  }

  lemma NullHasNoOpener(out: seq<string>)
    requires out == ["null\n"]
    ensures !Contains(Flatten(out), Opener)
  {
    assert Flatten(out) == "null\n" + Flatten([]);
    NoAngleNoOpener("null\n");
  }

  lemma OutputIsClean(lines: seq<string>)
    requires |lines| > 0
    ensures var out := MdStrip(lines);
            && Clean(out)
            && forall k :: 0 <= k < |out| - 1 ==> SafeJoint(out[k], out[k + 1])
  {
    JoinedKeepsClean(Cleaned(lines));
  }

  // ---------------------------------------------------------------------
  // Whole-pipeline examples

  /** Input that reaches the joiner as two TEXT lines prints as one line. */
  lemma TwoTextLinesPrintAsOne(lines: seq<string>, x: string, y: string)
    requires Cleaned(lines) == [x, y] && Label(x) == Text && Label(y) == Text
    ensures MdStrip(lines) == [x + (if StartsHalfWidth(y) then " " else ""), y + "\n"]
    ensures Printed(lines) == x + (if StartsHalfWidth(y) then " " else "") + y + "\n"
  {
    assert LabelLines([x, y]) == [(Text, x), (Text, y)];
    TwoTextLines(x, y);
    FlattenPair(x + (if StartsHalfWidth(y) then " " else ""), y + "\n");
  }

  /** A word of lower-case ASCII letters. */
  predicate PlainWord(s: string) {
    |s| > 0 && forall k :: 0 <= k < |s| ==> 'a' <= s[k] <= 'z'
  }

  /** A comment between two words of one line splits the line into two TEXT
      lines, which the joiner then puts back together with a space. */
  lemma InlineCommentBecomesSpace(p: string, c: string, t: string)
    requires PlainWord(p) && PlainWord(t) && !Contains(c, Closer)
    ensures Printed([p + Opener + c + Closer + t]) == p + " " + t + "\n"
  {
    InlineCommentSplits(p, c, t);
    PlainWordIsText(p);
    PlainWordIsText(t);
    TwoTextLinesPrintAsOne([p + Opener + c + Closer + t], p, t);
  }

  lemma InlineCommentSplits(p: string, c: string, t: string)
    requires PlainWord(p) && PlainWord(t) && !Contains(c, Closer)
    ensures Cleaned([p + Opener + c + Closer + t]) == [p, t]
  {
    InlineCommentStripped(p, c, t);
    assert !IsBlank(p) by { assert !IsSpace(p[0]); }
    assert !IsBlank(t) by { assert !IsSpace(t[0]); }
    CollapseKeepsPairFree(None, [p, t]);
  }

  lemma InlineCommentStripped(p: string, c: string, t: string)
    requires PlainWord(p) && PlainWord(t) && !Contains(c, Closer)
    ensures RemoveComments([p + Opener + c + Closer + t]) == [p, t]
  {
    var line := p + Opener + c + Closer + t;
    NoAngleNoOpener(p);
    NoAngleNoOpener(t);
    assert !IsBlank(t) by { assert !IsSpace(t[0]); }
    InlineComment(p, c, t);
    assert Step(line, false) == Emitted([p, t], false);
    assert [line][1..] == [];
    assert Fold(Step, [line], false).lines == [p, t] + [];
  }
}
