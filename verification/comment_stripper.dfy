/** `removeComments`: a two-state machine over lines that drops XML comment
    spans, including spans that open on one line and close on a later one. */
module CommentStripper {
  import opened Strings
  import opened CommentScan

  /** What one call emits, each string its own element, and the
      `inComment` flag it leaves behind. */
  datatype Emitted = Emitted(lines: seq<string>, inComment: bool)

  /** Some opener on the line has no closer starting after it. */
  ghost predicate Unclosed(line: string) {
    exists i :: OccursAt(line, Opener, i) && forall j :: i + |Opener| <= j ==> !OccursAt(line, Closer, j)
  }

  /** No closer shares a character with an opener (as in `<!-->` or `<!--->`). */
  ghost predicate OverlapFree(line: string) {
    forall i, j :: OccursAt(line, Opener, i) && OccursAt(line, Closer, j) ==>
      j + |Closer| <= i || i + |Opener| <= j
  }

  /** `whenInNormalLine`: outside a comment. A blank line emits `""`; an
      opener emits the text before it, then either stays in the comment or,
      when the comment closes on this line, processes what follows the
      closer the same way; a closer with no opener emits the line rebuilt. */
  function NormalLine(line: string): (r: Emitted)
    ensures |r.lines| >= 1
    ensures Clean(r.lines)
    ensures !Contains(line, Opener) ==> r == Emitted([if IsBlank(line) then "" else line], false)
    decreases |line|
  {
    if IsBlank(line) then Emitted([""], false)
    else
      var g := Scan(line);
      ScanRebuilds(line);
      ScanPrefixIsClean(line);
      if g.prec.Some? then
        if g.comm.None? then Emitted([g.prec.value], false)
        else if g.succ.None? then Emitted([g.prec.value], true)
        else
          var rest := NormalLine(g.succ.value);
          Emitted([g.prec.value] + rest.lines, rest.inComment)
      else if g.comm.None? || g.succ.None? then Emitted([], false)
      else Emitted([g.comm.value + Closer + g.succ.value], false)
  }

  /** `whenInCommentLine`: inside a comment. Nothing is emitted unless the
      scan finds text after a closer, which is then processed as a normal line. */
  function CommentLine(line: string): (r: Emitted)
    ensures Clean(r.lines)
    ensures !Contains(line, Closer) ==> r == Emitted([], true)
    ensures !Contains(line, Opener) ==> forall j :: FirstAt(line, Closer, j) ==>
              r == NormalLine(line[j + |Closer|..])
  {
    if IsBlank(line) then
      BlankHasNoMarker(line, Closer);
      Emitted([], true)
    else
      var g := Scan(line);
      ScanSuffix(line);
      if g.succ.None? then Emitted([], true)
      else NormalLine(g.succ.value)
  }

  /** The scan returns text after a closer only when the line holds one,
      and on a line without an opener that text follows the first closer. */
  lemma ScanSuffix(line: string)
    ensures !Contains(line, Closer) ==> Scan(line).succ.None?
    ensures !Contains(line, Opener) ==> forall j :: FirstAt(line, Closer, j) ==>
              Scan(line).succ == Some(line[j + |Closer|..])
  {
    if !Contains(line, Closer) {
      HasPairHasCloser(line);
      ScanShape(line);
    }
    if !Contains(line, Opener) {
      forall j | FirstAt(line, Closer, j)
        ensures Scan(line).succ == Some(line[j + |Closer|..])
      {
        ScanOnCloserOnly(line, j);
      }
    }
  }

  /** One line of the `collect` loop: the flag the previous line left picks
      the handler (mdstrip.kt line 69). Outside a comment an opener-free
      line passes through (blank as `""`); inside a comment a closer-free
      line is swallowed. */
  function Step(line: string, inComment: bool): (r: Emitted)
    ensures Clean(r.lines)
    ensures !inComment && !Contains(line, Opener) ==> r == Emitted([if IsBlank(line) then "" else line], false)
    ensures inComment && !Contains(line, Closer) ==> r == Emitted([], true)
  {
    if inComment then CommentLine(line) else NormalLine(line)
  }

  /** No emitted element holds an opener. */
  predicate Clean(lines: seq<string>) {
    forall k :: 0 <= k < |lines| ==> !Contains(lines[k], Opener)
  }

  /** The `collect` loop for a given per-line handler: the flag threads from
      line to line and the emitted strings are concatenated. */
  function Fold(step: (string, bool) -> Emitted, lines: seq<string>, inComment: bool): Emitted
  {
    if |lines| == 0 then Emitted([], inComment)
    else
      var first := step(lines[0], inComment);
      var rest := Fold(step, lines[1..], first.inComment);
      Emitted(first.lines + rest.lines, rest.inComment)
  }

  /** The stripper's state machine run over a sequence of lines. */
  function Strip(lines: seq<string>, inComment: bool): (r: Emitted)
    ensures Clean(r.lines)
    ensures |lines| > 0 && !inComment ==> |r.lines| > 0
  {
    FoldOfStepIsClean(lines, inComment);
    Fold(Step, lines, inComment)
  }

  lemma {:induction false} FoldOfStepIsClean(lines: seq<string>, inComment: bool)
    ensures Clean(Fold(Step, lines, inComment).lines)
  {
    if |lines| > 0 {
      var first := Step(lines[0], inComment);
      FoldOfStepIsClean(lines[1..], first.inComment);
      var rest := Fold(Step, lines[1..], first.inComment);
      assert Fold(Step, lines, inComment).lines == first.lines + rest.lines;
    }
  }

  /** `removeComments` on a whole file, starting outside any comment. */
  function RemoveComments(lines: seq<string>): (r: seq<string>)
    ensures Clean(r)
    ensures |lines| > 0 ==> |r| > 0
  {
    Strip(lines, false).lines
  }

  // ---------------------------------------------------------------------
  // Facts about the scan that the stripper relies on

  /** The prefix the scan returns stops before the first opener. */
  lemma ScanPrefixIsClean(s: string)
    ensures Scan(s).prec.Some? ==> !Contains(Scan(s).prec.value, Opener)
  {
    match FindFrom(s, Opener, 0) {
      case Some(i) =>
        forall k | OccursAt(s[..i], Opener, k)
          ensures false
        {
          OccursInPrefix(s, Opener, i, k);
        }
      case None =>
    }
  }

  lemma HasPairHasCloser(s: string)
    ensures HasPair(s) ==> Contains(s, Closer)
  {
    if HasPair(s) {
      var i, j :| PairAt(s, i, j);
      assert 0 <= j <= |s|;
    }
  }

  /** A marker starts with a non-space character, so a blank line holds none. */
  lemma BlankHasNoMarker(s: string, pat: string)
    requires IsBlank(s) && |pat| > 0 && !IsSpace(pat[0])
    ensures forall i :: !OccursAt(s, pat, i)
  {
    forall i | 0 <= i && i + |pat| <= |s|
      ensures !OccursAt(s, pat, i)
    {
      assert s[i..i + |pat|][0] == s[i];
    }
  }

  /** When the scan finds a pair, the normal line emits the prefix and
      continues after the closer. */
  lemma NormalLineOnPair(line: string, i: nat, j: nat)
    requires FirstPair(line, i, j)
    ensures NormalLine(line) == Emitted([line[..i]] + NormalLine(line[j + |Closer|..]).lines,
                                        NormalLine(line[j + |Closer|..]).inComment)
  {
    MarkerIsNotBlank(line, Opener, i);
    ScanOnFirstPair(line, i, j);
  }

  lemma MarkerIsNotBlank(s: string, pat: string, i: int)
    requires OccursAt(s, pat, i) && |pat| > 0 && !IsSpace(pat[0])
    ensures !IsBlank(s)
  {
    assert s[i] == s[i..i + |pat|][0];
  }

  /** An unclosed opener in a suffix is an unclosed opener of the line. */
  lemma UnclosedInSuffix(line: string, d: nat)
    requires d <= |line| && Unclosed(line[d..])
    ensures Unclosed(line)
  {
    var t := line[d..];
    var a :| OccursAt(t, Opener, a) && forall b :: a + |Opener| <= b ==> !OccursAt(t, Closer, b);
    OccursInSuffix(line, Opener, d, a);
    forall b | a + d + |Opener| <= b
      ensures !OccursAt(line, Closer, b)
    {
      OccursInSuffix(line, Closer, d, b - d);
    }
  }

  /** Without overlapping markers, an unclosed opener cannot sit inside the
      first comment pair, so it survives into the text after the closer. */
  lemma UnclosedAfterPair(line: string, i: nat, j: nat)
    requires FirstPair(line, i, j) && Unclosed(line) && OverlapFree(line)
    ensures Unclosed(line[j + |Closer|..]) && OverlapFree(line[j + |Closer|..])
  {
    var d := j + |Closer|;
    var t := line[d..];
    var a :| OccursAt(line, Opener, a) && forall b :: a + |Opener| <= b ==> !OccursAt(line, Closer, b);
    assert d <= a;
    var a' := a - d;
    OccursInSuffix(line, Opener, d, a');
    forall b: nat | a' + |Opener| <= b
      ensures !OccursAt(t, Closer, b)
    {
      OccursInSuffix(line, Closer, d, b);
    }
    forall x: nat, y: nat | OccursAt(t, Opener, x) && OccursAt(t, Closer, y)
      ensures y + |Closer| <= x || x + |Opener| <= y
    {
      OccursInSuffix(line, Opener, d, x);
      OccursInSuffix(line, Closer, d, y);
    }
  }

  // ---------------------------------------------------------------------
  // Properties of one line

  /** The flag a normal line leaves is set only when some opener on it has
      no closer after it; and when no closer overlaps an opener, every such
      opener does set it. */
  lemma {:induction false} NormalLineState(line: string)
    ensures NormalLine(line).inComment ==> Unclosed(line)
    ensures Unclosed(line) && OverlapFree(line) ==> NormalLine(line).inComment
    decreases |line|
  {
    match FindFrom(line, Opener, 0) {
      case None =>
        StateWithoutOpener(line);
      case Some(i) =>
        match FindFrom(line, Closer, i + |Opener|) {
          case None =>
            StateWithUnclosedOpener(line, i);
          case Some(j) =>
            PairBranch(line, i, j);
            var t := line[j + |Closer|..];
            NormalLineOnPair(line, i, j);
            NormalLineState(t);
            UnclosedTracksSuffix(line, i, j);
        }
    }
  }

  /** Without an opener the flag stays clear and nothing is unclosed. */
  lemma StateWithoutOpener(line: string)
    requires !Contains(line, Opener)
    ensures !NormalLine(line).inComment && !Unclosed(line)
  {
  }

  /** The first opener has no closer after it: the flag is set. */
  lemma StateWithUnclosedOpener(line: string, i: nat)
    requires FirstAt(line, Opener, i)
    requires forall k :: i + |Opener| <= k ==> !OccursAt(line, Closer, k)
    ensures NormalLine(line).inComment && Unclosed(line)
  {
    OpenerBranch(line, i);
    MarkerIsNotBlank(line, Opener, i);
    assert OccursAt(line, Opener, i);
  }

  /** Around the first pair, an unclosed opener of the text after the
      closer is one of the line, and without overlapping markers the
      converse holds too. */
  lemma UnclosedTracksSuffix(line: string, i: nat, j: nat)
    requires FirstPair(line, i, j)
    ensures Unclosed(line[j + |Closer|..]) ==> Unclosed(line)
    ensures Unclosed(line) && OverlapFree(line) ==>
              Unclosed(line[j + |Closer|..]) && OverlapFree(line[j + |Closer|..])
  {
    if Unclosed(line[j + |Closer|..]) {
      UnclosedInSuffix(line, j + |Closer|);
    }
    if Unclosed(line) && OverlapFree(line) {
      UnclosedAfterPair(line, i, j);
    }
  }

  // ---------------------------------------------------------------------
  // Lines built around markers

  /** An opener placed after opener-free text is the first opener: the
      opener's later characters are never `<`, so no occurrence straddles. */
  lemma OpenerAfterCleanText(p: string, u: string)
    requires !Contains(p, Opener)
    ensures FirstAt(p + Opener + u, Opener, |p|)
  {
    var s := p + Opener + u;
    assert s[|p|..|p| + |Opener|] == Opener;
    forall k | 0 <= k < |p|
      ensures !OccursAt(s, Opener, k)
    {
      if k + |Opener| <= |p| {
        assert s[..|p|] == p;
        OccursInPrefix(s, Opener, |p|, k);
      } else {
        assert s[|p|] == '<';
        assert k + |Opener| <= |s| ==> s[k..k + |Opener|][|p| - k] == s[|p|];
      }
    }
  }

  /** Likewise a closer placed after closer-free text is the first closer:
      a closer ends in `>`, and the closer's first two characters are not. */
  lemma CloserAfterCleanText(c: string, t: string)
    requires !Contains(c, Closer)
    ensures FirstAt(c + Closer + t, Closer, |c|)
  {
    var s := c + Closer + t;
    assert s[|c|..|c| + |Closer|] == Closer;
    forall k | 0 <= k < |c|
      ensures !OccursAt(s, Closer, k)
    {
      if k + |Closer| <= |c| {
        assert s[..|c|] == c;
        OccursInPrefix(s, Closer, |c|, k);
      } else {
        assert s[k + 2] == '-';
        assert k + |Closer| <= |s| ==> s[k..k + |Closer|][2] == s[k + 2];
      }
    }
  }

  /** In `P<!--C-->S` with no opener in `P` and no closer in `C`, the
      markers written out form the first pair. */
  lemma PairOfCleanParts(p: string, c: string, t: string)
    requires !Contains(p, Opener) && !Contains(c, Closer)
    ensures FirstPair(p + Opener + c + Closer + t, |p|, |p| + |Opener| + |c|)
  {
    var s := p + Opener + c + Closer + t;
    assert s == p + Opener + (c + Closer + t);
    OpenerAfterCleanText(p, c + Closer + t);
    FirstCloserAfterOpener(p, c, t);
    PairBranch(s, |p|, |p| + |Opener| + |c|);
  }

  /** The closer written after `C` is the first one after the opener. */
  lemma FirstCloserAfterOpener(p: string, c: string, t: string)
    requires !Contains(c, Closer)
    ensures var s := p + Opener + c + Closer + t;
            && OccursAt(s, Closer, |p| + |Opener| + |c|)
            && forall k :: |p| + |Opener| <= k < |p| + |Opener| + |c| ==> !OccursAt(s, Closer, k)
  {
    var s := p + Opener + c + Closer + t;
    var d := |p| + |Opener|;
    CloserAfterCleanText(c, t);
    assert s[d..] == c + Closer + t;
    OccursInSuffix(s, Closer, d, |c|);
    forall k | d <= k < d + |c|
      ensures !OccursAt(s, Closer, k)
    {
      OccursInSuffix(s, Closer, d, k - d);
    }
  }

  /** `P<!--C-->S` with the first opener and the first closer where they
      appear is split by the one-line regex into exactly those groups. */
  lemma ScanOfPair(p: string, c: string, t: string)
    requires !Contains(p, Opener) && !Contains(c, Closer)
    ensures Scan(p + Opener + c + Closer + t) == Groups(Some(p), Some(c), Some(t))
    ensures FirstPair(p + Opener + c + Closer + t, |p|, |p| + |Opener| + |c|)
  {
    var s := p + Opener + c + Closer + t;
    var d := |p| + |Opener|;
    var j := d + |c|;
    PairOfCleanParts(p, c, t);
    ScanOnFirstPair(s, |p|, j);
    assert s[..|p|] == p;
    assert s[d..j] == c;
    assert s[j + |Closer|..] == t;
  }

  /** `P<!--C-->S` outside a comment: the prefix is emitted as its own
      element and the suffix is processed as a fresh normal line. */
  lemma InlineComment(p: string, c: string, t: string)
    requires !Contains(p, Opener) && !Contains(c, Closer)
    ensures NormalLine(p + Opener + c + Closer + t)
         == Emitted([p] + NormalLine(t).lines, NormalLine(t).inComment)
  {
    var s := p + Opener + c + Closer + t;
    ScanOfPair(p, c, t);
    NormalLineOnPair(s, |p|, |p| + |Opener| + |c|);
    assert s[..|p|] == p;
    assert s[|p| + |Opener| + |c| + |Closer|..] == t;
  }

  /** `P<!--C` with no closer after the opener: the prefix is emitted and
      the stripper enters a comment. */
  lemma OpeningLine(p: string, c: string)
    requires !Contains(p, Opener) && !Contains(c, Closer)
    ensures NormalLine(p + Opener + c) == Emitted([p], true)
  {
    var s := p + Opener + c;
    var d := |p| + |Opener|;
    OpenerAfterCleanText(p, c);
    assert s[d..] == c;
    forall k | d <= k
      ensures !OccursAt(s, Closer, k)
    {
      OccursInSuffix(s, Closer, d, k - d);
    }
    OpenerBranch(s, |p|);
    MarkerIsNotBlank(s, Opener, |p|);
    assert s[..|p|] == p;
  }

  /** `C-->S` inside a comment, on a line with no opener: everything up to
      the first closer is dropped and the rest is a fresh normal line. */
  lemma ClosingLine(c: string, t: string)
    requires !Contains(c, Closer) && !Contains(c + Closer + t, Opener)
    ensures CommentLine(c + Closer + t) == NormalLine(t)
  {
    CloserAfterCleanText(c, t);
    assert (c + Closer + t)[|c| + |Closer|..] == t;
  }

  /** Inside a comment, a line holding a whole `<!--...-->` pair resumes
      after that pair's closer, not after the closer that ends the open
      comment: text between the two is dropped. */
  lemma ClosingLineWithPair(q: string, c: string, t: string)
    requires !Contains(q, Opener) && !Contains(c, Closer)
    ensures CommentLine(q + Opener + c + Closer + t) == NormalLine(t)
  {
    var s := q + Opener + c + Closer + t;
    ScanOfPair(q, c, t);
    MarkerIsNotBlank(s, Opener, |q|);
  }

  /** Inside a comment, a line whose closer comes before an opener that is
      never closed stays in the comment and emits nothing: the opener-only
      pattern wins over the closer-only one, so the text after the closer
      is dropped with the rest. */
  lemma ClosingLineWithUnclosedOpener(q: string, c: string)
    requires !Contains(q, Opener) && !Contains(c, Closer)
    ensures CommentLine(q + Opener + c) == Emitted([], true)
  {
    var s := q + Opener + c;
    var d := |q| + |Opener|;
    OpenerAfterCleanText(q, c);
    assert s[d..] == c;
    forall k | d <= k
      ensures !OccursAt(s, Closer, k)
    {
      OccursInSuffix(s, Closer, d, k - d);
    }
    OpenerBranch(s, |q|);
    ScanOnOpenerOnly(s, |q|);
    MarkerIsNotBlank(s, Opener, |q|);
  }

  // ---------------------------------------------------------------------
  // Properties of the whole stream

  /** The fold over lines composes: running it over a file in two pieces,
      the second starting in the state the first left, is running it over
      the whole file. */
  lemma {:induction false} FoldAppend(step: (string, bool) -> Emitted, a: seq<string>, b: seq<string>, inComment: bool)
    ensures Fold(step, a + b, inComment).lines
         == Fold(step, a, inComment).lines + Fold(step, b, Fold(step, a, inComment).inComment).lines
    ensures Fold(step, a + b, inComment).inComment
         == Fold(step, b, Fold(step, a, inComment).inComment).inComment
    decreases |a|
  {
    if |a| == 0 {
      assert a + b == b;
    } else {
      var first := step(a[0], inComment);
      var mid := Fold(step, a[1..], first.inComment);
      var rb := Fold(step, b, mid.inComment);
      var tail := Fold(step, a[1..] + b, first.inComment);
      assert (a + b)[0] == a[0] && (a + b)[1..] == a[1..] + b;
      FoldAppend(step, a[1..], b, first.inComment);
      assert tail.lines == mid.lines + rb.lines;
      assert Fold(step, a + b, inComment).lines == first.lines + tail.lines;
      AppendAssoc(first.lines, mid.lines, rb.lines);
    }
  }

  /** Stripping a file in two pieces is stripping it whole. */
  lemma StripAppend(a: seq<string>, b: seq<string>, inComment: bool)
    ensures Strip(a + b, inComment)
         == Emitted(Strip(a, inComment).lines + Strip(b, Strip(a, inComment).inComment).lines,
                    Strip(b, Strip(a, inComment).inComment).inComment)
  {
    FoldAppend(Step, a, b, inComment);
  }

  /** Each line, with a whitespace-only line replaced by the empty string. */
  function BlanksEmptied(lines: seq<string>): (r: seq<string>)
    ensures |r| == |lines|
  {
    seq(|lines|, k requires 0 <= k < |lines| => if IsBlank(lines[k]) then "" else lines[k])
  }

  /** A file in which no line holds an opener passes through unchanged,
      except that whitespace-only lines come out empty; lone closers are
      kept as written. */
  lemma {:induction false} OpenerFreeLinesPassThrough(lines: seq<string>)
    requires forall k :: 0 <= k < |lines| ==> !Contains(lines[k], Opener)
    ensures Strip(lines, false) == Emitted(BlanksEmptied(lines), false)
  {
    if |lines| > 0 {
      OpenerFreeLinesPassThrough(lines[1..]);
      assert BlanksEmptied(lines) == BlanksEmptied(lines[..1]) + BlanksEmptied(lines[1..]);
    }
  }

  /** One line, then the rest of the file in the state it leaves. */
  lemma StripCons(line: string, rest: seq<string>, inComment: bool)
    ensures Strip([line] + rest, inComment)
         == Emitted(Step(line, inComment).lines + Strip(rest, Step(line, inComment).inComment).lines,
                    Strip(rest, Step(line, inComment).inComment).inComment)
  {
    assert ([line] + rest)[0] == line && ([line] + rest)[1..] == rest;
  }

  /** A comment opened after `P` on one line, running over a line `M`
      without a closer, and closed before `S` on a third line, leaves `P`
      and `S` and nothing in between. */
  lemma CommentSpanningLines(p: string, m: string, c: string, t: string)
    requires !Contains(p, Opener) && !Contains(m, Closer) && !Contains(c, Closer)
    requires !Contains(c + Closer + t, Opener) && !IsBlank(t)
    ensures Strip([p + Opener, m, c + Closer + t], false) == Emitted([p, t], false)
  {
    ShorterHasNone("", Closer);
    assert p + Opener == p + Opener + "";
    OpeningLine(p, "");
    ClosingLine(c, t);
    assert (c + Closer + t)[|c| + |Closer|..] == t;
    NoneInSuffix(c + Closer + t, Opener, |c| + |Closer|);
    var last := c + Closer + t;
    StripCons(last, [], true);
    assert [last] + [] == [last];
    StripCons(m, [last], true);
    StripCons(p + Opener, [m, last], false);
    assert [p + Opener] + [m, last] == [p + Opener, m, last];
    assert [m] + [last] == [m, last];
  }

  lemma NoAngleNoOpener(s: string)
    requires forall k :: 0 <= k < |s| ==> s[k] != '<'
    ensures !Contains(s, Opener)
  {
    forall k | 0 <= k && k + |Opener| <= |s|
      ensures !OccursAt(s, Opener, k)
    {
      assert s[k..k + |Opener|][0] != Opener[0];
    }
  }

  lemma NoAngleNoCloser(s: string)
    requires forall k :: 0 <= k < |s| ==> s[k] != '>'
    ensures !Contains(s, Closer)
  {
    forall k | 0 <= k && k + |Closer| <= |s|
      ensures !OccursAt(s, Closer, k)
    {
      assert s[k..k + |Closer|][2] != Closer[2];
    }
  }
}

module CommentStripperExamples {
  import opened Strings
  import opened CommentScan
  import opened CommentStripper

  lemma InlineSplits()
    ensures RemoveComments(["a<!--x-->b"]) == ["a", "b"]
  {
    ShorterHasNone("a", Opener);
    ShorterHasNone("b", Opener);
    ShorterHasNone("x", Closer);
    assert "a<!--x-->b" == "a" + Opener + "x" + Closer + "b";
    InlineComment("a", "x", "b");
    assert !IsBlank("b") by { assert !IsSpace("b"[0]); }
    assert ["a<!--x-->b"][1..] == [];
  }

  lemma TrailingComment()
    ensures NormalLine("a<!--x-->") == Emitted(["a", ""], false)
  {
    ShorterHasNone("a", Opener);
    ShorterHasNone("x", Closer);
    assert "a<!--x-->" == "a" + Opener + "x" + Closer + "";
    InlineComment("a", "x", "");
  }

  /** `[a<!--, x, y-->b]` comes out as `[a, b]`, outside a comment. */
  lemma CommentAcrossLines()
    ensures Strip(["a<!--", "x", "y-->b"], false) == Emitted(["a", "b"], false)
  {
    ShorterHasNone("a", Opener);
    ShorterHasNone("x", Closer);
    ShorterHasNone("y", Closer);
    NoAngleNoOpener("y-->b");
    assert !IsBlank("b") by { assert !IsSpace("b"[0]); }
    assert "a<!--" == "a" + Opener;
    assert "y-->b" == "y" + Closer + "b";
    CommentSpanningLines("a", "x", "y", "b");
  }

  /** Inside a comment, `x-->b<!--c-->d` resumes at `d`: the `b` between
      the closer and the next opener is lost. */
  lemma TextBetweenCommentsIsLost()
    ensures CommentLine("x-->b<!--c-->d") == Emitted(["d"], false)
  {
    NoAngleNoOpener("x-->b");
    ShorterHasNone("c", Closer);
    ShorterHasNone("d", Opener);
    assert "x-->b<!--c-->d" == "x-->b" + Opener + "c" + Closer + "d";
    ClosingLineWithPair("x-->b", "c", "d");
    assert !IsBlank("d") by { assert !IsSpace("d"[0]); }
  }

  /** Inside a comment, `x-->y<!--z` stays in the comment and emits
      nothing: the `y` after the closer is lost too. */
  lemma TextBeforeUnclosedOpenerIsLost()
    ensures CommentLine("x-->y<!--z") == Emitted([], true)
  {
    NoAngleNoOpener("x-->y");
    ShorterHasNone("z", Closer);
    assert "x-->y<!--z" == "x-->y" + Opener + "z";
    ClosingLineWithUnclosedOpener("x-->y", "z");
  }

  /** In `<!--a<!-->` the second opener shares its `--` with the closer, so
      the line ends outside a comment although that opener has no closer
      after it: the overlap condition of NormalLineState is needed. */
  lemma OverlappingMarkers()
    ensures NormalLine("<!--a<!-->") == Emitted(["", ""], false)
  {
    ShorterHasNone("", Opener);
    NoAngleNoCloser("a<!");
    assert "<!--a<!-->" == "" + Opener + "a<!" + Closer + "";
    InlineComment("", "a<!", "");
  }

  lemma OverlappingMarkersUnclosed()
    ensures Unclosed("<!--a<!-->")
  {
    var s := "<!--a<!-->";
    assert OccursAt(s, Opener, 5);
    forall j | 9 <= j
      ensures !OccursAt(s, Closer, j)
    {
    }
  }
}
