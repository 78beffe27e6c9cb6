/** `removeConsecutiveBlankLines`: drops a blank line that follows a blank
    input line, remembering only the previous input line. */
module BlankCollapser {
  import opened Strings

  /** No two neighbouring lines are both blank. */
  predicate NoBlankPair(lines: seq<string>) {
    forall k :: 0 < k < |lines| ==> !(IsBlank(lines[k - 1]) && IsBlank(lines[k]))
  }

  /** The lines that are not blank, in order. */
  function NonBlank(lines: seq<string>): seq<string> {
    if |lines| == 0 then []
    else (if IsBlank(lines[0]) then [] else [lines[0]]) + NonBlank(lines[1..])
  }

  /** The `collect` loop with `linePrev` as state: a line is emitted unless
      `linePrev` is set and blank and the line is blank too; `linePrev`
      then becomes the line, whether or not it was emitted. */
  function CollapseAfter(prev: Option<string>, lines: seq<string>): (r: seq<string>)
    ensures NoBlankPair(r)
    ensures prev.Some? && IsBlank(prev.value) && |r| > 0 ==> !IsBlank(r[0])
    ensures |r| <= |lines|
    decreases |lines|
  {
    if |lines| == 0 then []
    else
      var keep := prev.None? || !IsBlank(prev.value) || !IsBlank(lines[0]);
      var rest := CollapseAfter(Some(lines[0]), lines[1..]);
      (if keep then [lines[0]] else []) + rest
  }

  /** The stage on a whole stream, `linePrev` starting out null. */
  function RemoveConsecutiveBlankLines(lines: seq<string>): (r: seq<string>)
    ensures NoBlankPair(r)
    ensures |lines| > 0 ==> |r| > 0 && r[0] == lines[0]
  {
    CollapseAfter(None, lines)
  }

  /** Every line the filter emits is one of its input lines. */
  lemma {:induction false} CollapseEmitsInputLines(prev: Option<string>, lines: seq<string>)
    ensures forall x :: x in CollapseAfter(prev, lines) ==> x in lines
    decreases |lines|
  {
    if |lines| > 0 {
      CollapseEmitsInputLines(Some(lines[0]), lines[1..]);
      assert forall x :: x in lines[1..] ==> x in lines;
    }
  }

  /** The same filter keyed on the last EMITTED line instead of the last
      input line. */
  function CollapseByEmitted(last: Option<string>, lines: seq<string>): seq<string>
    decreases |lines|
  {
    if |lines| == 0 then []
    else if last.Some? && IsBlank(last.value) && IsBlank(lines[0]) then CollapseByEmitted(last, lines[1..])
    else [lines[0]] + CollapseByEmitted(Some(lines[0]), lines[1..])
  }

  /** Two remembered lines that agree on being present and on being blank. */
  predicate SameBlankness(a: Option<string>, b: Option<string>) {
    (a.None? <==> b.None?) && (a.Some? && b.Some? ==> (IsBlank(a.value) <==> IsBlank(b.value)))
  }

  /** Keying the filter on the previous input line or on the previous
      emitted line gives the same output: a dropped line is blank and
      follows a blank, so the last emitted line is blank exactly when the
      last input line is. */
  lemma {:induction false} InputOrEmittedLookbehindAgree(prev: Option<string>, last: Option<string>, lines: seq<string>)
    requires SameBlankness(prev, last)
    ensures CollapseAfter(prev, lines) == CollapseByEmitted(last, lines)
    decreases |lines|
  {
    if |lines| > 0 {
      if prev.Some? && IsBlank(prev.value) && IsBlank(lines[0]) {
        InputOrEmittedLookbehindAgree(Some(lines[0]), last, lines[1..]);
      } else {
        InputOrEmittedLookbehindAgree(Some(lines[0]), Some(lines[0]), lines[1..]);
      }
    }
  }

  /** The line the filter remembers after reading `lines`. */
  function LastRead(prev: Option<string>, lines: seq<string>): Option<string> {
    if |lines| == 0 then prev else Some(lines[|lines| - 1])
  }

  /** Appending one line to the input appends it to the output unless it
      and the input line before it are both blank. */
  lemma {:induction false} CollapseSnoc(prev: Option<string>, lines: seq<string>, x: string)
    ensures CollapseAfter(prev, lines + [x])
         == CollapseAfter(prev, lines)
          + (if LastRead(prev, lines).Some? && IsBlank(LastRead(prev, lines).value) && IsBlank(x) then [] else [x])
    decreases |lines|
  {
    if |lines| == 0 {
      assert lines + [x] == [x];
    } else {
      var head := if prev.None? || !IsBlank(prev.value) || !IsBlank(lines[0]) then [lines[0]] else [];
      var last := LastRead(prev, lines);
      var tail := if last.Some? && IsBlank(last.value) && IsBlank(x) then [] else [x];
      assert (lines + [x])[0] == lines[0];
      assert (lines + [x])[1..] == lines[1..] + [x];
      assert LastRead(Some(lines[0]), lines[1..]) == last;
      CollapseSnoc(Some(lines[0]), lines[1..], x);
      var rest := CollapseAfter(Some(lines[0]), lines[1..]);
      assert CollapseAfter(prev, lines) == head + rest;
      assert CollapseAfter(prev, lines + [x]) == head + CollapseAfter(Some(lines[0]), lines[1..] + [x]);
      AppendAssoc(head, rest, tail);
    }
  }

  /** The file-level statement: line `x` is dropped exactly when the input
      line before it exists and both are blank. */
  lemma DroppedExactlyWhenBothBlank(lines: seq<string>, x: string)
    ensures RemoveConsecutiveBlankLines(lines + [x])
         == RemoveConsecutiveBlankLines(lines)
          + (if |lines| > 0 && IsBlank(lines[|lines| - 1]) && IsBlank(x) then [] else [x])
  {
    CollapseSnoc(None, lines, x);
  }

  /** Only blank lines are dropped: the non-blank lines come out all and in
      order. */
  lemma {:induction false} NonBlankLinesSurvive(prev: Option<string>, lines: seq<string>)
    ensures NonBlank(CollapseAfter(prev, lines)) == NonBlank(lines)
    decreases |lines|
  {
    if |lines| > 0 {
      NonBlankLinesSurvive(Some(lines[0]), lines[1..]);
      var rest := CollapseAfter(Some(lines[0]), lines[1..]);
      if prev.None? || !IsBlank(prev.value) || !IsBlank(lines[0]) {
        assert ([lines[0]] + rest)[1..] == rest;
        assert NonBlank([lines[0]] + rest)
            == (if IsBlank(lines[0]) then [] else [lines[0]]) + NonBlank(rest);
      } else {
        assert CollapseAfter(prev, lines) == rest;
      }
    }
  }

  /** A stream with no blank pair (and not starting with a blank after a
      blank) passes through unchanged. */
  lemma {:induction false} CollapseKeepsPairFree(prev: Option<string>, lines: seq<string>)
    requires NoBlankPair(lines)
    requires prev.Some? && IsBlank(prev.value) && |lines| > 0 ==> !IsBlank(lines[0])
    ensures CollapseAfter(prev, lines) == lines
    decreases |lines|
  {
    if |lines| > 0 {
      CollapseKeepsPairFree(Some(lines[0]), lines[1..]);
      assert [lines[0]] + lines[1..] == lines;
    }
  }

  /** Running the stage twice is running it once. */
  lemma CollapseIdempotent(lines: seq<string>)
    ensures RemoveConsecutiveBlankLines(RemoveConsecutiveBlankLines(lines)) == RemoveConsecutiveBlankLines(lines)
  {
    CollapseKeepsPairFree(None, RemoveConsecutiveBlankLines(lines));
  }

  lemma BlankRunCollapses()
    ensures RemoveConsecutiveBlankLines(["text", "", "", "", "more"]) == ["text", "", "more"]
  {
    assert !IsBlank("text") by { assert !IsSpace("text"[0]); }
    assert !IsBlank("more") by { assert !IsSpace("more"[0]); }
    var lines := ["text", "", "", "", "more"];
    assert lines[1..] == ["", "", "", "more"];
    assert lines[1..][1..] == ["", "", "more"];
    assert lines[1..][1..][1..] == ["", "more"];
    assert lines[1..][1..][1..][1..] == ["more"];
  }
}
