/** `labelLines`: gives every line one structural label, the first of nine
    anchored patterns that matches it. Each pattern is written out here as
    a predicate on characters. */
module LineLabeler {
  import opened Strings

  /** `LineLabels`. */
  datatype LineLabel = Blank | Text | Title | TitleSep | CodeSep | Quote | List | SepLine | Link

  /** Length of the longest all-whitespace prefix. */
  function LeadingSpace(s: string): (n: nat)
    ensures n <= |s| && IsBlank(s[..n])
    ensures n < |s| ==> !IsSpace(s[n])
  {
    if |s| == 0 || !IsSpace(s[0]) then 0
    else
      var m := LeadingSpace(s[1..]);
      assert s[..m + 1] == [s[0]] + s[1..][..m];
      m + 1
  }

  /** Length of the longest prefix made of `c` alone. */
  function RunOf(s: string, c: char): (n: nat)
    ensures n <= |s|
    ensures forall k :: 0 <= k < n ==> s[k] == c
    ensures n < |s| ==> s[n] != c
  {
    if |s| == 0 || s[0] != c then 0 else RunOf(s[1..], c) + 1
  }

  /** Length of the longest prefix of ASCII digits. */
  function DigitRun(s: string): (n: nat)
    ensures n <= |s|
    ensures forall k :: 0 <= k < n ==> '0' <= s[k] <= '9'
    ensures n < |s| ==> !('0' <= s[n] <= '9')
  {
    if |s| == 0 || !('0' <= s[0] <= '9') then 0 else DigitRun(s[1..]) + 1
  }

  /** Number of occurrences of `c`. */
  function CountOf(s: string, c: char): nat {
    if |s| == 0 then 0 else (if s[0] == c then 1 else 0) + CountOf(s[1..], c)
  }

  /** `regexTITLE`, `^\s*#.*$` (mdstrip.kt line 87). */
  predicate IsTitle(s: string) {
    var n := LeadingSpace(s);
    n < |s| && s[n] == '#'
  }

  /** `^(?:=+|-+)\s*$`: a run of `c` from the first column, then only whitespace. */
  predicate IsUnderline(s: string, c: char) {
    var n := RunOf(s, c);
    n > 0 && IsBlank(s[n..])
  }

  /** `regexTITLESEP` (mdstrip.kt line 88). */
  predicate IsTitleSep(s: string) {
    IsUnderline(s, '=') || IsUnderline(s, '-')
  }

  /** `regexCODESEP`, "^```.*$" (mdstrip.kt line 89): three backticks
      in the first column, then anything. */
  predicate IsCodeSep(s: string) {
    |s| >= 3 && s[..3] == "```"
  }

  /** `regexQUOTE`, `^>.*$` (mdstrip.kt line 90). */
  predicate IsQuote(s: string) {
    |s| > 0 && s[0] == '>'
  }

  /** `regexLIST`, `^(?:\s+)?(?:-|\*|[0-9]+\.).*$` (mdstrip.kt
      line 91): after the leading whitespace, a dash, an asterisk, or
      digits followed by a dot. */
  predicate IsList(s: string) {
    var t := s[LeadingSpace(s)..];
    && |t| > 0
    && (t[0] == '-' || t[0] == '*' || (var d := DigitRun(t); 0 < d < |t| && t[d] == '.'))
  }

  /** One alternative of the thematic-break pattern, such as
      `\s*_\s*_\s*_[_\s]*`: only `c` and whitespace, with at least three `c`. */
  predicate IsRuleOf(s: string, c: char) {
    && (forall k :: 0 <= k < |s| ==> s[k] == c || IsSpace(s[k]))
    && CountOf(s, c) >= 3
  }

  /** `regexSEPLINE` (mdstrip.kt line 92): a thematic break of `*`, `_`
      or `-`. */
  predicate IsSepLine(s: string) {
    IsRuleOf(s, '*') || IsRuleOf(s, '_') || IsRuleOf(s, '-')
  }

  /** `regexLINK`, `^\[.*?]:.*$` (mdstrip.kt line 93): an opening bracket,
      then `]:` somewhere after it. */
  predicate IsLink(s: string) {
    |s| > 0 && s[0] == '[' && FindFrom(s, "]:", 1).Some?
  }

  /** The pattern each label stands for; TEXT is the `else` arm. */
  predicate Matches(lab: LineLabel, s: string) {
    match lab
    case Blank => IsBlank(s)
    case Title => IsTitle(s)
    case TitleSep => IsTitleSep(s)
    case CodeSep => IsCodeSep(s)
    case Quote => IsQuote(s)
    case List => IsList(s)
    case SepLine => IsSepLine(s)
    case Link => IsLink(s)
    case Text => true
  }

  /** The order of the `when` arms. */
  const Priority: seq<LineLabel> := [Blank, Title, TitleSep, CodeSep, Quote, List, SepLine, Link, Text]

  /** Position of a label in `Priority`. */
  function Rank(lab: LineLabel): (k: nat)
    ensures k < |Priority| && Priority[k] == lab
  {
    match lab
    case Blank => 0
    case Title => 1
    case TitleSep => 2
    case CodeSep => 3
    case Quote => 4
    case List => 5
    case SepLine => 6
    case Link => 7
    case Text => 8
  }

  /** The `when` in `labelLines`: the label's pattern matches and no
      pattern of an earlier arm does. */
  function Label(s: string): (r: LineLabel)
    ensures Matches(r, s)
    ensures forall k :: 0 <= k < Rank(r) ==> !Matches(Priority[k], s)
  {
    if IsBlank(s) then Blank
    else if IsTitle(s) then Title
    else if IsTitleSep(s) then TitleSep
    else if IsCodeSep(s) then CodeSep
    else if IsQuote(s) then Quote
    else if IsList(s) then List
    else if IsSepLine(s) then SepLine
    else if IsLink(s) then Link
    else Text
  }

  /** The stage over a stream: each line paired with its label. */
  function LabelLines(lines: seq<string>): (r: seq<(LineLabel, string)>)
    ensures |r| == |lines|
    ensures forall k :: 0 <= k < |r| ==> r[k].1 == lines[k] && r[k].0 == Label(lines[k])
  {
    seq(|lines|, k requires 0 <= k < |lines| => (Label(lines[k]), lines[k]))
  }

  // ---------------------------------------------------------------------
  // Consequences of the fixed priority

  /** BLANK is exactly the whitespace-only lines, and TEXT lines are never
      blank, hence never empty. */
  lemma BlankExactly(s: string)
    ensures Label(s) == Blank <==> IsBlank(s)
    ensures Label(s) == Text ==> |s| > 0 && !IsBlank(s)
  {
    assert Priority[0] == Blank;
  }

  function Repeat(c: char, n: nat): (r: string)
    ensures |r| == n && forall k :: 0 <= k < n ==> r[k] == c
  {
    seq(n, _ => c)
  }

  // Each arm of the `when`, given which patterns the line fits.

  lemma TitleArm(s: string)
    requires !IsBlank(s) && IsTitle(s)
    ensures Label(s) == Title
  {
  }

  lemma TitleSepArm(s: string)
    requires !IsBlank(s) && !IsTitle(s) && IsTitleSep(s)
    ensures Label(s) == TitleSep
  {
  }

  lemma ListArm(s: string)
    requires !IsBlank(s) && !IsTitle(s) && !IsTitleSep(s) && !IsCodeSep(s) && !IsQuote(s) && IsList(s)
    ensures Label(s) == List
  {
  }

  lemma SepLineArm(s: string)
    requires !IsBlank(s) && !IsTitle(s) && !IsTitleSep(s) && !IsCodeSep(s) && !IsQuote(s) && !IsList(s)
    requires IsSepLine(s)
    ensures Label(s) == SepLine
  {
  }

  lemma TextArm(s: string)
    requires !IsBlank(s) && !IsTitle(s) && !IsTitleSep(s) && !IsCodeSep(s) && !IsQuote(s) && !IsList(s)
    requires !IsSepLine(s) && !IsLink(s)
    ensures Label(s) == Text
  {
  }

  // Which patterns some kinds of line fit.

  /** What the first non-space character `c` of a line decides on its own:
      the line is not blank, it is a title exactly when `c` is `#`, it can
      be a fence or a quote only when `c` is the first column's `` ` `` or
      `>`, and it is a list item when `c` is a dash or an asterisk. */
  lemma FirstNonSpace(s: string, c: char)
    requires LeadingSpace(s) < |s| && s[LeadingSpace(s)] == c
    ensures !IsBlank(s)
    ensures s[0] == c || IsSpace(s[0])
    ensures IsTitle(s) <==> c == '#'
    ensures IsCodeSep(s) ==> c == '`'
    ensures IsQuote(s) ==> c == '>'
    ensures c == '-' || c == '*' ==> IsList(s)
  {
    FirstColumn(s, c);
    MarkerAfterSpace(s, c);
  }

  lemma FirstColumn(s: string, c: char)
    requires LeadingSpace(s) < |s| && s[LeadingSpace(s)] == c
    ensures !IsBlank(s)
    ensures s[0] == c || IsSpace(s[0])
    ensures IsCodeSep(s) ==> c == '`'
    ensures IsQuote(s) ==> c == '>'
  {
    var n := LeadingSpace(s);
    assert !IsSpace(s[n]);
    if n > 0 {
      assert IsSpace(s[..n][0]);
    }
    assert IsCodeSep(s) ==> s[..3][0] == s[0];
  }

  lemma MarkerAfterSpace(s: string, c: char)
    requires LeadingSpace(s) < |s| && s[LeadingSpace(s)] == c
    ensures IsTitle(s) <==> c == '#'
    ensures c == '-' || c == '*' ==> IsList(s)
  {
    assert s[LeadingSpace(s)..][0] == c;
  }

  /** A run of `c` from the first column is empty when the line does not
      start with `c`. */
  lemma NoRunAtStart(s: string, c: char)
    requires |s| > 0 && s[0] != c
    ensures RunOf(s, c) == 0
  {
  }

  lemma UnderlineFacts(c: char, n: nat, w: string)
    requires c == '=' || c == '-'
    requires n > 0 && IsBlank(w)
    ensures var s := Repeat(c, n) + w;
            !IsBlank(s) && !IsTitle(s) && IsTitleSep(s)
  {
    var s := Repeat(c, n) + w;
    assert s[0] == c;
    assert LeadingSpace(s) == 0;
    if n < |s| {
      assert s[n] == w[0];
    }
    RunOfRepeat(c, n, w);
    assert s[n..] == w;
  }

  lemma RunOfRepeat(c: char, n: nat, w: string)
    requires |w| > 0 ==> w[0] != c
    ensures RunOf(Repeat(c, n) + w, c) == n
    decreases n
  {
    if n > 0 {
      assert (Repeat(c, n) + w)[1..] == Repeat(c, n - 1) + w;
      RunOfRepeat(c, n - 1, w);
    } else {
      assert Repeat(c, n) + w == w;
    }
  }

  lemma StarLineFacts(s: string)
    requires LeadingSpace(s) < |s| && s[LeadingSpace(s)] == '*'
    ensures !IsBlank(s) && !IsTitle(s) && !IsTitleSep(s) && !IsCodeSep(s) && !IsQuote(s) && IsList(s)
  {
    FirstNonSpace(s, '*');
    NoRunAtStart(s, '=');
    NoRunAtStart(s, '-');
  }

  lemma DashLineFacts(s: string)
    requires LeadingSpace(s) < |s| && s[LeadingSpace(s)] == '-'
    ensures !IsBlank(s) && !IsTitle(s) && !IsUnderline(s, '=') && !IsCodeSep(s) && !IsQuote(s) && IsList(s)
  {
    FirstNonSpace(s, '-');
    NoRunAtStart(s, '=');
  }

  lemma CountPositive(s: string, c: char)
    requires CountOf(s, c) > 0
    ensures exists k :: 0 <= k < |s| && s[k] == c
  {
    if s[0] != c {
      CountPositive(s[1..], c);
      var k :| 0 <= k < |s[1..]| && s[1..][k] == c;
      assert s[k + 1] == c;
    }
  }

  /** In a line of `c` and whitespace holding some `c`, the first
      non-space character is `c`. */
  lemma RuleStartsWith(s: string, c: char)
    requires IsRuleOf(s, c) && !IsSpace(c)
    ensures LeadingSpace(s) < |s| && s[LeadingSpace(s)] == c
  {
    CountPositive(s, c);
    var k :| 0 <= k < |s| && s[k] == c;
    var n := LeadingSpace(s);
    assert forall i :: 0 <= i < n ==> IsSpace(s[i]) by {
      assert forall i :: 0 <= i < n ==> s[..n][i] == s[i];
    }
  }

  lemma UnderscoreRuleFacts(s: string)
    requires IsRuleOf(s, '_')
    ensures !IsBlank(s) && !IsTitle(s) && !IsTitleSep(s) && !IsCodeSep(s) && !IsQuote(s) && !IsList(s)
    ensures IsSepLine(s)
  {
    RuleStartsWith(s, '_');
    FirstNonSpace(s, '_');
    NoRunAtStart(s, '=');
    NoRunAtStart(s, '-');
    var t := s[LeadingSpace(s)..];
    assert t[0] == '_';
    NoRunAtStart(t, '0');
    assert DigitRun(t) == 0;
  }

  lemma PlainWordFacts(s: string)
    requires |s| > 0 && forall k :: 0 <= k < |s| ==> 'a' <= s[k] <= 'z'
    ensures !IsBlank(s) && !IsTitle(s) && !IsTitleSep(s) && !IsCodeSep(s) && !IsQuote(s) && !IsList(s)
    ensures !IsSepLine(s) && !IsLink(s)
  {
    assert !IsSpace(s[0]);
    assert LeadingSpace(s) == 0;
    assert s[LeadingSpace(s)..] == s;
    NoRunAtStart(s, '=');
    NoRunAtStart(s, '-');
    assert DigitRun(s) == 0;
    assert |s| >= 3 ==> s[..3][0] == s[0];
  }

  // The predicates read back as the regexes: where a pattern leaves the
  // split of the line open (how much whitespace `\s*` takes, where `=+`
  // stops, how many digits `[0-9]+` takes), some split works exactly when
  // the predicate's one split does.

  /** Leading whitespace followed by a non-space character: the whitespace
      run is exactly that prefix. */
  lemma {:induction false} LeadingSpaceAt(s: string, n: nat)
    requires n < |s| && IsBlank(s[..n]) && !IsSpace(s[n])
    ensures LeadingSpace(s) == n
    decreases n
  {
    if n > 0 {
      assert IsSpace(s[..n][0]);
      assert s[1..][..n - 1] == s[..n][1..];
      assert s[1..][n - 1] == s[n];
      LeadingSpaceAt(s[1..], n - 1);
    }
  }

  /** `^\s*#.*$` (mdstrip.kt line 87): some whitespace prefix is followed
      by `#`. */
  lemma TitlePattern(s: string)
    ensures IsTitle(s) <==> exists n :: 0 <= n < |s| && IsBlank(s[..n]) && s[n] == '#'
  {
    if exists n :: 0 <= n < |s| && IsBlank(s[..n]) && s[n] == '#' {
      var n :| 0 <= n < |s| && IsBlank(s[..n]) && s[n] == '#';
      LeadingSpaceAt(s, n);
    }
  }

  /** A prefix of `n` copies of `c` followed by something else: the run of
      `c` is exactly `n` long. */
  lemma {:induction false} RunOfAt(s: string, c: char, n: nat)
    requires n <= |s| && s[..n] == Repeat(c, n)
    requires n < |s| ==> s[n] != c
    ensures RunOf(s, c) == n
    decreases n
  {
    if n > 0 {
      assert s[0] == s[..n][0];
      var u := s[1..][..n - 1];
      forall k | 0 <= k < n - 1
        ensures u[k] == Repeat(c, n - 1)[k]
      {
        assert u[k] == s[..n][k + 1];
      }
      assert u == Repeat(c, n - 1);
      assert n - 1 < |s[1..]| ==> s[1..][n - 1] == s[n];
      RunOfAt(s[1..], c, n - 1);
    }
  }

  /** `^(?:=+|-+)\s*$` (mdstrip.kt line 88), one alternative: the line splits
      into a non-empty run of `c` and a whitespace-only rest. */
  lemma UnderlinePattern(s: string, c: char)
    requires !IsSpace(c)
    ensures IsUnderline(s, c) <==> exists n :: 0 < n <= |s| && s[..n] == Repeat(c, n) && IsBlank(s[n..])
  {
    if IsUnderline(s, c) {
      var n := RunOf(s, c);
      assert s[..n] == Repeat(c, n);
    }
    if exists n :: 0 < n <= |s| && s[..n] == Repeat(c, n) && IsBlank(s[n..]) {
      var n :| 0 < n <= |s| && s[..n] == Repeat(c, n) && IsBlank(s[n..]);
      if n < |s| {
        assert IsSpace(s[n..][0]);
      }
      RunOfAt(s, c, n);
    }
  }

  /** `[0-9]+\.`: a non-empty run of digits and then a dot. */
  predicate NumberedMarker(t: string) {
    exists d :: 0 < d < |t| && (forall k :: 0 <= k < d ==> '0' <= t[k] <= '9') && t[d] == '.'
  }

  /** The digit run before a non-digit is exactly that long. */
  lemma {:induction false} DigitRunAt(t: string, d: nat)
    requires d < |t| && (forall k :: 0 <= k < d ==> '0' <= t[k] <= '9') && !('0' <= t[d] <= '9')
    ensures DigitRun(t) == d
    decreases d
  {
    if d > 0 {
      assert forall k :: 0 <= k < d - 1 ==> t[1..][k] == t[k + 1];
      DigitRunAt(t[1..], d - 1);
    }
  }

  /** `^(?:\s+)?(?:-|\*|[0-9]+\.).*$` (mdstrip.kt line 91): some whitespace
      prefix is followed by a dash, an asterisk, or digits and a dot. */
  lemma ListPattern(s: string)
    ensures IsList(s) <==> exists n :: 0 <= n < |s| && IsBlank(s[..n]) && ListMarkerAt(s, n)
  {
    if IsList(s) {
      ListFromLeadingSpace(s);
    }
    if exists n :: 0 <= n < |s| && IsBlank(s[..n]) && ListMarkerAt(s, n) {
      var n :| 0 <= n < |s| && IsBlank(s[..n]) && ListMarkerAt(s, n);
      ListAfterSpace(s, n);
    }
  }

  /** A list marker starts at index `n`. */
  predicate ListMarkerAt(s: string, n: nat)
    requires n < |s|
  {
    s[n] == '-' || s[n] == '*' || NumberedMarker(s[n..])
  }

  lemma ListFromLeadingSpace(s: string)
    requires IsList(s)
    ensures var m := LeadingSpace(s); m < |s| && IsBlank(s[..m]) && ListMarkerAt(s, m)
  {
    var m := LeadingSpace(s);
    var t := s[m..];
    assert t[0] == s[m];
  }

  lemma ListAfterSpace(s: string, n: nat)
    requires n < |s| && IsBlank(s[..n]) && ListMarkerAt(s, n)
    ensures IsList(s)
  {
    var u := s[n..];
    assert u[0] == s[n];
    if !(s[n] == '-' || s[n] == '*') {
      var d :| 0 < d < |u| && (forall k :: 0 <= k < d ==> '0' <= u[k] <= '9') && u[d] == '.';
      assert '0' <= u[0] <= '9';
      DigitRunAt(u, d);
    }
    LeadingSpaceAt(s, n);
  }

  /** Counting reaches three exactly when three positions hold `c`. */
  lemma {:induction false} CountOne(s: string, c: char)
    ensures CountOf(s, c) >= 1 <==> exists a :: 0 <= a < |s| && s[a] == c
  {
    if |s| > 0 {
      var t := s[1..];
      CountOne(t, c);
      if exists a :: 0 <= a < |s| && s[a] == c {
        var a :| 0 <= a < |s| && s[a] == c;
        if a > 0 { assert t[a - 1] == c; }
      }
      if exists a :: 0 <= a < |t| && t[a] == c {
        var a :| 0 <= a < |t| && t[a] == c;
        assert s[a + 1] == c;
      }
    }
  }

  lemma {:induction false} CountTwo(s: string, c: char)
    ensures CountOf(s, c) >= 2 <==> exists a, b :: 0 <= a < b < |s| && s[a] == c && s[b] == c
  {
    if |s| > 0 {
      var t := s[1..];
      CountOne(t, c);
      CountTwo(t, c);
      if exists a, b :: 0 <= a < b < |s| && s[a] == c && s[b] == c {
        var a, b :| 0 <= a < b < |s| && s[a] == c && s[b] == c;
        assert t[b - 1] == c;
        if a > 0 { assert t[a - 1] == c; }
      }
      if s[0] == c && exists b :: 0 <= b < |t| && t[b] == c {
        var b :| 0 <= b < |t| && t[b] == c;
        assert s[b + 1] == c;
      }
      if exists a, b :: 0 <= a < b < |t| && t[a] == c && t[b] == c {
        var a, b :| 0 <= a < b < |t| && t[a] == c && t[b] == c;
        assert s[a + 1] == c && s[b + 1] == c;
      }
    }
  }

  lemma CountThree(s: string, c: char)
    ensures CountOf(s, c) >= 3 <==> exists a, b, d :: 0 <= a < b < d < |s| && s[a] == c && s[b] == c && s[d] == c
  {
    if CountOf(s, c) >= 3 {
      ThreeFromCount(s, c);
    }
    if exists a, b, d :: 0 <= a < b < d < |s| && s[a] == c && s[b] == c && s[d] == c {
      var a, b, d :| 0 <= a < b < d < |s| && s[a] == c && s[b] == c && s[d] == c;
      CountFromThree(s, c, a, b, d);
    }
  }

  lemma {:induction false} ThreeFromCount(s: string, c: char)
    requires CountOf(s, c) >= 3
    ensures exists a, b, d :: 0 <= a < b < d < |s| && s[a] == c && s[b] == c && s[d] == c
  {
    var t := s[1..];
    if s[0] == c {
      CountTwo(t, c);
      var a, b :| 0 <= a < b < |t| && t[a] == c && t[b] == c;
      assert s[a + 1] == c && s[b + 1] == c;
      assert 0 < a + 1 < b + 1 < |s|;
    } else {
      ThreeFromCount(t, c);
      var a, b, d :| 0 <= a < b < d < |t| && t[a] == c && t[b] == c && t[d] == c;
      assert s[a + 1] == c && s[b + 1] == c && s[d + 1] == c;
    }
  }

  lemma {:induction false} CountFromThree(s: string, c: char, a: nat, b: nat, d: nat)
    requires a < b < d < |s| && s[a] == c && s[b] == c && s[d] == c
    ensures CountOf(s, c) >= 3
    decreases a
  {
    var t := s[1..];
    assert t[b - 1] == c && t[d - 1] == c;
    if a == 0 {
      CountTwo(t, c);
    } else {
      assert t[a - 1] == c;
      CountFromThree(t, c, a - 1, b - 1, d - 1);
    }
  }

  /** One alternative of `^(?:\s*\*\s*\*\s*\*[*\s]*|...)$` (mdstrip.kt
      line 92): the line holds only `c` and whitespace, and `c` at three
      positions at least. */
  lemma RulePattern(s: string, c: char)
    ensures IsRuleOf(s, c) <==>
            && (forall k :: 0 <= k < |s| ==> s[k] == c || IsSpace(s[k]))
            && exists a, b, d :: 0 <= a < b < d < |s| && s[a] == c && s[b] == c && s[d] == c
  {
    CountThree(s, c);
  }

  /** `^\[.*?]:.*$` (mdstrip.kt line 93): an opening bracket in the first
      column and `]:` somewhere after it. */
  lemma LinkPattern(s: string)
    ensures IsLink(s) <==> |s| > 0 && s[0] == '[' && exists k :: 1 <= k && OccursAt(s, "]:", k)
  {
  }

  // Consequences for the labels.

  /** A run of `=` or of `-` from the first column, then only whitespace,
      is a title underline even though the dash run also fits the list and
      thematic-break patterns. */
  lemma UnderlineIsTitleSep(c: char, n: nat, w: string)
    requires c == '=' || c == '-'
    requires n > 0 && IsBlank(w)
    ensures Label(Repeat(c, n) + w) == TitleSep
  {
    UnderlineFacts(c, n, w);
    TitleSepArm(Repeat(c, n) + w);
  }

  lemma DashesAreTitleSep()
    ensures Label("---") == TitleSep
    ensures Label("===") == TitleSep
  {
    assert "---" == Repeat('-', 3) + "";
    UnderlineIsTitleSep('-', 3, "");
    assert "===" == Repeat('=', 3) + "";
    UnderlineIsTitleSep('=', 3, "");
  }

  /** A line whose first non-space character is `*` is a list item. */
  lemma StarIsList(s: string)
    requires LeadingSpace(s) < |s| && s[LeadingSpace(s)] == '*'
    ensures Label(s) == List
  {
    StarLineFacts(s);
    ListArm(s);
  }

  /** A line whose first non-space character is `-` is a title underline
      when it is an unindented dash run, and a list item otherwise: never a
      thematic break. */
  lemma DashIsTitleSepOrList(s: string)
    requires LeadingSpace(s) < |s| && s[LeadingSpace(s)] == '-'
    ensures Label(s) == (if IsUnderline(s, '-') then TitleSep else List)
  {
    DashLineFacts(s);
    if IsUnderline(s, '-') {
      TitleSepArm(s);
    } else {
      ListArm(s);
    }
  }

  lemma ThematicBreaksOfStarsAndSpacedDashesAreLists()
    ensures Label("***") == List
    ensures Label("* * *") == List
    ensures Label("- - -") == List
  {
    StarIsList("***");
    StarIsList("* * *");
    var s := "- - -";
    assert RunOf(s, '-') == 1 by {
      assert s[1..] == " - -";
    }
    assert !IsBlank(s[1..]) by { assert s[1..][1] == '-'; }
    DashIsTitleSepOrList(s);
  }

  /** Because the list arm comes first, only lines of underscores and
      whitespace can be thematic breaks, and every such line with at least
      three underscores is one. */
  lemma SepLineIsUnderscoresOnly(s: string)
    ensures Label(s) == SepLine <==> IsRuleOf(s, '_')
  {
    if IsRuleOf(s, '*') {
      RuleStartsWith(s, '*');
      StarIsList(s);
    }
    if IsRuleOf(s, '-') {
      RuleStartsWith(s, '-');
      DashIsTitleSepOrList(s);
    }
    if IsRuleOf(s, '_') {
      UnderscoreRuleFacts(s);
      SepLineArm(s);
    }
  }

  /** A line whose first non-space character is `#` is a title. */
  lemma HashIsTitle(s: string)
    requires LeadingSpace(s) < |s| && s[LeadingSpace(s)] == '#'
    ensures Label(s) == Title
  {
    FirstNonSpace(s, '#');
    TitleArm(s);
  }

  /** A word of lower-case ASCII letters matches no pattern and is TEXT. */
  lemma PlainWordIsText(s: string)
    requires |s| > 0 && forall k :: 0 <= k < |s| ==> 'a' <= s[k] <= 'z'
    ensures Label(s) == Text
  {
    PlainWordFacts(s);
    TextArm(s);
  }
}
