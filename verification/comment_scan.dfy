/** `scanXMLComment`: splits one line around the XML comment markers `<!--`
    and `-->`, trying three anchored regexes in turn. */
module CommentScan {
  import opened Strings

  const Opener := "<!--"
  const Closer := "-->"

  /** The `Triple<String?, String?, String?>` result: text before the
      opener, comment text, text after the closer. */
  datatype Groups = Groups(prec: Option<string>, comm: Option<string>, succ: Option<string>)

  /** An opener at `i` and a closer at `j` that starts after the opener
      ends: one way for `^(.*?)<!--(.*?)-->(.*)$` to match. */
  predicate PairAt(s: string, i: int, j: int) {
    OccursAt(s, Opener, i) && OccursAt(s, Closer, j) && i + |Opener| <= j
  }

  ghost predicate HasPair(s: string) {
    exists i, j :: PairAt(s, i, j)
  }

  /** The match the two lazy groups select: the shortest prefix, then for
      that prefix the shortest comment. */
  ghost predicate FirstPair(s: string, i: int, j: int) {
    && PairAt(s, i, j)
    && forall i', j' :: PairAt(s, i', j') ==> i < i' || (i == i' && j <= j')
  }

  /** The line the groups were cut from, markers put back. */
  function Rebuild(g: Groups): string {
    match g
    case Groups(Some(p), Some(c), Some(t)) => p + Opener + c + Closer + t
    case Groups(Some(p), Some(c), None) => p + Opener + c
    case Groups(None, Some(c), Some(t)) => c + Closer + t
    case Groups(Some(p), None, None) => p
    case _ => ""
  }

  /** Tries `^(.*?)<!--(.*?)-->(.*)$`, then `^(.*?)<!--(.*)$`, then
      `^(.*?)-->(.*)$`, and otherwise returns the whole line as prefix.
      Only four shapes come back: the text before the closer is never
      absent without the comment and the rest being present, and the
      comment is never absent without the whole line being the prefix. */
  function Scan(s: string): (r: Groups)
    ensures r.prec.None? ==> r.comm.Some? && r.succ.Some?
    ensures r.comm.None? ==> r == Groups(Some(s), None, None)
  {
    match FindFrom(s, Opener, 0)
    case Some(i) =>
      (match FindFrom(s, Closer, i + |Opener|)
       case Some(j) => Groups(Some(s[..i]), Some(s[i + |Opener|..j]), Some(s[j + |Closer|..]))
       case None => Groups(Some(s[..i]), Some(s[i + |Opener|..]), None))
    case None =>
      (match FindFrom(s, Closer, 0)
       case Some(j) => Groups(None, Some(s[..j]), Some(s[j + |Closer|..]))
       case None => Groups(Some(s), None, None))
  }

  /** Which of the four shapes comes back: all three groups exactly when
      the line holds an opener with a closer after it; no suffix exactly
      when it holds an opener but no such pair; no prefix exactly when it
      holds a closer but no opener; no comment exactly when it holds
      neither marker. */
  lemma ScanShape(s: string)
    ensures var r := Scan(s);
            && (r.prec.Some? && r.comm.Some? && r.succ.Some? <==> HasPair(s))
            && (r.prec.Some? && r.comm.Some? && r.succ.None? <==> !HasPair(s) && Contains(s, Opener))
            && (r.prec.None? <==> !Contains(s, Opener) && Contains(s, Closer))
            && (r.comm.None? <==> !Contains(s, Opener) && !Contains(s, Closer))
  {
    match FindFrom(s, Opener, 0) {
      case Some(i) =>
        match FindFrom(s, Closer, i + |Opener|) {
          case Some(j) => PairBranch(s, i, j);
          case None => OpenerBranch(s, i);
        }
      case None =>
        match FindFrom(s, Closer, 0) {
          case Some(j) => CloserBranch(s, j);
          case None => assert !HasPair(s);
        }
    }
  }

  /** The first regex captures the text before the first pair's opener,
      the text between its markers and the text after its closer. */
  lemma ScanOnFirstPair(s: string, i: int, j: int)
    requires FirstPair(s, i, j)
    ensures Scan(s) == Groups(Some(s[..i]), Some(s[i + |Opener|..j]), Some(s[j + |Closer|..]))
  {
    var i0 := FindFrom(s, Opener, 0).value;
    assert PairAt(s, i0, j);
    var j0 := FindFrom(s, Closer, i + |Opener|).value;
    assert PairAt(s, i, j0);
  }

  /** Without a pair, the second regex splits at the first opener and
      keeps the rest of the line as the comment. */
  lemma ScanOnOpenerOnly(s: string, i: int)
    requires !HasPair(s) && FirstAt(s, Opener, i)
    ensures Scan(s) == Groups(Some(s[..i]), Some(s[i + |Opener|..]), None)
  {
    assert OccursAt(s, Opener, i);
    assert FindFrom(s, Opener, 0) == Some(i);
    forall k | i + |Opener| <= k
      ensures !OccursAt(s, Closer, k)
    {
      assert !PairAt(s, i, k);
    }
  }

  /** Without an opener, the third regex splits at the first closer. */
  lemma ScanOnCloserOnly(s: string, j: int)
    requires !Contains(s, Opener) && FirstAt(s, Closer, j)
    ensures Scan(s) == Groups(None, Some(s[..j]), Some(s[j + |Closer|..]))
  {
    assert forall k :: 0 <= k ==> !OccursAt(s, Opener, k);
  }

  /** A line with neither marker comes back whole. */
  lemma ScanOnPlainLine(s: string)
    requires !Contains(s, Opener) && !Contains(s, Closer)
    ensures Scan(s) == Groups(Some(s), None, None)
  {
    assert forall k :: 0 <= k ==> !OccursAt(s, Opener, k);
    assert forall k :: 0 <= k ==> !OccursAt(s, Closer, k);
  }

  /** When the first opener has a closer after it, the first such closer
      completes the match the lazy groups select. */
  lemma PairBranch(s: string, i: nat, j: nat)
    requires FirstAt(s, Opener, i)
    requires i + |Opener| <= j && OccursAt(s, Closer, j)
    requires forall k :: i + |Opener| <= k < j ==> !OccursAt(s, Closer, k)
    ensures HasPair(s) && Contains(s, Opener)
    ensures FirstPair(s, i, j)
  {
    assert OccursAt(s, Opener, i);
    assert PairAt(s, i, j);
  }

  /** When no closer follows the first opener, no closer follows any opener. */
  lemma OpenerBranch(s: string, i: nat)
    requires FirstAt(s, Opener, i)
    requires forall k :: i + |Opener| <= k ==> !OccursAt(s, Closer, k)
    ensures !HasPair(s) && Contains(s, Opener)
  {
    assert OccursAt(s, Opener, i);
  }

  lemma CloserBranch(s: string, j: nat)
    requires forall k :: 0 <= k ==> !OccursAt(s, Opener, k)
    requires FirstAt(s, Closer, j)
    ensures !HasPair(s) && !Contains(s, Opener) && Contains(s, Closer)
  {
    assert OccursAt(s, Closer, j);
  }

  /** A marker found at `i` can be cut out and put back. */
  lemma Rejoin(s: string, pat: string, i: int)
    requires OccursAt(s, pat, i)
    ensures s == s[..i] + pat + s[i + |pat|..]
  {
    assert s == s[..i] + s[i..i + |pat|] + s[i + |pat|..];
  }

  /** An opener and a closer after it can both be cut out and put back. */
  lemma RejoinPair(s: string, i: int, j: int)
    requires PairAt(s, i, j)
    ensures s == s[..i] + Opener + s[i + |Opener|..j] + Closer + s[j + |Closer|..]
  {
    var d := i + |Opener|;
    var u := s[d..];
    OccursInSuffix(s, Closer, d, j - d);
    Rejoin(u, Closer, j - d);
    assert u[..j - d] == s[d..j];
    assert u[j - d + |Closer|..] == s[j + |Closer|..];
    Rejoin(s, Opener, i);
  }

  /** Putting the markers back between the groups gives the line again:
      every branch of `scanXMLComment` is a split of its input. */
  lemma ScanRebuilds(s: string)
    ensures Rebuild(Scan(s)) == s
  {
    match FindFrom(s, Opener, 0) {
      case Some(i) =>
        match FindFrom(s, Closer, i + |Opener|) {
          case Some(j) => RejoinPair(s, i, j);
          case None => Rejoin(s, Opener, i);
        }
      case None =>
        match FindFrom(s, Closer, 0) {
          case Some(j) => Rejoin(s, Closer, j);
          case None =>
        }
    }
  }
}
