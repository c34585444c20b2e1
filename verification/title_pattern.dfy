/**
  The one regular expression of the title injector, `/<title>(.*?)<\/title>/`
  (no flags), as an explicit search over a string.

  The search follows the RegExp matcher of ECMA-262: start positions are tried
  from left to right; at each one the literal `<title>` must match; the lazy
  `.*?` first tries to continue with `</title>` and only when that fails lets
  `.` consume one more character, which (without the `s` flag) must not be a
  line terminator. The first start position that succeeds is the match.

  Next to the search stands an independent, declarative description of what a
  leftmost lazy match is, and lemmas showing that the two agree.
*/
module TitlePattern {
  import opened Wrappers

  /** The literal opening tag of the pattern; matching is case-sensitive. */
  const OpenTag: string := "<title>"

  /** The literal closing tag of the pattern (`<\/title>` in the source). */
  const CloseTag: string := "</title>"

  /** The characters `.` refuses without the `s` flag: LF, CR, LS and PS. */
  predicate IsLineTerminator(c: char) {
    c == '\n' || c == '\r' || c == '\U{2028}' || c == '\U{2029}'
  }

  /** `s` holds the literal `p` starting at index `i`. */
  predicate HasAt(s: string, i: nat, p: string) {
    i + |p| <= |s| && s[i..i + |p|] == p
  }

  /** No line terminator in `s[lo..hi]`: a stretch `.*?` can consume. */
  predicate LineFree(s: string, lo: nat, hi: nat)
    requires lo <= hi <= |s|
  {
    forall k :: lo <= k < hi ==> !IsLineTerminator(s[k])
  }

  /**
    A match of the pattern: the opening tag starts at `start` and the closing
    tag at `close`. Capture group 1 is `s[ContentStart()..close]` and the
    matched text is `s[start..End()]`.
  */
  datatype Match = Match(start: nat, close: nat) {
    function ContentStart(): (r: nat) { start + |OpenTag| }
    function End(): (r: nat) { close + |CloseTag| }
  }

  // ---------------------------------------------------------------------------
  // Declarative reference: what a leftmost lazy match is.
  // ---------------------------------------------------------------------------

  /** The pattern can match at `i` with its closing tag at `j`. */
  ghost predicate ClosesAt(s: string, i: nat, j: nat) {
    && HasAt(s, i, OpenTag)
    && i + |OpenTag| <= j
    && HasAt(s, j, CloseTag)
    && LineFree(s, i + |OpenTag|, j)
  }

  /** Some match of the pattern starts at `i`. */
  ghost predicate Qualifies(s: string, i: nat) {
    exists j: nat :: ClosesAt(s, i, j)
  }

  /** `m` is a match, and the lazy `.*?` stops at the first closing tag. */
  ghost predicate IsLazyMatch(s: string, m: Match) {
    && ClosesAt(s, m.start, m.close)
    && forall j: nat :: m.ContentStart() <= j < m.close ==> !HasAt(s, j, CloseTag)
  }

  /** `m` is the lazy match at the leftmost position where any match starts. */
  ghost predicate IsLeftmostMatch(s: string, m: Match) {
    && IsLazyMatch(s, m)
    && forall p: nat :: p < m.start ==> !Qualifies(s, p)
  }

  // ---------------------------------------------------------------------------
  // The search.
  // ---------------------------------------------------------------------------

  /**
    `.*?` followed by `<\/title>`, tried from content index `k`: the closing
    tag is tried first; otherwise `.` takes one character that is not a line
    terminator and the attempt repeats. Yields the index of the closing tag.
  */
  function LazyClose(s: string, k: nat): (r: Option<nat>)
    requires k <= |s|
    ensures r.Some? ==> && k <= r.value
                        && HasAt(s, r.value, CloseTag)
                        && LineFree(s, k, r.value)
                        && forall j: nat :: k <= j < r.value ==> !HasAt(s, j, CloseTag)
    ensures r.None? ==> forall j: nat :: k <= j && HasAt(s, j, CloseTag) ==> !LineFree(s, k, j)
    decreases |s| - k
  {
    if HasAt(s, k, CloseTag) then Some(k)
    else if k < |s| && !IsLineTerminator(s[k]) then LazyClose(s, k + 1)
    else None
  }

  /** The pattern anchored at start position `i`. */
  function MatchAt(s: string, i: nat): (r: Option<Match>)
    requires i <= |s|
    ensures r.Some? ==> r.value.start == i && IsLazyMatch(s, r.value)
    ensures r.None? ==> !Qualifies(s, i)
  {
    if HasAt(s, i, OpenTag) then
      match LazyClose(s, i + |OpenTag|)
      case Some(j) => Some(Match(i, j))
      case None => None
    else None
  }

  /** Start positions `i`, `i + 1`, ... `|s|` are tried in turn. */
  function FindFrom(s: string, i: nat): (r: Option<Match>)
    requires i <= |s|
    ensures r.Some? ==> && i <= r.value.start
                        && IsLazyMatch(s, r.value)
                        && forall p: nat :: i <= p < r.value.start ==> !Qualifies(s, p)
    ensures r.None? ==> forall p: nat :: i <= p ==> !Qualifies(s, p)
    decreases |s| - i
  {
    match MatchAt(s, i)
    case Some(m) => Some(m)
    case None => if i < |s| then FindFrom(s, i + 1) else None
  }

  /** The non-global, non-sticky search: it always starts at index 0. */
  function Find(s: string): (r: Option<Match>)
    ensures r.Some? ==> IsLeftmostMatch(s, r.value)
    ensures r.None? ==> forall p: nat :: !Qualifies(s, p)
  {
    FindFrom(s, 0)
  }

  // ---------------------------------------------------------------------------
  // Lemmas relating the search to the reference.
  // ---------------------------------------------------------------------------

  /** There is at most one leftmost lazy match. */
  lemma LeftmostMatchUnique(s: string, m1: Match, m2: Match)
    requires IsLeftmostMatch(s, m1) && IsLeftmostMatch(s, m2)
    ensures m1 == m2
  {
    assert Qualifies(s, m1.start);
    assert Qualifies(s, m2.start);
    assert m1.start == m2.start;
    assert HasAt(s, m1.close, CloseTag) && HasAt(s, m2.close, CloseTag);
  }

  /** The search finds `m` exactly when `m` is the leftmost lazy match. */
  lemma FindIsLeftmostMatch(s: string, m: Match)
    ensures Find(s) == Some(m) <==> IsLeftmostMatch(s, m)
  {
    if IsLeftmostMatch(s, m) {
      assert Qualifies(s, m.start);
      LeftmostMatchUnique(s, Find(s).value, m);
    }
  }

  /** The search fails exactly when no start position qualifies. */
  lemma FindFailsIffNoMatch(s: string)
    ensures Find(s).None? <==> forall p: nat :: !Qualifies(s, p)
  {
    if Find(s).Some? {
      assert Qualifies(s, Find(s).value.start);
    }
  }

  /** Without a literal lower-case `<title>` anywhere, nothing qualifies. */
  lemma NoOpenTagNoMatch(s: string)
    requires forall p: nat :: !HasAt(s, p, OpenTag)
    ensures Find(s).None?
  {
    forall p: nat ensures !Qualifies(s, p) {
      assert !HasAt(s, p, OpenTag);
    }
    FindFailsIffNoMatch(s);
  }

  /**
    An opening tag whose first following closing tag is preceded by a line
    terminator does not qualify: `.` cannot cross the terminator, and every
    later closing tag lies beyond it too. The search passes over it.
  */
  lemma LineBreakInContentSkipped(s: string, i: nat, j: nat, k: nat)
    requires HasAt(s, i, OpenTag)
    requires i + |OpenTag| <= k < j && HasAt(s, j, CloseTag)
    requires forall q: nat :: i + |OpenTag| <= q < j ==> !HasAt(s, q, CloseTag)
    requires IsLineTerminator(s[k])
    ensures !Qualifies(s, i)
    ensures Find(s).None? || Find(s).value.start != i
  {
    forall q: nat | i + |OpenTag| <= q && HasAt(s, q, CloseTag)
      ensures !LineFree(s, i + |OpenTag|, q)
    {
      assert j <= q;
      assert k < q && IsLineTerminator(s[k]);
    }
    assert !Qualifies(s, i);
  }

  // ---------------------------------------------------------------------------
  // Searching again after a title has been put in.
  // ---------------------------------------------------------------------------

  /** A title that a second search matches exactly as it was put in. */
  ghost predicate InertTitle(t: string) {
    && LineFree(t, 0, |t|)
    && forall p: nat :: !HasAt(t, p, CloseTag)
  }

  /**
    `<title>` + an inert title + `</title>` at `i` is a lazy match whose
    closing tag is the one after the title: no closing tag starts inside the
    title, nor straddles its end, since `</title>` has no `<` after its first
    character.
  */
  lemma InsertedElementIsLazyMatch(out: string, i: nat, t: string)
    requires i + |OpenTag| + |t| + |CloseTag| <= |out|
    requires out[i..i + |OpenTag| + |t| + |CloseTag|] == OpenTag + t + CloseTag
    requires InertTitle(t)
    ensures IsLazyMatch(out, Match(i, i + |OpenTag| + |t|))
  {
    var cs := i + |OpenTag|;
    var c := cs + |t|;
    var w := OpenTag + t + CloseTag;
    assert forall k :: cs <= k < c ==> out[k] == t[k - cs] by {
      forall k | cs <= k < c ensures out[k] == t[k - cs] {
        assert out[k] == w[k - i];
      }
    }
    assert out[i..cs] == OpenTag by {
      assert out[i..cs] == w[..|OpenTag|];
    }
    assert out[c..c + |CloseTag|] == CloseTag by {
      assert out[c..c + |CloseTag|] == w[|OpenTag| + |t|..];
    }
    assert LineFree(out, cs, c) by {
      forall k | cs <= k < c ensures !IsLineTerminator(out[k]) {
        assert out[k] == t[k - cs];
      }
    }
    forall j: nat | cs <= j < c
      ensures !HasAt(out, j, CloseTag)
    {
      NoCloseInsideTitle(out, i, t, j);
    }
  }

  /** No closing tag starts inside an inert title placed between the tags. */
  lemma NoCloseInsideTitle(out: string, i: nat, t: string, j: nat)
    requires i + |OpenTag| + |t| + |CloseTag| <= |out|
    requires out[i..i + |OpenTag| + |t| + |CloseTag|] == OpenTag + t + CloseTag
    requires InertTitle(t)
    requires i + |OpenTag| <= j < i + |OpenTag| + |t|
    ensures !HasAt(out, j, CloseTag)
  {
    if j + |CloseTag| <= i + |OpenTag| + |t| {
      NoCloseWithinTitle(out, i, t, j);
    } else {
      NoCloseAcrossTitleEnd(out, i, t, j);
    }
  }

  /** A closing tag that would lie wholly inside the title would be part of it. */
  lemma NoCloseWithinTitle(out: string, i: nat, t: string, j: nat)
    requires i + |OpenTag| + |t| + |CloseTag| <= |out|
    requires out[i..i + |OpenTag| + |t| + |CloseTag|] == OpenTag + t + CloseTag
    requires InertTitle(t)
    requires i + |OpenTag| <= j && j + |CloseTag| <= i + |OpenTag| + |t|
    ensures !HasAt(out, j, CloseTag)
  {
    var cs := i + |OpenTag|;
    var w := OpenTag + t + CloseTag;
    forall k | j <= k < j + |CloseTag| ensures out[k] == t[k - cs] {
      assert out[k] == out[i..i + |w|][k - i] == w[k - i];
    }
    assert out[j..j + |CloseTag|] == t[j - cs..j - cs + |CloseTag|];
    assert !HasAt(t, j - cs, CloseTag);
  }

  /**
    A closing tag that would start inside the title and run past its end
    would need a `<` where the title's own closing tag has its first `<`.
  */
  lemma NoCloseAcrossTitleEnd(out: string, i: nat, t: string, j: nat)
    requires i + |OpenTag| + |t| + |CloseTag| <= |out|
    requires out[i..i + |OpenTag| + |t| + |CloseTag|] == OpenTag + t + CloseTag
    requires j < i + |OpenTag| + |t| < j + |CloseTag|
    ensures !HasAt(out, j, CloseTag)
  {
    var c := i + |OpenTag| + |t|;
    var w := OpenTag + t + CloseTag;
    assert out[c] == w[c - i] == '<';
    assert CloseTag[c - j] != '<';
    assert out[j + (c - j)] == out[c];
  }

  /**
    If `out` agrees with `html` up to the end of the leftmost match's opening
    tag, no start position before that match qualifies in `out` either: a
    closing tag at or after the opening tag lies past a line terminator that
    already stopped every earlier start in `html`.
  */
  lemma EarlierStartsStillFail(html: string, m: Match, out: string)
    requires IsLeftmostMatch(html, m)
    requires m.ContentStart() <= |out| && out[..m.ContentStart()] == html[..m.ContentStart()]
    ensures forall p: nat :: p < m.start ==> !Qualifies(out, p)
  {
    var i := m.start;
    var cs := m.ContentStart();
    assert forall k :: 0 <= k < cs ==> out[k] == html[k] by {
      forall k | 0 <= k < cs ensures out[k] == html[k] {
        assert out[..cs][k] == html[..cs][k];
      }
    }
    assert out[i..cs] == OpenTag by {
      assert out[i..cs] == html[i..cs];
    }
    forall p: nat | p < i
      ensures !Qualifies(out, p)
    {
      forall q: nat | HasAt(out, p, OpenTag) && p + |OpenTag| <= q && HasAt(out, q, CloseTag)
        ensures !LineFree(out, p + |OpenTag|, q)
      {
        assert out[p..p + |OpenTag|] == html[p..p + |OpenTag|];
        if q < i {
          EarlierCloseBlocked(html, m, out, p, q);
        } else {
          LaterCloseBlocked(html, m, out, p, q);
        }
      }
    }
  }

  /** A closing tag before the match: `html` already had a line break in between. */
  lemma EarlierCloseBlocked(html: string, m: Match, out: string, p: nat, q: nat)
    requires IsLeftmostMatch(html, m)
    requires m.ContentStart() <= |out| && forall k :: 0 <= k < m.ContentStart() ==> out[k] == html[k]
    requires p < m.start && HasAt(html, p, OpenTag)
    requires p + |OpenTag| <= q < m.start && HasAt(out, q, CloseTag)
    ensures !LineFree(out, p + |OpenTag|, q)
  {
    assert out[q..q + |CloseTag|] == html[q..q + |CloseTag|];
    assert HasAt(html, q, CloseTag);
    assert !Qualifies(html, p);
    assert !ClosesAt(html, p, q);
    var k :| p + |OpenTag| <= k < q && IsLineTerminator(html[k]);
    assert out[k] == html[k];
  }

  /** A closing tag cannot start inside an opening tag. */
  lemma CloseNotInOpenTag(out: string, i: nat, q: nat)
    requires i + |OpenTag| <= |out| && out[i..i + |OpenTag|] == OpenTag
    requires i <= q && HasAt(out, q, CloseTag)
    ensures i + |OpenTag| <= q
  {
    assert out[q] == '<' && out[q + 1] == '/';
    assert out[i + 1] == 't';
    assert forall k :: i < k < i + |OpenTag| ==> out[k] == OpenTag[k - i];
  }

  /**
    A closing tag at or after the match: it cannot start inside the opening
    tag, and the line break that stopped `p` in `html` lies before the content.
  */
  lemma LaterCloseBlocked(html: string, m: Match, out: string, p: nat, q: nat)
    requires IsLeftmostMatch(html, m)
    requires m.ContentStart() <= |out| && forall k :: 0 <= k < m.ContentStart() ==> out[k] == html[k]
    requires out[m.start..m.ContentStart()] == OpenTag
    requires p < m.start && HasAt(html, p, OpenTag)
    requires m.start <= q && p + |OpenTag| <= q && HasAt(out, q, CloseTag)
    ensures !LineFree(out, p + |OpenTag|, q)
  {
    var i := m.start;
    var cs := m.ContentStart();
    CloseNotInOpenTag(out, i, q);
    assert !Qualifies(html, p);
    assert !ClosesAt(html, p, m.close);
    assert LineFree(html, cs, m.close);
    var k :| p + |OpenTag| <= k < m.close && IsLineTerminator(html[k]);
    assert k < cs;
    assert out[k] == html[k];
  }
}
