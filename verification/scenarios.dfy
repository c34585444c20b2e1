/**
  Worked inputs for the title injector: the default title, a configured
  title, an empty value, a document without a title, case and attributes,
  a line break inside the first title, and a title holding `$&` (which is
  expanded, and makes the hook lose its idempotence).

  Most concrete documents and environments are parameters pinned by a
  `requires` (`html == "..."`) rather than literals inside the `ensures`:
  that keeps the verifier from unfolding the search over a constant string
  while it checks the contract, which keeps each proof cheap.
*/
module Scenarios {
  import opened Wrappers
  import opened TitlePattern
  import opened Substitution
  import opened TitleInjector

  /** Every `<` in `a` is followed by something other than `t` (or ends `a`). */
  predicate NoOpenTagStart(a: string) {
    forall p :: 0 <= p < |a| && a[p] == '<' ==> p + 1 == |a| || a[p + 1] != 't'
  }

  /** A literal cannot start at `i` when one of its characters disagrees. */
  lemma Mismatch(s: string, i: nat, p: string, d: nat)
    requires d < |p| && i + d < |s| && s[i + d] != p[d]
    ensures !HasAt(s, i, p)
  {
    if i + |p| <= |s| {
      assert s[i..i + |p|][d] != p[d];
    }
  }

  /** A text shorter than `</title>` and without line terminators is inert. */
  lemma ShortTextIsInert(t: string)
    requires |t| < |CloseTag| && LineFree(t, 0, |t|)
    ensures InertTitle(t)
  {
  }

  /** A text of letters and spaces has no `$`. */
  lemma PlainTitle(t: string)
    requires forall k :: 0 <= k < |t| ==> 'A' <= t[k] <= 'z' || t[k] == ' '
    ensures NoDollar(t)
  {
  }

  /** A string in which no `<title>` starts passes through unchanged. */
  lemma NoOpenTagStartUnchanged(env: map<string, string>, html: string)
    requires NoOpenTagStart(html)
    ensures TransformIndexHtml(env, html) == html
  {
    forall p: nat ensures !HasAt(html, p, OpenTag) {
      if p + 1 < |html| {
        if html[p] == '<' { Mismatch(html, p, OpenTag, 1); } else { Mismatch(html, p, OpenTag, 0); }
      }
    }
    NoOpenTagUnchanged(env, html);
  }

  /**
    The first title element after a prefix at which no match starts, holding
    an inert content, is the one replaced; the rest is kept.
  */
  lemma ElementAfterUnmatchedPrefix(env: map<string, string>, html: string, a: string, content: string, b: string)
    requires html == a + OpenTag + content + CloseTag + b
    requires forall p: nat :: p < |a| ==> !Qualifies(html, p)
    requires InertTitle(content) && NoDollar(ChooseTitle(env))
    ensures TransformIndexHtml(env, html) == a + OpenTag + ChooseTitle(env) + CloseTag + b
  {
    var element := OpenTag + content + CloseTag;
    var i := |a|;
    assert html == a + element + b;
    assert html[i..i + |element|] == element;
    InsertedElementIsLazyMatch(html, i, content);
    var m := Match(i, i + |OpenTag| + |content|);
    assert IsLeftmostMatch(html, m);
    VerbatimTitle(env, html, m);
    assert html[..i] == a;
    assert html[m.End()..] == b;
  }

  /**
    The first title element, after a prefix in which no `<title>` starts and
    holding an inert content, is the one replaced; the rest is kept.
  */
  lemma FirstElementReplaced(env: map<string, string>, html: string, a: string, content: string, b: string)
    requires html == a + OpenTag + content + CloseTag + b
    requires NoOpenTagStart(a) && InertTitle(content) && NoDollar(ChooseTitle(env))
    ensures TransformIndexHtml(env, html) == a + OpenTag + ChooseTitle(env) + CloseTag + b
  {
    forall p: nat | p < |a| ensures !Qualifies(html, p) {
      assert html[p] == a[p];
      if a[p] == '<' {
        if p + 1 == |a| {
          assert html[p + 1] == '<';
        } else {
          assert html[p + 1] == a[p + 1];
        }
        Mismatch(html, p, OpenTag, 1);
      } else {
        Mismatch(html, p, OpenTag, 0);
      }
    }
    ElementAfterUnmatchedPrefix(env, html, a, content, b);
  }

  /** An empty environment: the default title replaces the old one. */
  lemma EmptyEnvUsesDefault(env: map<string, string>, html: string)
    requires env == map[] && html == "<head>" + OpenTag + "Old" + CloseTag + "</head>"
    ensures TransformIndexHtml(env, html) == "<head>" + OpenTag + DefaultTitle + CloseTag + "</head>"
  {
    DefaultTitleIsInert();
    FirstElementReplaced(env, html, "<head>", "Old", "</head>");
  }

  /** A configured title fills an empty title element. */
  lemma ConfiguredTitleUsed(env: map<string, string>, html: string)
    requires env == map[TitleKey := "My Site"] && html == OpenTag + CloseTag
    ensures TransformIndexHtml(env, html) == OpenTag + "My Site" + CloseTag
  {
    assert ChooseTitle(env) == "My Site";
    PlainTitle("My Site");
    ShortTextIsInert("");
    assert html == OpenTag + "" + CloseTag + "";
    LeadingElementReplaced(env, html, "", "");
    assert OpenTag + "My Site" + CloseTag + "" == OpenTag + "My Site" + CloseTag;
  }

  /** An empty value counts as unset. */
  lemma EmptyValueUsesDefault(env: map<string, string>, html: string)
    requires env == map[TitleKey := ""] && html == OpenTag + "X" + CloseTag
    ensures TransformIndexHtml(env, html) == OpenTag + DefaultTitle + CloseTag
  {
    DefaultTitleIsInert();
    ShortTextIsInert("X");
    assert ChooseTitle(env) == DefaultTitle;
    assert html == OpenTag + "X" + CloseTag + "";
    LeadingElementReplaced(env, html, "X", "");
    assert OpenTag + DefaultTitle + CloseTag + "" == OpenTag + DefaultTitle + CloseTag;
  }

  /** Only the first of two title elements is replaced. */
  lemma OnlyFirstTitleReplaced(env: map<string, string>, html: string)
    requires env == map[TitleKey := "T"] && html == OpenTag + "a" + CloseTag + OpenTag + "b" + CloseTag
    ensures TransformIndexHtml(env, html) == OpenTag + "T" + CloseTag + (OpenTag + "b" + CloseTag)
  {
    var later := OpenTag + "b" + CloseTag;
    assert ChooseTitle(env) == "T" && NoDollar("T");
    ShortTextIsInert("a");
    assert html == OpenTag + "a" + CloseTag + later;
    LeadingElementReplaced(env, html, "a", later);
  }

  /** A document without a title element is returned as it is, whatever the environment. */
  lemma NoTitleUnchanged(env: map<string, string>, html: string)
    requires html == "<body>no title here</body>"
    ensures TransformIndexHtml(env, html) == html
  {
    NoOpenTagStartUnchanged(env, html);
  }

  /** Upper-case tags do not match. */
  lemma UpperCaseUnchanged(env: map<string, string>, html: string)
    requires html == "<TITLE>Old</TITLE>"
    ensures TransformIndexHtml(env, html) == html
  {
    NoOpenTagStartUnchanged(env, html);
  }

  /** An opening tag with an attribute does not match. */
  lemma AttributeUnchanged(env: map<string, string>, html: string)
    requires html == "<title lang=\"x\">Old</title>"
    ensures TransformIndexHtml(env, html) == html
  {
    forall p: nat ensures !HasAt(html, p, OpenTag) {
      if p == 0 {
        Mismatch(html, p, OpenTag, 6);
      } else if p + 1 < |html| {
        if html[p] == '<' { Mismatch(html, p, OpenTag, 1); } else { Mismatch(html, p, OpenTag, 0); }
      }
    }
    NoOpenTagUnchanged(env, html);
  }

  /**
    A line break inside the first title element stops `.` there, so the first
    element does not match and the second one is replaced.
  */
  lemma LineBreakMovesToNextTitle(env: map<string, string>, html: string)
    requires env == map[] && html == OpenTag + "a\nb" + CloseTag + OpenTag + "c" + CloseTag
    ensures TransformIndexHtml(env, html) == OpenTag + "a\nb" + CloseTag + OpenTag + DefaultTitle + CloseTag
  {
    var a := OpenTag + "a\nb" + CloseTag;
    assert IsLineTerminator("a\nb"[1]);
    BrokenElementUnmatched(html, "a\nb", OpenTag + "c" + CloseTag, 1);
    DefaultTitleIsInert();
    ElementAfterUnmatchedPrefix(env, html, a, "c", "");
  }

  /**
    No match starts inside a title element whose content has no `<` and holds
    a line terminator, whatever follows the element.
  */
  lemma BrokenElementUnmatched(html: string, x: string, rest: string, k: nat)
    requires html == OpenTag + x + CloseTag + rest
    requires forall q :: 0 <= q < |x| ==> x[q] != '<'
    requires k < |x| && IsLineTerminator(x[k])
    ensures forall p: nat :: p < |OpenTag| + |x| + |CloseTag| ==> !Qualifies(html, p)
  {
    var cs := |OpenTag|;
    var c := cs + |x|;
    assert html[..cs] == OpenTag;
    assert html[cs..c] == x;
    assert html[c..c + |CloseTag|] == CloseTag;
    assert HasAt(html, 0, OpenTag);
    assert HasAt(html, c, CloseTag);
    assert forall q :: cs <= q < c ==> html[q] == x[q - cs];
    forall q: nat | cs <= q < c ensures !HasAt(html, q, CloseTag) {
      Mismatch(html, q, CloseTag, 0);
    }
    assert html[cs + k] == x[k];
    LineBreakInContentSkipped(html, 0, c, cs + k);
    forall p: nat | 0 < p < c + |CloseTag| ensures !Qualifies(html, p) {
      NoOpenTagInsideElement(html, x, rest, p);
    }
  }

  /** Past its first character, a title element whose content has no `<` holds no `<title>`. */
  lemma NoOpenTagInsideElement(html: string, x: string, rest: string, p: nat)
    requires html == OpenTag + x + CloseTag + rest
    requires forall q :: 0 <= q < |x| ==> x[q] != '<'
    requires 0 < p < |OpenTag| + |x| + |CloseTag|
    ensures !HasAt(html, p, OpenTag)
  {
    var cs := |OpenTag|;
    var c := cs + |x|;
    if p < cs {
      assert html[p] == OpenTag[p];
      Mismatch(html, p, OpenTag, 0);
    } else if p < c {
      assert html[p] == x[p - cs];
      Mismatch(html, p, OpenTag, 0);
    } else if p == c {
      assert html[c + 1] == CloseTag[1];
      Mismatch(html, p, OpenTag, 1);
    } else {
      assert html[p] == CloseTag[p - c];
      Mismatch(html, p, OpenTag, 0);
    }
  }

  /**
    A `$&` in the title is expanded to the matched text instead of being
    inserted: the old title element ends up nested inside the new one.
  */
  lemma DollarTitleExpanded(env: map<string, string>, html: string)
    requires env == map[TitleKey := "$&"] && html == OpenTag + "Old" + CloseTag
    ensures TransformIndexHtml(env, html) == OpenTag + html + CloseTag
    ensures TransformIndexHtml(env, html) != OpenTag + "$&" + CloseTag
  {
    assert ChooseTitle(env) == "$&";
    ShortTextIsInert("Old");
    AmpersandTitleNestsElement(env, html, "Old");
    var r := TransformIndexHtml(env, html);
    assert |r| == |OpenTag| + |html| + |CloseTag| > |OpenTag| + 2 + |CloseTag|;
  }

  /** A title `$&` puts the whole matched element inside the new one. */
  lemma AmpersandTitleNestsElement(env: map<string, string>, html: string, content: string)
    requires ChooseTitle(env) == "$&"
    requires html == OpenTag + content + CloseTag && InertTitle(content)
    ensures TransformIndexHtml(env, html) == OpenTag + html + CloseTag
  {
    var m := Match(0, |OpenTag| + |content|);
    SingleElementMatch(html, content);
    assert ChooseTitle(env) == "$&";
    ReplaceFirstAt(html, Template("$&"), m);
    AmpersandExpansion(html, m);
    assert m.End() == |html| && html[m.start..m.End()] == html;
    assert html[..m.start] == [] && html[m.End()..] == [];
  }

  /** The replacement string `<title>$&</title>` wraps the matched text in a title element. */
  lemma AmpersandExpansion(html: string, m: Match)
    requires m.ContentStart() <= m.close && m.End() <= |html|
    ensures Expansion(html, m, Template("$&")) == OpenTag + html[m.start..m.End()] + CloseTag
  {
    TagsHaveNoDollar();
    AmpersandBetween(html[m.start..m.End()], html, m.start, [html[m.ContentStart()..m.close]], OpenTag, CloseTag);
  }

  /** With `$` escaped, the same title goes in as written. */
  lemma DollarTitleLiteral(env: map<string, string>, html: string)
    requires env == map[TitleKey := "$&"] && html == OpenTag + "Old" + CloseTag
    ensures TransformIndexHtmlLiteral(env, html) == OpenTag + "$&" + CloseTag
  {
    assert ChooseTitle(env) == "$&";
    SingleElementLiteral(env, html, "Old");
  }

  /** With `$` escaped, a lone title element gets exactly the configured title. */
  lemma SingleElementLiteral(env: map<string, string>, html: string, content: string)
    requires html == OpenTag + content + CloseTag && InertTitle(content)
    ensures TransformIndexHtmlLiteral(env, html) == OpenTag + ChooseTitle(env) + CloseTag
  {
    var m := Match(0, |OpenTag| + |content|);
    SingleElementMatch(html, content);
    LiteralTitleReplaced(env, html, m);
    var t := ChooseTitle(env);
    var r := TransformIndexHtmlLiteral(env, html);
    assert m.End() == |html|;
    assert r == html[..0] + OpenTag + t + CloseTag + html[|html|..];
    assert html[..0] + OpenTag == OpenTag;
    assert html[|html|..] == [];
  }

  /** A title element at the very start, with inert content, takes a `$`-free title. */
  lemma LeadingElementReplaced(env: map<string, string>, html: string, content: string, rest: string)
    requires html == OpenTag + content + CloseTag + rest
    requires InertTitle(content) && NoDollar(ChooseTitle(env))
    ensures TransformIndexHtml(env, html) == OpenTag + ChooseTitle(env) + CloseTag + rest
  {
    var element := OpenTag + content + CloseTag;
    assert html == element + rest;
    assert html[0..|element|] == element;
    InsertedElementIsLazyMatch(html, 0, content);
    var m := Match(0, |OpenTag| + |content|);
    assert IsLeftmostMatch(html, m);
    VerbatimTitle(env, html, m);
    assert html[..0] + OpenTag == OpenTag;
    assert html[m.End()..] == rest;
  }

  /** A document that is one title element with inert content matches as a whole. */
  lemma SingleElementMatch(html: string, content: string)
    requires html == OpenTag + content + CloseTag && InertTitle(content)
    ensures IsLeftmostMatch(html, Match(0, |OpenTag| + |content|))
  {
    assert html[0..|html|] == html;
    InsertedElementIsLazyMatch(html, 0, content);
  }

  /**
    With the title `$&` the hook is not idempotent: whenever the HTML has a
    match, a second pass nests the element once more.
  */
  lemma DollarTitleNotIdempotent(env: map<string, string>, html: string)
    requires ChooseTitle(env) == "$&" && Find(html).Some?
    ensures TransformIndexHtml(env, TransformIndexHtml(env, html)) != TransformIndexHtml(env, html)
  {
    var m := Find(html).value;
    var out := TransformIndexHtml(env, html);
    AmpersandGrows(env, html, m);
    ShiftedCopy(html, m, out);
    ShiftedMatchQualifies(html, m, out, |OpenTag|);
    assert Qualifies(out, m.start + |OpenTag|);
    FindFailsIffNoMatch(out);
    AmpersandGrows(env, out, Find(out).value);
  }

  /** Each pass with the title `$&` wraps the match in one more element. */
  lemma AmpersandGrows(env: map<string, string>, html: string, m: Match)
    requires ChooseTitle(env) == "$&" && IsLeftmostMatch(html, m)
    ensures TransformIndexHtml(env, html) == Splice(html, m, OpenTag + html[m.start..m.End()] + CloseTag)
    ensures |TransformIndexHtml(env, html)| == |html| + |OpenTag| + |CloseTag|
  {
    ReplaceFirstAt(html, Template("$&"), m);
    AmpersandExpansion(html, m);
  }

  /** A lazy match whose text is copied `d` places further on is a match there too. */
  lemma ShiftedMatchQualifies(html: string, m: Match, out: string, d: nat)
    requires IsLazyMatch(html, m) && m.End() + d <= |out|
    requires forall k :: m.start <= k < m.End() ==> out[k + d] == html[k]
    ensures ClosesAt(out, m.start + d, m.close + d)
  {
    CopiedLiteral(html, out, d, m.start, OpenTag);
    CopiedLiteral(html, out, d, m.close, CloseTag);
    forall q | m.ContentStart() + d <= q < m.close + d ensures !IsLineTerminator(out[q]) {
      assert out[(q - d) + d] == html[q - d];
    }
  }

  /** A literal in a copied stretch of text is found at the shifted position. */
  lemma CopiedLiteral(html: string, out: string, d: nat, a: nat, p: string)
    requires HasAt(html, a, p) && a + |p| + d <= |out|
    requires forall k :: a <= k < a + |p| ==> out[k + d] == html[k]
    ensures HasAt(out, a + d, p)
  {
    forall k | 0 <= k < |p| ensures out[a + d..a + d + |p|][k] == p[k] {
      assert out[(a + k) + d] == html[a + k] == html[a..a + |p|][k];
    }
  }

  /** The matched text reappears right after the new opening tag. */
  lemma ShiftedCopy(html: string, m: Match, out: string)
    requires m.start <= m.End() <= |html|
    requires out == Splice(html, m, OpenTag + html[m.start..m.End()] + CloseTag)
    ensures forall k :: m.start <= k < m.End() ==> out[k + |OpenTag|] == html[k]
  {
    var s := m.start;
    var copy := html[s..m.End()];
    var text := OpenTag + copy + CloseTag;
    var mid := out[s..s + |text|];
    assert mid == text;
    forall k | s <= k < m.End() ensures out[k + |OpenTag|] == html[k] {
      assert out[k + |OpenTag|] == mid[k - s + |OpenTag|];
      assert text[k - s + |OpenTag|] == copy[k - s];
    }
  }
}
