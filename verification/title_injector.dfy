/**
  The `html-transform` plugin's `transformIndexHtml` hook (vite.config.js):
  the page title is taken from the environment, falling back to a fixed
  default, and the first `<title>...</title>` of the HTML entry template is
  replaced by one holding it, through a single non-global
  `String.prototype.replace`.

  The environment that `loadEnv` would produce is an explicit map parameter.
*/
module TitleInjector {
  import opened Wrappers
  import opened TitlePattern
  import opened Substitution

  /** The environment key whose value becomes the title. */
  const TitleKey: string := "VITE_SITE_TITLE"

  /** The fallback title, 猫猫导航 (U+732B U+732B U+5BFC U+822A). */
  const DefaultTitle: string := "\U{732B}\U{732B}\U{5BFC}\U{822A}"

  /**
    `env.VITE_SITE_TITLE || '猫猫导航'`. The environment holds strings only, so
    the left operand is falsy exactly when the key is absent (undefined) or
    its value is the empty string; any other value, "0" included, is used.
  */
  function ChooseTitle(env: map<string, string>): (title: string)
    ensures title != []
    ensures TitleKey in env && env[TitleKey] != [] ==> title == env[TitleKey]
    ensures TitleKey !in env || env[TitleKey] == [] ==> title == DefaultTitle
  {
    if TitleKey in env && env[TitleKey] != "" then env[TitleKey] else DefaultTitle
  }

  /**
    The template literal `<title>${title}</title>`, before `$` expansion: the
    title between the two tags, and free of references when the title is.
  */
  function Template(title: string): (r: string)
    ensures |r| == |OpenTag| + |title| + |CloseTag|
    ensures r[..|OpenTag|] == OpenTag
    ensures r[|OpenTag|..|OpenTag| + |title|] == title
    ensures r[|OpenTag| + |title|..] == CloseTag
    ensures NoDollar(r) <==> NoDollar(title)
  {
    TagsHaveNoDollar();
    NoDollarConcat(OpenTag, title);
    NoDollarConcat(OpenTag + title, CloseTag);
    OpenTag + title + CloseTag
  }

  /** `html` with the text of match `m` swapped for `text`. */
  function Splice(html: string, m: Match, text: string): (r: string)
    requires m.start <= m.End() <= |html|
    ensures |r| == m.start + |text| + (|html| - m.End())
    ensures r[..m.start] == html[..m.start]
    ensures r[m.start..m.start + |text|] == text
    ensures r[m.start + |text|..] == html[m.End()..]
  {
    html[..m.start] + text + html[m.End()..]
  }

  /**
    The expansion of `template` for match `m` (its one capture is the
    content); a replacement string without `$` goes in as it stands.
  */
  function Expansion(html: string, m: Match, template: string): (r: string)
    requires m.ContentStart() <= m.close && m.End() <= |html|
    ensures NoDollar(template) ==> r == template
  {
    GetSubstitution(html[m.start..m.End()], html, m.start, [html[m.ContentStart()..m.close]], template)
  }

  /**
    `html.replace(/<title>(.*?)<\/title>/, template)`: one search from index 0;
    with no match the string is returned as it is, otherwise the match is
    replaced by the expansion of `template`.
  */
  function ReplaceFirst(html: string, template: string): (r: string)
    ensures Find(html).None? ==> r == html
    ensures Find(html).Some? ==>
              var m := Find(html).value;
              && m.End() <= |html| && m.start + (|html| - m.End()) <= |r|
              && r[..m.start] == html[..m.start]
              && r[|r| - (|html| - m.End())..] == html[m.End()..]
  {
    match Find(html)
    case None => html
    case Some(m) => Splice(html, m, Expansion(html, m, template))
  }

  /**
    The hook itself, as written: the title goes into the replacement string.
    Without a match the HTML is returned unchanged; with one, the text around
    it is kept, and a title without `$` goes in between the tags as it stands.
  */
  function TransformIndexHtml(env: map<string, string>, html: string): (r: string)
    ensures Find(html).None? ==> r == html
    ensures Find(html).Some? ==>
              var m := Find(html).value;
              && m.End() <= |html| && m.start + (|html| - m.End()) <= |r|
              && r[..m.start] == html[..m.start]
              && r[|r| - (|html| - m.End())..] == html[m.End()..]
    ensures Find(html).Some? && NoDollar(ChooseTitle(env)) ==>
              var m := Find(html).value;
              r == html[..m.start] + OpenTag + ChooseTitle(env) + CloseTag + html[m.End()..]
  {
    var title := ChooseTitle(env);
    var r := ReplaceFirst(html, Template(title));
    if Find(html).Some? then
      var m := Find(html).value;
      ReplaceFirstAt(html, Template(title), m);
      SpliceTemplate(html, m, title);
      r
    else
      r
  }

  /**
    The hook with every `$` of the replacement string doubled, so that the
    title is inserted as it stands.
  */
  function TransformIndexHtmlLiteral(env: map<string, string>, html: string): (r: string)
    ensures Find(html).None? ==> r == html
    ensures Find(html).Some? ==>
              var m := Find(html).value;
              r == html[..m.start] + OpenTag + ChooseTitle(env) + CloseTag + html[m.End()..]
  {
    var title := ChooseTitle(env);
    var r := ReplaceFirst(html, EscapeDollars(Template(title)));
    if Find(html).Some? then
      var m := Find(html).value;
      ReplaceFirstAt(html, EscapeDollars(Template(title)), m);
      EscapedExpansion(html, m, Template(title));
      SpliceTemplate(html, m, title);
      r
    else
      r
  }

  // ---------------------------------------------------------------------------
  // Title selection.
  // ---------------------------------------------------------------------------

  /** Only the title key of the environment matters. */
  lemma TitleDependsOnlyOnKey(env1: map<string, string>, env2: map<string, string>)
    requires TitleKey in env1 <==> TitleKey in env2
    requires TitleKey in env1 ==> env1[TitleKey] == env2[TitleKey]
    ensures ChooseTitle(env1) == ChooseTitle(env2)
  {
  }

  /** A falsy-looking but non-empty value such as "0" is kept as the title. */
  lemma ZeroStringIsKept(env: map<string, string>)
    ensures ChooseTitle(env[TitleKey := "0"]) == "0"
  {
  }

  // ---------------------------------------------------------------------------
  // Replacement.
  // ---------------------------------------------------------------------------

  /** With no qualifying `<title>` anywhere, the HTML passes through unchanged. */
  lemma NoMatchUnchanged(env: map<string, string>, html: string)
    requires forall p: nat :: !Qualifies(html, p)
    ensures TransformIndexHtml(env, html) == html
    ensures TransformIndexHtmlLiteral(env, html) == html
  {
    FindFailsIffNoMatch(html);
  }

  /**
    Matching is literal and case-sensitive: HTML without a lower-case
    `<title>` (say `<TITLE>` or `<title lang="x">`) passes through unchanged.
  */
  lemma NoOpenTagUnchanged(env: map<string, string>, html: string)
    requires forall p: nat :: !HasAt(html, p, OpenTag)
    ensures TransformIndexHtml(env, html) == html
  {
    NoOpenTagNoMatch(html);
  }

  /**
    The leftmost lazy match is the one replaced: everything before its start
    and everything after its closing tag (later `<title>` elements included)
    is kept, and the expansion of the template goes in between.
  */
  lemma LeftmostMatchReplaced(env: map<string, string>, html: string, m: Match)
    requires IsLeftmostMatch(html, m)
    ensures var r := TransformIndexHtml(env, html);
            && r == Splice(html, m, Expansion(html, m, Template(ChooseTitle(env))))
            && r[..m.start] == html[..m.start]
            && |html| - m.End() <= |r|
            && r[|r| - (|html| - m.End())..] == html[m.End()..]
  {
    ReplaceFirstAt(html, Template(ChooseTitle(env)), m);
  }

  /** `ReplaceFirst` splices the expansion in at the leftmost lazy match. */
  lemma ReplaceFirstAt(html: string, template: string, m: Match)
    requires IsLeftmostMatch(html, m)
    ensures ReplaceFirst(html, template) == Splice(html, m, Expansion(html, m, template))
  {
    FindIsLeftmostMatch(html, m);
  }

  /** A title without `$` is inserted verbatim between the tags. */
  lemma VerbatimTitle(env: map<string, string>, html: string, m: Match)
    requires IsLeftmostMatch(html, m) && NoDollar(ChooseTitle(env))
    ensures TransformIndexHtml(env, html)
         == html[..m.start] + OpenTag + ChooseTitle(env) + CloseTag + html[m.End()..]
  {
    VerbatimSplice(env, html, m);
    SpliceTemplate(html, m, ChooseTitle(env));
  }

  /** A title without `$`: the match is swapped for the title element. */
  lemma VerbatimSplice(env: map<string, string>, html: string, m: Match)
    requires IsLeftmostMatch(html, m) && NoDollar(ChooseTitle(env))
    ensures TransformIndexHtml(env, html) == Splice(html, m, Template(ChooseTitle(env)))
  {
    var t := ChooseTitle(env);
    ReplaceFirstAt(html, Template(t), m);
  }

  /** Neither tag contains a `$`. */
  lemma TagsHaveNoDollar()
    ensures NoDollar(OpenTag) && NoDollar(CloseTag)
  {
    forall k | 0 <= k < |CloseTag| ensures CloseTag[k] != '$' {
      assert CloseTag[k] in "</title>";
    }
  }

  /** With `$` escaped, every title is inserted verbatim. */
  lemma LiteralTitleReplaced(env: map<string, string>, html: string, m: Match)
    requires IsLeftmostMatch(html, m)
    ensures TransformIndexHtmlLiteral(env, html)
         == html[..m.start] + OpenTag + ChooseTitle(env) + CloseTag + html[m.End()..]
  {
    LiteralSplice(env, html, m);
    SpliceTemplate(html, m, ChooseTitle(env));
  }

  /** With `$` escaped, the match is swapped for the title element. */
  lemma LiteralSplice(env: map<string, string>, html: string, m: Match)
    requires IsLeftmostMatch(html, m)
    ensures TransformIndexHtmlLiteral(env, html) == Splice(html, m, Template(ChooseTitle(env)))
  {
    var t := Template(ChooseTitle(env));
    var e := EscapeDollars(t);
    assert TransformIndexHtmlLiteral(env, html) == ReplaceFirst(html, e);
    ReplaceFirstAt(html, e, m);
    EscapedExpansion(html, m, t);
  }

  /** Splicing in a title element, spelled out piece by piece. */
  lemma SpliceTemplate(html: string, m: Match, title: string)
    requires m.start <= m.End() <= |html|
    ensures Splice(html, m, Template(title)) == html[..m.start] + OpenTag + title + CloseTag + html[m.End()..]
  {
  }

  /** An escaped replacement string expands to the text it escapes. */
  lemma EscapedExpansion(html: string, m: Match, text: string)
    requires m.ContentStart() <= m.close && m.End() <= |html|
    ensures Expansion(html, m, EscapeDollars(text)) == text
  {
    EscapeDollarsRoundTrip(html[m.start..m.End()], html, m.start, [html[m.ContentStart()..m.close]], text);
  }

  // ---------------------------------------------------------------------------
  // Applying the hook twice.
  // ---------------------------------------------------------------------------

  /**
    After an inert title has been spliced in at the leftmost match, the new
    `<title>` element is itself the leftmost lazy match: no earlier position
    gains a match and the lazy `.*?` stops at the inserted closing tag.
  */
  lemma SplicedTitleIsLeftmostMatch(html: string, m: Match, t: string)
    requires IsLeftmostMatch(html, m) && InertTitle(t)
    ensures IsLeftmostMatch(Splice(html, m, Template(t)), Match(m.start, m.start + |OpenTag| + |t|))
  {
    var out := Splice(html, m, Template(t));
    var i := m.start;
    var cs := m.ContentStart();
    assert out[i..i + |Template(t)|] == Template(t);
    assert html[i..cs] == OpenTag;
    assert out[..cs] == html[..cs] by {
      assert out[..cs] == out[..i] + out[i..cs];
      assert html[..cs] == html[..i] + html[i..cs];
    }
    InsertedElementIsLazyMatch(out, i, t);
    EarlierStartsStillFail(html, m, out);
  }

  /** Splicing the same text into the same place a second time changes nothing. */
  lemma SpliceAgain(html: string, m: Match, t: string)
    requires m.start <= m.End() <= |html|
    ensures var out := Splice(html, m, Template(t));
            Splice(out, Match(m.start, m.start + |OpenTag| + |t|), Template(t)) == out
  {
    var out := Splice(html, m, Template(t));
    var m' := Match(m.start, m.start + |OpenTag| + |t|);
    assert m'.End() == m.start + |Template(t)|;
    assert out[..m.start] == html[..m.start];
    assert out[m'.End()..] == html[m.End()..];
  }

  /**
    Applying the hook twice with the same environment equals applying it once,
    provided the title has no `$`, no line terminator and no `</title>`.
  */
  lemma TransformIdempotent(env: map<string, string>, html: string)
    requires NoDollar(ChooseTitle(env)) && InertTitle(ChooseTitle(env))
    ensures TransformIndexHtml(env, TransformIndexHtml(env, html)) == TransformIndexHtml(env, html)
  {
    var t := ChooseTitle(env);
    var out := TransformIndexHtml(env, html);
    var r := Find(html);
    if r.Some? {
      var m := r.value;
      VerbatimSplice(env, html, m);
      SplicedTitleIsLeftmostMatch(html, m, t);
      VerbatimSplice(env, out, Match(m.start, m.start + |OpenTag| + |t|));
      SpliceAgain(html, m, t);
    }
  }

  /** With `$` escaped, idempotence needs only an inert title. */
  lemma TransformLiteralIdempotent(env: map<string, string>, html: string)
    requires InertTitle(ChooseTitle(env))
    ensures TransformIndexHtmlLiteral(env, TransformIndexHtmlLiteral(env, html))
         == TransformIndexHtmlLiteral(env, html)
  {
    var t := ChooseTitle(env);
    var out := TransformIndexHtmlLiteral(env, html);
    var r := Find(html);
    if r.Some? {
      var m := r.value;
      LiteralSplice(env, html, m);
      SplicedTitleIsLeftmostMatch(html, m, t);
      LiteralSplice(env, out, Match(m.start, m.start + |OpenTag| + |t|));
      SpliceAgain(html, m, t);
    }
  }

  /** The default title is inert and has no `$`. */
  lemma DefaultTitleIsInert()
    ensures NoDollar(DefaultTitle) && InertTitle(DefaultTitle)
  {
    forall p: nat ensures !HasAt(DefaultTitle, p, CloseTag) {
    }
  }
}
