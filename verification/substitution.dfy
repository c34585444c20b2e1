/**
  GetSubstitution of ECMA-262 (section 22.1.3.19.1 of the 15th edition, 2024), the
  step of `String.prototype.replace` that turns a replacement string into the
  text put in place of a match. A `$` in the replacement string starts a
  reference: `$$`, `` $` ``, `$&`, `$'`, `$n`, `$nn` and `$<`.

  `captures` holds the values of the capture groups in order; each is a
  string, since the title pattern's only group always takes part in a match.
  There are never named groups here, so `$<` stays literal.
*/
module Substitution {

  predicate IsDigit(c: char) {
    '0' <= c <= '9'
  }

  function DigitValue(c: char): (d: nat)
    requires IsDigit(c)
    ensures d <= 9
  {
    (c as int) - ('0' as int)
  }

  /** The replacement string contains no `$`, so it has no references. */
  predicate NoDollar(t: string) {
    forall k :: 0 <= k < |t| ==> t[k] != '$'
  }

  /** One reference (or plain character) at the head of the template. */
  datatype Ref = Ref(length: nat, expansion: string)

  /**
    The reference at the head of `rest` and its replacement text. A two-digit
    `$nn` whose index exceeds the number of captures is read as `$n` followed by
    a literal digit; an index outside `1..|captures|` is kept literally.
  */
  function NextRef(matched: string, str: string, position: nat, captures: seq<string>, rest: string): (ref: Ref)
    requires position <= |str| && rest != []
    ensures 1 <= ref.length <= |rest|
    ensures rest[0] != '$' ==> ref == Ref(1, [rest[0]])
  {
    if rest[0] == '$' && |rest| >= 2 then
      var c := rest[1];
      if c == '$' then Ref(2, "$")
      else if c == '`' then Ref(2, str[..position])
      else if c == '&' then Ref(2, matched)
      else if c == '\'' then
        var tailPos := position + |matched|;
        Ref(2, if tailPos >= |str| then "" else str[tailPos..])
      else if IsDigit(c) then
        var twoDigits := |rest| >= 3 && IsDigit(rest[2]);
        var index2 := if twoDigits then 10 * DigitValue(c) + DigitValue(rest[2]) else 0;
        var digitCount := if twoDigits && index2 <= |captures| then 2 else 1;
        var index := if digitCount == 2 then index2 else DigitValue(c);
        if 1 <= index <= |captures| then Ref(1 + digitCount, captures[index - 1])
        else Ref(1 + digitCount, rest[..1 + digitCount])
      else if c == '<' then Ref(2, "$<")
      else Ref(1, "$")
    else Ref(1, rest[..1])
  }

  /** The text that replaces the match, expanded from `template` left to right. */
  function GetSubstitution(matched: string, str: string, position: nat, captures: seq<string>, template: string): (r: string)
    requires position <= |str|
    ensures NoDollar(template) ==> r == template
    decreases |template|
  {
    if template == [] then []
    else
      var ref := NextRef(matched, str, position, captures, template);
      ref.expansion + GetSubstitution(matched, str, position, captures, template[ref.length..])
  }

  /**
    Every `$` doubled: the replacement string that stands for `t` literally.
    It grows by one character per `$`, and a `$`-free text is left alone.
  */
  function EscapeDollars(t: string): (e: string)
    ensures |e| == |t| + multiset(t)['$']
    ensures NoDollar(t) ==> e == t
    decreases |t|
  {
    if t == [] then []
    else
      assert t == [t[0]] + t[1..];
      NoDollarConcat([t[0]], t[1..]);
      (if t[0] == '$' then "$$" else [t[0]]) + EscapeDollars(t[1..])
  }

  /** A concatenation is `$`-free exactly when both parts are. */
  lemma NoDollarConcat(a: string, b: string)
    ensures NoDollar(a + b) <==> NoDollar(a) && NoDollar(b)
  {
    if NoDollar(a + b) {
      forall k | 0 <= k < |a| ensures a[k] != '$' {
        assert a[k] == (a + b)[k];
      }
      forall k | 0 <= k < |b| ensures b[k] != '$' {
        assert b[k] == (a + b)[|a| + k];
      }
    }
    if NoDollar(a) && NoDollar(b) {
      forall k | 0 <= k < |a + b| ensures (a + b)[k] != '$' {
        if k < |a| {
          assert (a + b)[k] == a[k];
        } else {
          assert (a + b)[k] == b[k - |a|];
        }
      }
    }
  }

  // ---------------------------------------------------------------------------
  // Lemmas.
  // ---------------------------------------------------------------------------

  /** One expansion step: the reference at the head, then the rest. */
  lemma Unfold(matched: string, str: string, position: nat, captures: seq<string>, t: string, ref: Ref)
    requires position <= |str| && t != []
    requires ref == NextRef(matched, str, position, captures, t)
    ensures GetSubstitution(matched, str, position, captures, t)
         == ref.expansion + GetSubstitution(matched, str, position, captures, t[ref.length..])
  {
  }

  /** A character other than `$` is copied as it stands. */
  lemma PlainHead(matched: string, str: string, position: nat, captures: seq<string>, t: string)
    requires position <= |str| && t != [] && t[0] != '$'
    ensures GetSubstitution(matched, str, position, captures, t)
         == [t[0]] + GetSubstitution(matched, str, position, captures, t[1..])
  {
    Unfold(matched, str, position, captures, t, Ref(1, [t[0]]));
  }

  /** A `$`-free head of the template is copied and the rest expanded after it. */
  lemma {:induction false} LiteralPrefix(matched: string, str: string, position: nat, captures: seq<string>, a: string, b: string)
    requires position <= |str| && NoDollar(a)
    ensures GetSubstitution(matched, str, position, captures, a + b)
         == a + GetSubstitution(matched, str, position, captures, b)
    decreases |a|
  {
    if a == [] {
      assert a + b == b;
    } else {
      var rest := GetSubstitution(matched, str, position, captures, b);
      calc {
        GetSubstitution(matched, str, position, captures, a + b);
      == { HeadThenRest(matched, str, position, captures, a, b); }
        [a[0]] + GetSubstitution(matched, str, position, captures, a[1..] + b);
      == { LiteralPrefix(matched, str, position, captures, a[1..], b); }
        [a[0]] + (a[1..] + rest);
      == { assert a == [a[0]] + a[1..]; }
        a + rest;
      }
    }
  }

  /** The first character of a `$`-free head is copied, then the rest is expanded. */
  lemma HeadThenRest(matched: string, str: string, position: nat, captures: seq<string>, a: string, b: string)
    requires position <= |str| && a != [] && a[0] != '$'
    ensures GetSubstitution(matched, str, position, captures, a + b)
         == [a[0]] + GetSubstitution(matched, str, position, captures, a[1..] + b)
  {
    var t := a + b;
    assert t[0] == a[0];
    PlainHead(matched, str, position, captures, t);
    assert t[1..] == a[1..] + b;
  }

  /** `$$` stands for one `$`. */
  lemma DollarDollar(matched: string, str: string, position: nat, captures: seq<string>, b: string)
    requires position <= |str|
    ensures GetSubstitution(matched, str, position, captures, "$$" + b)
         == "$" + GetSubstitution(matched, str, position, captures, b)
  {
    var t := "$$" + b;
    assert t[0] == '$' && t[1] == '$' && t[2..] == b;
    Unfold(matched, str, position, captures, t, Ref(2, "$"));
  }

  /** `$&` stands for the matched text. */
  lemma DollarAmpersand(matched: string, str: string, position: nat, captures: seq<string>, b: string)
    requires position <= |str|
    ensures GetSubstitution(matched, str, position, captures, "$&" + b)
         == matched + GetSubstitution(matched, str, position, captures, b)
  {
    var t := "$&" + b;
    assert t[0] == '$' && t[1] == '&' && t[2..] == b;
    Unfold(matched, str, position, captures, t, Ref(2, matched));
  }

  /** `$&` between two `$`-free texts: the matched text goes in between them. */
  lemma AmpersandBetween(matched: string, str: string, position: nat, captures: seq<string>, a: string, b: string)
    requires position <= |str| && NoDollar(a) && NoDollar(b)
    ensures GetSubstitution(matched, str, position, captures, a + "$&" + b) == a + matched + b
  {
    assert a + "$&" + b == a + ("$&" + b);
    LiteralPrefix(matched, str, position, captures, a, "$&" + b);
    DollarAmpersand(matched, str, position, captures, b);
  }

  /** `` $` `` stands for the text before the match. */
  lemma DollarBacktick(matched: string, str: string, position: nat, captures: seq<string>, b: string)
    requires position <= |str|
    ensures GetSubstitution(matched, str, position, captures, "$`" + b)
         == str[..position] + GetSubstitution(matched, str, position, captures, b)
  {
    var t := "$`" + b;
    assert t[0] == '$' && t[1] == '`' && t[2..] == b;
    Unfold(matched, str, position, captures, t, Ref(2, str[..position]));
  }

  /** `$'` stands for the text after the match. */
  lemma DollarQuote(matched: string, str: string, position: nat, captures: seq<string>, b: string)
    requires position + |matched| <= |str|
    ensures GetSubstitution(matched, str, position, captures, "$'" + b)
         == str[position + |matched|..] + GetSubstitution(matched, str, position, captures, b)
  {
    var t := "$'" + b;
    var tailPos := position + |matched|;
    assert t[0] == '$' && t[1] == '\'' && t[2..] == b;
    if tailPos == |str| {
      assert str[tailPos..] == "";
    }
    Unfold(matched, str, position, captures, t, Ref(2, str[tailPos..]));
  }

  /**
    With one capture group, `$1` stands for the capture, whatever follows: a
    digit after it would make an index of 10 or more, which is read back as `$1`.
  */
  lemma DollarOne(matched: string, str: string, position: nat, capture: string, b: string)
    requires position <= |str|
    ensures GetSubstitution(matched, str, position, [capture], "$1" + b)
         == capture + GetSubstitution(matched, str, position, [capture], b)
  {
    var t := "$1" + b;
    assert t[0] == '$' && t[1] == '1' && t[2..] == b;
    Unfold(matched, str, position, [capture], t, Ref(2, capture));
  }

  /** `$0` is no capture index, so it stays literally (when no digit follows). */
  lemma DollarZero(matched: string, str: string, position: nat, capture: string, b: string)
    requires position <= |str|
    requires b == [] || !IsDigit(b[0])
    ensures GetSubstitution(matched, str, position, [capture], "$0" + b)
         == "$0" + GetSubstitution(matched, str, position, [capture], b)
  {
    var t := "$0" + b;
    assert t[0] == '$' && t[1] == '0' && t[2..] == b;
    assert t[..2] == "$0";
    Unfold(matched, str, position, [capture], t, Ref(2, "$0"));
  }

  /** Doubling every `$` makes the expansion the literal text, in any context. */
  lemma {:induction false} EscapeDollarsRoundTrip(matched: string, str: string, position: nat, captures: seq<string>, t: string)
    requires position <= |str|
    ensures GetSubstitution(matched, str, position, captures, EscapeDollars(t)) == t
    decreases |t|
  {
    if t != [] {
      var tail := EscapeDollars(t[1..]);
      var e := EscapeDollars(t);
      EscapeDollarsRoundTrip(matched, str, position, captures, t[1..]);
      if t[0] == '$' {
        assert e == "$$" + tail;
        assert e[0] == '$' && e[1] == '$';
        assert e[2..] == tail;
      } else {
        assert e == [t[0]] + tail;
        assert e[1..] == tail;
      }
      assert t == [t[0]] + t[1..];
    }
  }
}
