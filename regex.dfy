/** Regular expressions as closed trees, their canonical rendering, and the
    language each one denotes. */
module Regexes {

  /** A regular expression; every tree is well formed by construction. */
  datatype Regex =
    | Terminal(c: char)
    | Epsilon
    | Concatenation(left: Regex, right: Regex)
    | Alternative(left: Regex, right: Regex)
    | Optional(inner: Regex)
    | Star(inner: Regex)

  /** The distinguished character that renders the empty word (Greek small epsilon). */
  const EpsilonGlyph: char := '\U{03B5}'

  /** Canonical rendering: parenthesised concatenation, bare `|` for alternation,
      postfix `?` and `*`. */
  function ToString(r: Regex): (s: string)
    ensures |s| > 0
  {
    match r
    case Terminal(c) => [c]
    case Concatenation(a, b) => "(" + ToString(a) + ToString(b) + ")"
    case Alternative(a, b) => ToString(a) + "|" + ToString(b)
    case Epsilon => [EpsilonGlyph]
    case Optional(a) => ToString(a) + "?"
    case Star(a) => ToString(a) + "*"
  }

  /** The terminal characters of `r`, in left-to-right order of the tree. */
  function Terminals(r: Regex): seq<char>
  {
    match r
    case Terminal(c) => [c]
    case Epsilon => []
    case Concatenation(a, b) => Terminals(a) + Terminals(b)
    case Alternative(a, b) => Terminals(a) + Terminals(b)
    case Optional(a) => Terminals(a)
    case Star(a) => Terminals(a)
  }

  predicate IsLetter(c: char)
  {
    'a' <= c <= 'z'
  }

  /** Every terminal of `r` is one of the 26 lower-case letters. */
  predicate AllLetters(r: Regex)
  {
    forall k :: 0 <= k < |Terminals(r)| ==> IsLetter(Terminals(r)[k])
  }

  /** The letters of a string, in order, with every other character dropped. */
  function Letters(s: string): string
  {
    if s == [] then []
    else if IsLetter(s[|s| - 1]) then Letters(s[..|s| - 1]) + [s[|s| - 1]]
    else Letters(s[..|s| - 1])
  }

  lemma {:induction false} LettersAppend(s: string, t: string)
    ensures Letters(s + t) == Letters(s) + Letters(t)
    decreases |t|
  {
    if t == [] {
      assert s + t == s;
    } else {
      var t' := t[..|t| - 1];
      assert (s + t)[..|s + t| - 1] == s + t';
      LettersAppend(s, t');
    }
  }

  /** Appending a character that is not a letter leaves the letters unchanged. */
  lemma LettersDropsPunctuation(s: string, p: char)
    requires !IsLetter(p)
    ensures Letters(s + [p]) == Letters(s)
  {
    assert (s + [p])[..|s + [p]| - 1] == s;
  }

  /** The rendering lists the terminals of the tree in order: once the
      punctuation and the epsilon glyph are dropped, what remains is exactly
      the sequence of terminal characters. */
  lemma {:induction false} RenderingListsTerminals(r: Regex)
    requires AllLetters(r)
    ensures Letters(ToString(r)) == Terminals(r)
  {
    match r
    case Terminal(c) =>
      assert IsLetter(Terminals(r)[0]);
      assert [c][..0] == [];
    case Epsilon =>
      LettersDropsPunctuation([], EpsilonGlyph);
      assert [] + [EpsilonGlyph] == [EpsilonGlyph];
    case Concatenation(a, b) =>
      AllLettersParts(r);
      RenderingListsTerminals(a);
      RenderingListsTerminals(b);
      BracketedLetters(ToString(a), ToString(b));
    case Alternative(a, b) =>
      AllLettersParts(r);
      RenderingListsTerminals(a);
      RenderingListsTerminals(b);
      InfixLetters(ToString(a), '|', ToString(b));
    case Optional(a) =>
      assert Terminals(r) == Terminals(a);
      RenderingListsTerminals(a);
      LettersDropsPunctuation(ToString(a), '?');
    case Star(a) =>
      assert Terminals(r) == Terminals(a);
      RenderingListsTerminals(a);
      LettersDropsPunctuation(ToString(a), '*');
  }

  lemma BracketedLetters(s: string, t: string)
    ensures Letters("(" + s + t + ")") == Letters(s) + Letters(t)
  {
    var x := ['('] + s + t;
    assert "(" + s + t + ")" == x + [')'];
    assert Letters(x + [')']) == Letters(x) by {
      LettersDropsPunctuation(x, ')');
    }
    assert Letters(x) == Letters(['('] + s) + Letters(t) by {
      LettersAppend(['('] + s, t);
    }
    assert Letters(['('] + s) == Letters(['(']) + Letters(s) by {
      LettersAppend(['('], s);
    }
    assert Letters(['(']) == [] by {
      LettersDropsPunctuation([], '(');
      assert [] + ['('] == ['('];
    }
  }

  lemma InfixLetters(s: string, p: char, t: string)
    requires !IsLetter(p)
    ensures Letters(s + [p] + t) == Letters(s) + Letters(t)
  {
    LettersDropsPunctuation(s, p);
    LettersAppend(s + [p], t);
  }

  lemma AllLettersParts(r: Regex)
    requires r.Concatenation? || r.Alternative?
    requires AllLetters(r)
    ensures AllLetters(r.left) && AllLetters(r.right)
  {
    var ta, tb := Terminals(r.left), Terminals(r.right);
    assert Terminals(r) == ta + tb;
    forall k | 0 <= k < |ta| ensures IsLetter(ta[k]) {
      assert ta[k] == Terminals(r)[k];
    }
    forall k | 0 <= k < |tb| ensures IsLetter(tb[k]) {
      assert tb[k] == Terminals(r)[|ta| + k];
    }
  }

  /** Alternation renders without parentheses, so the two groupings of a
      three-way alternation render identically. */
  lemma AlternativeGroupingInvisible(x: Regex, y: Regex, z: Regex)
    ensures ToString(Alternative(Alternative(x, y), z)) == ToString(Alternative(x, Alternative(y, z)))
  {
  }

  /** The rendering is not injective: two distinct trees share one string. */
  lemma RenderingNotInjective()
    ensures exists x: Regex, y: Regex :: x != y && ToString(x) == ToString(y)
  {
    var a, b, c := Terminal('a'), Terminal('b'), Terminal('c');
    var x, y := Alternative(Alternative(a, b), c), Alternative(a, Alternative(b, c));
    AlternativeGroupingInvisible(a, b, c);
    assert x != y;
  }

  /** `Matches(r, u)`: the word `u` belongs to the language denoted by `r`. */
  ghost predicate Matches(r: Regex, u: seq<char>)
    decreases r, |u|
  {
    match r
    case Terminal(c) => u == [c]
    case Epsilon => u == []
    case Concatenation(a, b) =>
      exists k :: 0 <= k <= |u| && Matches(a, u[..k]) && Matches(b, u[k..])
    case Alternative(a, b) => Matches(a, u) || Matches(b, u)
    case Optional(a) => u == [] || Matches(a, u)
    case Star(a) =>
      u == [] || exists k :: 0 < k <= |u| && Matches(a, u[..k]) && Matches(Star(a), u[k..])
  }

  /** A word a regular expression matches is spelt with its terminals only. */
  lemma {:induction false} MatchedCharsAreTerminals(r: Regex, u: seq<char>)
    requires Matches(r, u)
    ensures forall k :: 0 <= k < |u| ==> u[k] in Terminals(r)
    decreases r, |u|
  {
    match r
    case Terminal(c) =>
    case Epsilon =>
    case Concatenation(a, b) =>
      var i :| 0 <= i <= |u| && Matches(a, u[..i]) && Matches(b, u[i..]);
      MatchedCharsAreTerminals(a, u[..i]);
      MatchedCharsAreTerminals(b, u[i..]);
      forall k | 0 <= k < |u| ensures u[k] in Terminals(r) {
        if k < i { assert u[k] == u[..i][k]; } else { assert u[k] == u[i..][k - i]; }
      }
    case Alternative(a, b) =>
      if Matches(a, u) { MatchedCharsAreTerminals(a, u); } else { MatchedCharsAreTerminals(b, u); }
    case Optional(a) =>
      if u != [] { MatchedCharsAreTerminals(a, u); }
    case Star(a) =>
      if u != [] {
        var i :| 0 < i <= |u| && Matches(a, u[..i]) && Matches(Star(a), u[i..]);
        MatchedCharsAreTerminals(a, u[..i]);
        MatchedCharsAreTerminals(r, u[i..]);
        forall k | 0 <= k < |u| ensures u[k] in Terminals(r) {
          if k < i { assert u[k] == u[..i][k]; } else { assert u[k] == u[i..][k - i]; }
        }
      }
  }
}
