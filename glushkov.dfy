/** Why the linearisation is right: the local language of `Linearize(r, 0)`,
    read through the table of terminal characters, is exactly the language
    of `r`. */
module Glushkov {
  import opened Regexes
  import opened LocalLanguages

  /** `w` is a word over the positions of `r` (numbered from `offset`)
      that the linearised expression matches: the language of `r` with
      every terminal occurrence replaced by its own position. */
  ghost predicate LinMatches(r: Regex, offset: nat, w: seq<nat>)
    decreases r, |w|
  {
    match r
    case Terminal(_) => w == [offset]
    case Epsilon => w == []
    case Concatenation(a, b) =>
      exists k :: 0 <= k <= |w| && LinMatches(a, offset, w[..k]) && LinMatches(b, offset + |Terminals(a)|, w[k..])
    case Alternative(a, b) => LinMatches(a, offset, w) || LinMatches(b, offset + |Terminals(a)|, w)
    case Optional(a) => w == [] || LinMatches(a, offset, w)
    case Star(a) =>
      w == [] || exists k :: 0 < k <= |w| && LinMatches(a, offset, w[..k]) && LinMatches(Star(a), offset, w[k..])
  }

  // ---------------------------------------------------------------------
  // Walking along a word whose adjacent pairs are factors.

  /** The index of the first position of `w` that is at least `mid`, or `|w|`. */
  function FirstAtLeast(w: seq<nat>, mid: nat): (k: nat)
    ensures k <= |w|
    ensures forall j :: 0 <= j < k ==> w[j] < mid
    ensures k < |w| ==> mid <= w[k]
  {
    if w == [] then 0
    else if mid <= w[0] then 0
    else 1 + FirstAtLeast(w[1..], mid)
  }

  /** The index of the first adjacent pair of `w` that is not in `f`, or `|w| - 1`. */
  function FirstBreak(w: seq<nat>, f: seq<(nat, nat)>): (k: nat)
    requires w != []
    ensures k < |w|
    ensures forall j :: 0 <= j < k ==> (w[j], w[j + 1]) in f
    ensures k < |w| - 1 ==> (w[k], w[k + 1]) !in f
  {
    if |w| == 1 then 0
    else if (w[0], w[1]) !in f then 0
    else 1 + FirstBreak(w[1..], f)
  }

  /** A walk that starts below `mid` along pairs that never leave the
      region below `mid` stays below `mid`. */
  lemma {:induction false} StaysBelow(w: seq<nat>, f: seq<(nat, nat)>, mid: nat)
    requires w != [] && w[0] < mid
    requires forall k :: 0 <= k < |w| - 1 ==> (w[k], w[k + 1]) in f
    requires forall p :: p in f && p.0 < mid ==> p.1 < mid
    ensures forall k :: 0 <= k < |w| ==> w[k] < mid
    decreases |w|
  {
    if |w| > 1 {
      var w' := w[..|w| - 1];
      forall k | 0 <= k < |w'| - 1 ensures (w'[k], w'[k + 1]) in f {
        assert (w[k], w[k + 1]) in f;
      }
      StaysBelow(w', f, mid);
      assert w[|w| - 2] == w'[|w'| - 1];
      assert (w[|w| - 2], w[|w| - 1]) in f;
    }
  }

  /** A walk that starts at or above `mid` along pairs that never leave the
      region from `mid` up stays there. */
  lemma {:induction false} StaysAtLeast(w: seq<nat>, f: seq<(nat, nat)>, mid: nat)
    requires w != [] && mid <= w[0]
    requires forall k :: 0 <= k < |w| - 1 ==> (w[k], w[k + 1]) in f
    requires forall p :: p in f && mid <= p.0 ==> mid <= p.1
    ensures forall k :: 0 <= k < |w| ==> mid <= w[k]
    decreases |w|
  {
    if |w| > 1 {
      var w' := w[..|w| - 1];
      forall k | 0 <= k < |w'| - 1 ensures (w'[k], w'[k + 1]) in f {
        assert (w[k], w[k + 1]) in f;
      }
      StaysAtLeast(w', f, mid);
      assert w[|w| - 2] == w'[|w'| - 1];
      assert (w[|w| - 2], w[|w| - 1]) in f;
    }
  }

  // ---------------------------------------------------------------------
  // The words of each combinator, one lemma per combinator.

  lemma FactorAt(s: Summary, w: seq<nat>, k: nat)
    requires LocalWord(s, w) && k + 1 < |w|
    ensures (w[k], w[k + 1]) in s.factors
  {
  }

  lemma LiteralWords(p: nat, w: seq<nat>)
    ensures LocalWord(Literal(p), w) <==> w == [p]
  {
    if LocalWord(Literal(p), w) && w != [] {
      if |w| > 1 {
        FactorAt(Literal(p), w, 0);
        assert false;
      }
      assert w == [w[0]];
    }
  }

  lemma EmptyWordWords(w: seq<nat>)
    ensures LocalWord(EmptyWord(), w) <==> w == []
  {
  }

  lemma OptWords(a: Summary, w: seq<nat>)
    ensures LocalWord(Opt(a), w) <==> w == [] || LocalWord(a, w)
  {
  }

  /** The words of an alternation of two summaries over disjoint position
      ranges are the words of either. */
  lemma EitherWords(a: Summary, b: Summary, lo: nat, mid: nat, hi: nat, w: seq<nat>)
    requires InRange(a, lo, mid) && InRange(b, mid, hi)
    ensures LocalWord(Union(a, b), w) <==> LocalWord(a, w) || LocalWord(b, w)
  {
    var e := Union(a, b);
    if LocalWord(e, w) && w != [] {
      if w[0] in a.prefixes {
        StaysBelow(w, e.factors, mid);
        forall k | 0 <= k < |w| - 1 ensures (w[k], w[k + 1]) in a.factors {
          assert (w[k], w[k + 1]) in e.factors;
        }
        assert w[|w| - 1] < mid;
        assert LocalWord(a, w);
      } else {
        assert w[0] in b.prefixes;
        StaysAtLeast(w, e.factors, mid);
        forall k | 0 <= k < |w| - 1 ensures (w[k], w[k + 1]) in b.factors {
          assert (w[k], w[k + 1]) in e.factors;
        }
        assert mid <= w[|w| - 1];
        assert LocalWord(b, w);
      }
    }
  }

  /** A word of `a` followed by a word of `b` is a word of `Concat(a, b)`. */
  lemma ConcatJoin(a: Summary, b: Summary, w1: seq<nat>, w2: seq<nat>)
    requires LocalWord(a, w1) && LocalWord(b, w2)
    ensures LocalWord(Concat(a, b), w1 + w2)
  {
    var c, w := Concat(a, b), w1 + w2;
    if w1 == [] {
      assert w == w2;
    } else if w2 == [] {
      assert w == w1;
    } else {
      ProductMembership(a.suffixes, b.prefixes);
      forall k | 0 <= k < |w| - 1 ensures (w[k], w[k + 1]) in c.factors {
        if k < |w1| - 1 {
          assert (w[k], w[k + 1]) == (w1[k], w1[k + 1]);
        } else if k == |w1| - 1 {
          assert (w[k], w[k + 1]) == (w1[|w1| - 1], w2[0]);
        } else {
          assert (w[k], w[k + 1]) == (w2[k - |w1|], w2[k - |w1| + 1]);
        }
      }
    }
  }

  /** Which part of the factors of `Concat(a, b)` a factor comes from is
      decided by where its two ends lie relative to `mid`. */
  lemma ConcatFactorsByRange(a: Summary, b: Summary, lo: nat, mid: nat, hi: nat)
    requires InRange(a, lo, mid) && InRange(b, mid, hi)
    ensures forall p :: p in Concat(a, b).factors && p.0 < mid && p.1 < mid ==> p in a.factors
    ensures forall p :: p in Concat(a, b).factors && p.0 < mid && mid <= p.1 ==>
      p.0 in a.suffixes && p.1 in b.prefixes
    ensures forall p :: p in Concat(a, b).factors && mid <= p.0 ==> p in b.factors
  {
    ProductMembership(a.suffixes, b.prefixes);
  }

  /** `w` holds positions below `mid` before index `k`, and from `mid` up from `k` on. */
  ghost predicate CutAt(w: seq<nat>, mid: nat, k: nat)
  {
    && k <= |w|
    && (forall j :: 0 <= j < k ==> w[j] < mid)
    && (forall j :: k <= j < |w| ==> mid <= w[j])
  }

  /** After its first position from `mid` up, a word of `Concat(a, b)` never
      comes back below `mid`. */
  lemma ConcatCut(a: Summary, b: Summary, lo: nat, mid: nat, hi: nat, w: seq<nat>) returns (k: nat)
    requires InRange(a, lo, mid) && InRange(b, mid, hi)
    requires w != [] && LocalWord(Concat(a, b), w)
    ensures CutAt(w, mid, k)
  {
    var c := Concat(a, b);
    ConcatFactorsByRange(a, b, lo, mid, hi);
    k := FirstAtLeast(w, mid);
    if k < |w| {
      var w2 := w[k..];
      forall j | 0 <= j < |w2| - 1 ensures (w2[j], w2[j + 1]) in c.factors {
        assert (w2[j], w2[j + 1]) == (w[k + j], w[k + j + 1]);
      }
      StaysAtLeast(w2, c.factors, mid);
      forall j | k <= j < |w| ensures mid <= w[j] {
        assert w[j] == w2[j - k];
      }
    }
  }

  lemma ConcatCutLeft(a: Summary, b: Summary, lo: nat, mid: nat, hi: nat, w: seq<nat>, k: nat)
    requires InRange(a, lo, mid) && InRange(b, mid, hi)
    requires w != [] && LocalWord(Concat(a, b), w) && CutAt(w, mid, k)
    ensures LocalWord(a, w[..k])
  {
    var c, w1 := Concat(a, b), w[..k];
    ConcatFactorsByRange(a, b, lo, mid, hi);
    if k == 0 {
      assert w[0] in c.prefixes;
    } else {
      forall j | 0 <= j < |w1| - 1 ensures (w1[j], w1[j + 1]) in a.factors {
        assert (w1[j], w1[j + 1]) == (w[j], w[j + 1]);
        assert (w[j], w[j + 1]) in c.factors;
      }
      assert w1[0] == w[0] && w[0] in c.prefixes;
      if k == |w| {
        assert w1[k - 1] == w[|w| - 1];
        assert w[|w| - 1] in c.suffixes;
      } else {
        assert (w[k - 1], w[k]) in c.factors;
      }
    }
  }

  lemma ConcatCutRight(a: Summary, b: Summary, lo: nat, mid: nat, hi: nat, w: seq<nat>, k: nat)
    requires InRange(a, lo, mid) && InRange(b, mid, hi)
    requires w != [] && LocalWord(Concat(a, b), w) && CutAt(w, mid, k)
    ensures LocalWord(b, w[k..])
  {
    var c, w2 := Concat(a, b), w[k..];
    ConcatFactorsByRange(a, b, lo, mid, hi);
    if k == |w| {
      assert w[|w| - 1] in c.suffixes;
    } else {
      if 0 < k {
        assert (w[k - 1], w[k]) in c.factors;
      } else {
        assert w[0] in c.prefixes;
      }
      assert w2[0] == w[k];
      assert w2[|w2| - 1] == w[|w| - 1] && w[|w| - 1] in c.suffixes;
      forall j | 0 <= j < |w2| - 1 ensures (w2[j], w2[j + 1]) in b.factors {
        assert (w2[j], w2[j + 1]) == (w[k + j], w[k + j + 1]);
        assert (w[k + j], w[k + j + 1]) in c.factors;
      }
    }
  }

  /** A word of `Concat(a, b)`, for summaries over disjoint ranges with `a`
      below `b`, splits into a word of `a` followed by a word of `b`. */
  lemma ConcatSplit(a: Summary, b: Summary, lo: nat, mid: nat, hi: nat, w: seq<nat>) returns (k: nat)
    requires InRange(a, lo, mid) && InRange(b, mid, hi)
    requires LocalWord(Concat(a, b), w)
    ensures k <= |w| && LocalWord(a, w[..k]) && LocalWord(b, w[k..])
  {
    if w == [] {
      return 0;
    }
    k := ConcatCut(a, b, lo, mid, hi, w);
    ConcatCutLeft(a, b, lo, mid, hi, w, k);
    ConcatCutRight(a, b, lo, mid, hi, w, k);
  }

  lemma ConcatJoinAt(a: Summary, b: Summary, w: seq<nat>, k: nat)
    requires k <= |w| && LocalWord(a, w[..k]) && LocalWord(b, w[k..])
    ensures LocalWord(Concat(a, b), w)
  {
    ConcatJoin(a, b, w[..k], w[k..]);
    assert w[..k] + w[k..] == w;
  }

  /** Concatenation of summaries over disjoint ranges, `a` below `b`: the
      words are exactly a word of `a` followed by a word of `b`. */
  lemma ConcatWords(a: Summary, b: Summary, lo: nat, mid: nat, hi: nat, w: seq<nat>)
    requires InRange(a, lo, mid) && InRange(b, mid, hi)
    ensures LocalWord(Concat(a, b), w) <==>
      exists k :: 0 <= k <= |w| && LocalWord(a, w[..k]) && LocalWord(b, w[k..])
  {
    if LocalWord(Concat(a, b), w) {
      var k := ConcatSplit(a, b, lo, mid, hi, w);
    }
    if exists k :: 0 <= k <= |w| && LocalWord(a, w[..k]) && LocalWord(b, w[k..]) {
      var k :| 0 <= k <= |w| && LocalWord(a, w[..k]) && LocalWord(b, w[k..]);
      ConcatJoinAt(a, b, w, k);
    }
  }

  /** A non-empty word of `a` followed by a word of `Kleene(a)` is a word of
      `Kleene(a)`. */
  lemma RepeatJoin(a: Summary, w1: seq<nat>, w2: seq<nat>)
    requires w1 != [] && LocalWord(a, w1) && LocalWord(Kleene(a), w2)
    ensures LocalWord(Kleene(a), w1 + w2)
  {
    var s, w := Kleene(a), w1 + w2;
    if w2 == [] {
      assert w == w1;
    } else {
      ProductMembership(a.suffixes, a.prefixes);
      forall k | 0 <= k < |w| - 1 ensures (w[k], w[k + 1]) in s.factors {
        if k < |w1| - 1 {
          assert (w[k], w[k + 1]) == (w1[k], w1[k + 1]);
        } else if k == |w1| - 1 {
          assert (w[k], w[k + 1]) == (w1[|w1| - 1], w2[0]);
        } else {
          assert (w[k], w[k + 1]) == (w2[k - |w1|], w2[k - |w1| + 1]);
        }
      }
    }
  }

  lemma RepeatJoinAt(a: Summary, w: seq<nat>, k: nat)
    requires 0 < k <= |w| && LocalWord(a, w[..k]) && LocalWord(Kleene(a), w[k..])
    ensures LocalWord(Kleene(a), w)
  {
    RepeatJoin(a, w[..k], w[k..]);
    assert w[..k] + w[k..] == w;
  }

  /** A non-empty word of `Kleene(a)` splits into a non-empty word of `a`
      followed by a shorter word of `Kleene(a)`: it is cut at the first
      adjacent pair that is not a factor of `a`. */
  lemma RepeatSplit(a: Summary, w: seq<nat>) returns (k: nat)
    requires w != [] && LocalWord(Kleene(a), w)
    ensures 0 < k <= |w| && LocalWord(a, w[..k]) && LocalWord(Kleene(a), w[k..])
  {
    var s := Kleene(a);
    ProductMembership(a.suffixes, a.prefixes);
    var b := FirstBreak(w, a.factors);
    k := b + 1;
    var w1, w2 := w[..k], w[k..];
    forall j | 0 <= j < |w1| - 1 ensures (w1[j], w1[j + 1]) in a.factors {
      assert (w1[j], w1[j + 1]) == (w[j], w[j + 1]);
    }
    if k < |w| {
      assert (w[b], w[b + 1]) in s.factors;
      assert w1[|w1| - 1] == w[b];
      assert w2[0] == w[b + 1];
      forall j | 0 <= j < |w2| - 1 ensures (w2[j], w2[j + 1]) in s.factors {
        assert (w2[j], w2[j + 1]) == (w[k + j], w[k + j + 1]);
      }
      assert w2[|w2| - 1] == w[|w| - 1];
    } else {
      assert w1 == w;
    }
  }

  /** The words of `Kleene(a)`: the empty word, or a non-empty word of `a`
      followed by a word of `Kleene(a)`. */
  lemma RepeatWords(a: Summary, w: seq<nat>)
    ensures LocalWord(Kleene(a), w) <==>
      w == [] || exists k :: 0 < k <= |w| && LocalWord(a, w[..k]) && LocalWord(Kleene(a), w[k..])
  {
    if w != [] && LocalWord(Kleene(a), w) {
      var k := RepeatSplit(a, w);
    }
    if w != [] && exists k :: 0 < k <= |w| && LocalWord(a, w[..k]) && LocalWord(Kleene(a), w[k..]) {
      var k :| 0 < k <= |w| && LocalWord(a, w[..k]) && LocalWord(Kleene(a), w[k..]);
      RepeatJoinAt(a, w, k);
    }
  }

  // ---------------------------------------------------------------------
  // The local language of the linearisation is the linearised language.

  /** Glushkov's theorem at the level of positions: the words of
      `Linearize(r, offset)` are exactly the words of the linearised `r`. */
  lemma {:induction false} LinearizeWords(r: Regex, offset: nat, w: seq<nat>)
    ensures LocalWord(Linearize(r, offset), w) <==> LinMatches(r, offset, w)
    decreases r, |w|, 1
  {
    match r
    case Terminal(_) =>
      LiteralWords(offset, w);
    case Epsilon =>
      EmptyWordWords(w);
    case Concatenation(a, b) =>
      LinearizeWordsConcat(r, offset, w);
    case Alternative(a, b) =>
      LinearizeWordsAlt(r, offset, w);
    case Optional(a) =>
      assert Linearize(r, offset) == Opt(Linearize(a, offset));
      OptWords(Linearize(a, offset), w);
      LinearizeWords(a, offset, w);
    case Star(a) =>
      LinearizeWordsStar(r, offset, w);
  }

  lemma {:induction false} LinearizeWordsAlt(r: Regex, offset: nat, w: seq<nat>)
    requires r.Alternative?
    ensures LocalWord(Linearize(r, offset), w) <==> LinMatches(r, offset, w)
    decreases r, |w|, 0
  {
    var a, b := r.left, r.right;
    var mid := offset + |Terminals(a)|;
    var la, lb := Linearize(a, offset), Linearize(b, mid);
    assert Linearize(r, offset) == Union(la, lb);
    LinearizeInRange(a, offset);
    LinearizeInRange(b, mid);
    EitherWords(la, lb, offset, mid, mid + |Terminals(b)|, w);
    LinearizeWords(a, offset, w);
    LinearizeWords(b, mid, w);
  }

  lemma {:induction false} LinearizeWordsConcat(r: Regex, offset: nat, w: seq<nat>)
    requires r.Concatenation?
    ensures LocalWord(Linearize(r, offset), w) <==> LinMatches(r, offset, w)
    decreases r, |w|, 0
  {
    var a, b := r.left, r.right;
    var mid := offset + |Terminals(a)|;
    var la, lb := Linearize(a, offset), Linearize(b, mid);
    assert Linearize(r, offset) == Concat(la, lb);
    LinearizeInRange(a, offset);
    LinearizeInRange(b, mid);
    if LocalWord(Concat(la, lb), w) {
      var k := ConcatSplit(la, lb, offset, mid, mid + |Terminals(b)|, w);
      LinearizeWords(a, offset, w[..k]);
      LinearizeWords(b, mid, w[k..]);
    }
    if LinMatches(r, offset, w) {
      var k :| 0 <= k <= |w| && LinMatches(a, offset, w[..k]) && LinMatches(b, mid, w[k..]);
      LinearizeWords(a, offset, w[..k]);
      LinearizeWords(b, mid, w[k..]);
      ConcatJoinAt(la, lb, w, k);
    }
  }

  lemma {:induction false} LinearizeWordsStar(r: Regex, offset: nat, w: seq<nat>)
    requires r.Star?
    ensures LocalWord(Linearize(r, offset), w) <==> LinMatches(r, offset, w)
    decreases r, |w|, 0
  {
    var a := r.inner;
    var la := Linearize(a, offset);
    assert Linearize(r, offset) == Kleene(la);
    if w != [] && LocalWord(Kleene(la), w) {
      var k := RepeatSplit(la, w);
      LinearizeWords(a, offset, w[..k]);
      LinearizeWords(r, offset, w[k..]);
    }
    if w != [] && LinMatches(r, offset, w) {
      var k :| 0 < k <= |w| && LinMatches(a, offset, w[..k]) && LinMatches(r, offset, w[k..]);
      LinearizeWords(a, offset, w[..k]);
      LinearizeWords(r, offset, w[k..]);
      RepeatJoinAt(la, w, k);
    }
  }

  // ---------------------------------------------------------------------
  // Reading positions back as characters.

  /** The positions of `w`, read through the table `chars`, spell `u`. */
  ghost predicate SpellsAs(chars: seq<char>, w: seq<nat>, u: seq<char>)
  {
    |w| == |u| && forall k :: 0 <= k < |w| ==> w[k] < |chars| && chars[w[k]] == u[k]
  }

  /** `chars` holds the terminals of `r` from index `offset` on. */
  ghost predicate TableAt(chars: seq<char>, offset: nat, r: Regex)
  {
    offset + |Terminals(r)| <= |chars|
    && forall k :: 0 <= k < |Terminals(r)| ==> chars[offset + k] == Terminals(r)[k]
  }

  lemma TableAtParts(chars: seq<char>, offset: nat, r: Regex)
    requires TableAt(chars, offset, r)
    ensures (r.Concatenation? || r.Alternative?) ==>
      TableAt(chars, offset, r.left) && TableAt(chars, offset + |Terminals(r.left)|, r.right)
    ensures (r.Optional? || r.Star?) ==> TableAt(chars, offset, r.inner)
  {
    if r.Concatenation? || r.Alternative? {
      var ta, tb := Terminals(r.left), Terminals(r.right);
      assert Terminals(r) == ta + tb;
      forall k | 0 <= k < |ta| ensures chars[offset + k] == ta[k] {
        assert ta[k] == Terminals(r)[k];
      }
      forall k | 0 <= k < |tb| ensures chars[offset + |ta| + k] == tb[k] {
        assert tb[k] == Terminals(r)[|ta| + k];
      }
    }
  }

  lemma SpellsAsJoin(chars: seq<char>, w1: seq<nat>, w2: seq<nat>, u: seq<char>, i: nat)
    requires i <= |u| && SpellsAs(chars, w1, u[..i]) && SpellsAs(chars, w2, u[i..])
    ensures SpellsAs(chars, w1 + w2, u)
  {
    var w := w1 + w2;
    forall k | 0 <= k < |w| ensures w[k] < |chars| && chars[w[k]] == u[k] {
      if k < |w1| {
        assert w[k] == w1[k] && u[k] == u[..i][k];
      } else {
        assert w[k] == w2[k - |w1|] && u[k] == u[i..][k - |w1|];
      }
    }
  }

  lemma SpellsAsSplit(chars: seq<char>, w: seq<nat>, u: seq<char>, k: nat)
    requires SpellsAs(chars, w, u) && k <= |w|
    ensures SpellsAs(chars, w[..k], u[..k]) && SpellsAs(chars, w[k..], u[k..])
  {
    forall j | 0 <= j < |w| - k ensures w[k..][j] < |chars| && chars[w[k..][j]] == u[k..][j] {
      assert w[k..][j] == w[k + j] && u[k..][j] == u[k + j];
    }
  }

  /** Every word of `r` is spelt by a word of the linearised `r`. */
  lemma {:induction false} MatchesToPositions(r: Regex, offset: nat, chars: seq<char>, u: seq<char>)
    returns (w: seq<nat>)
    requires TableAt(chars, offset, r) && Matches(r, u)
    ensures LinMatches(r, offset, w) && SpellsAs(chars, w, u)
    decreases r, |u|, 1
  {
    TableAtParts(chars, offset, r);
    match r
    case Terminal(c) =>
      w := [offset];
      assert chars[offset + 0] == Terminals(r)[0];
    case Epsilon =>
      w := [];
    case Concatenation(a, b) =>
      w := ConcatToPositions(r, offset, chars, u);
    case Alternative(a, b) =>
      if Matches(a, u) {
        w := MatchesToPositions(a, offset, chars, u);
      } else {
        w := MatchesToPositions(b, offset + |Terminals(a)|, chars, u);
      }
    case Optional(a) =>
      if u == [] {
        w := [];
      } else {
        w := MatchesToPositions(a, offset, chars, u);
      }
    case Star(a) =>
      if u == [] {
        w := [];
      } else {
        w := StarToPositions(r, offset, chars, u);
      }
  }

  /** The concatenation case: the two halves of the word are spelt
      separately and the position words concatenated. */
  lemma {:induction false} ConcatToPositions(r: Regex, offset: nat, chars: seq<char>, u: seq<char>)
    returns (w: seq<nat>)
    requires r.Concatenation? && TableAt(chars, offset, r) && Matches(r, u)
    ensures LinMatches(r, offset, w) && SpellsAs(chars, w, u)
    decreases r, |u|, 0
  {
    TableAtParts(chars, offset, r);
    var i :| 0 <= i <= |u| && Matches(r.left, u[..i]) && Matches(r.right, u[i..]);
    var w1 := MatchesToPositions(r.left, offset, chars, u[..i]);
    var w2 := MatchesToPositions(r.right, offset + |Terminals(r.left)|, chars, u[i..]);
    w := w1 + w2;
    LinMatchesConcat(r, offset, w1, w2);
    SpellsAsJoin(chars, w1, w2, u, i);
  }

  /** The star case, for a non-empty word: a non-empty first iteration,
      then the rest of the word under the same star. */
  lemma {:induction false} StarToPositions(r: Regex, offset: nat, chars: seq<char>, u: seq<char>)
    returns (w: seq<nat>)
    requires r.Star? && u != [] && TableAt(chars, offset, r) && Matches(r, u)
    ensures LinMatches(r, offset, w) && SpellsAs(chars, w, u)
    decreases r, |u|, 0
  {
    TableAtParts(chars, offset, r);
    var i :| 0 < i <= |u| && Matches(r.inner, u[..i]) && Matches(r, u[i..]);
    var w1 := MatchesToPositions(r.inner, offset, chars, u[..i]);
    var w2 := MatchesToPositions(r, offset, chars, u[i..]);
    w := w1 + w2;
    LinMatchesStar(r, offset, w1, w2);
    SpellsAsJoin(chars, w1, w2, u, i);
  }

  lemma LinMatchesConcat(r: Regex, offset: nat, w1: seq<nat>, w2: seq<nat>)
    requires r.Concatenation?
    requires LinMatches(r.left, offset, w1) && LinMatches(r.right, offset + |Terminals(r.left)|, w2)
    ensures LinMatches(r, offset, w1 + w2)
  {
    var w := w1 + w2;
    assert w[..|w1|] == w1 && w[|w1|..] == w2;
  }

  lemma LinMatchesStar(r: Regex, offset: nat, w1: seq<nat>, w2: seq<nat>)
    requires r.Star? && w1 != []
    requires LinMatches(r.inner, offset, w1) && LinMatches(r, offset, w2)
    ensures LinMatches(r, offset, w1 + w2)
  {
    var w := w1 + w2;
    assert w[..|w1|] == w1 && w[|w1|..] == w2;
  }

  /** Every word of the linearised `r` spells a word of `r`. */
  lemma {:induction false} PositionsToMatches(r: Regex, offset: nat, chars: seq<char>, u: seq<char>, w: seq<nat>)
    requires TableAt(chars, offset, r) && LinMatches(r, offset, w) && SpellsAs(chars, w, u)
    ensures Matches(r, u)
    decreases r, |u|
  {
    TableAtParts(chars, offset, r);
    match r
    case Terminal(c) =>
      assert chars[offset + 0] == Terminals(r)[0];
      assert u == [c];
    case Epsilon =>
    case Concatenation(a, b) =>
      var k :| 0 <= k <= |w| && LinMatches(a, offset, w[..k]) && LinMatches(b, offset + |Terminals(a)|, w[k..]);
      SpellsAsSplit(chars, w, u, k);
      PositionsToMatches(a, offset, chars, u[..k], w[..k]);
      PositionsToMatches(b, offset + |Terminals(a)|, chars, u[k..], w[k..]);
    case Alternative(a, b) =>
      if LinMatches(a, offset, w) {
        PositionsToMatches(a, offset, chars, u, w);
      } else {
        PositionsToMatches(b, offset + |Terminals(a)|, chars, u, w);
      }
    case Optional(a) =>
      if w != [] {
        PositionsToMatches(a, offset, chars, u, w);
      }
    case Star(a) =>
      if w != [] {
        var k :| 0 < k <= |w| && LinMatches(a, offset, w[..k]) && LinMatches(Star(a), offset, w[k..]);
        SpellsAsSplit(chars, w, u, k);
        PositionsToMatches(a, offset, chars, u[..k], w[..k]);
        PositionsToMatches(r, offset, chars, u[k..], w[k..]);
      }
  }

  /** Glushkov's theorem: `r` matches `u` exactly when some word of the
      local language `Linearize(r, 0)` spells `u` through the terminal table. */
  lemma LinearizationCorrect(r: Regex, u: seq<char>)
    ensures Matches(r, u) <==>
      exists w :: LocalWord(Linearize(r, 0), w) && SpellsAs(Terminals(r), w, u)
  {
    var chars := Terminals(r);
    assert TableAt(chars, 0, r);
    if Matches(r, u) {
      var w := MatchesToPositions(r, 0, chars, u);
      LinearizeWords(r, 0, w);
    }
    if exists w :: LocalWord(Linearize(r, 0), w) && SpellsAs(chars, w, u) {
      var w :| LocalWord(Linearize(r, 0), w) && SpellsAs(chars, w, u);
      LinearizeWords(r, 0, w);
      PositionsToMatches(r, 0, chars, u, w);
    }
  }
}
