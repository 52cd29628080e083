/** Glushkov linearisation: every terminal occurrence of a regular expression
    gets its own position, and the expression is summarised by the positions
    that may start a word, those that may end one, the pairs of positions
    that may be adjacent, and whether the empty word is accepted. */
module LocalLanguages {
  import opened Regexes

  /** The value held by a `LocalLanguage` object. The three position lists are
      lists, not sets: the combinators append, so a position or a pair may be
      listed more than once. */
  datatype Summary = Summary(
    acceptEmpty: bool,
    prefixes: seq<nat>,
    suffixes: seq<nat>,
    factors: seq<(nat, nat)>)

  /** The pairs `(a, b)` for every `b` of `l`, in the order of `l`. */
  function Row(a: nat, l: seq<nat>): seq<(nat, nat)>
  {
    if l == [] then [] else Row(a, l[..|l| - 1]) + [(a, l[|l| - 1])]
  }

  /** Every pair of an element of `l1` with an element of `l2`, `l1`-major. */
  function Product(l1: seq<nat>, l2: seq<nat>): seq<(nat, nat)>
  {
    if l1 == [] then [] else Product(l1[..|l1| - 1], l2) + Row(l1[|l1| - 1], l2)
  }

  lemma {:induction false} RowAt(a: nat, l: seq<nat>)
    ensures |Row(a, l)| == |l|
    ensures forall j :: 0 <= j < |l| ==> Row(a, l)[j] == (a, l[j])
    decreases |l|
  {
    if l != [] {
      RowAt(a, l[..|l| - 1]);
    }
  }

  /** `Product(l1, l2)` holds `|l1| * |l2|` pairs, the pair of `l1[i]` and
      `l2[j]` at index `i * |l2| + j`. */
  lemma ProductAt(l1: seq<nat>, l2: seq<nat>)
    ensures |Product(l1, l2)| == |l1| * |l2|
    ensures forall i, j :: 0 <= i < |l1| && 0 <= j < |l2| ==>
      i * |l2| + j < |Product(l1, l2)| && Product(l1, l2)[i * |l2| + j] == (l1[i], l2[j])
  {
    ProductLength(l1, l2);
    forall i, j | 0 <= i < |l1| && 0 <= j < |l2|
      ensures i * |l2| + j < |Product(l1, l2)| && Product(l1, l2)[i * |l2| + j] == (l1[i], l2[j])
    {
      ProductIndex(l1, l2, i, j);
    }
  }

  lemma {:induction false} ProductLength(l1: seq<nat>, l2: seq<nat>)
    ensures |Product(l1, l2)| == |l1| * |l2|
    decreases |l1|
  {
    if l1 != [] {
      var init := l1[..|l1| - 1];
      ProductLength(init, l2);
      RowAt(l1[|l1| - 1], l2);
      MulSucc(|init|, |l2|);
    }
  }

  lemma {:induction false} ProductIndex(l1: seq<nat>, l2: seq<nat>, i: nat, j: nat)
    requires i < |l1| && j < |l2|
    ensures i * |l2| + j < |Product(l1, l2)|
    ensures Product(l1, l2)[i * |l2| + j] == (l1[i], l2[j])
    decreases |l1|
  {
    if i < |l1| - 1 {
      ProductIndex(l1[..|l1| - 1], l2, i, j);
      ProductKeepsHead(l1, l2, i * |l2| + j);
    } else {
      ProductLastRow(l1, l2, j);
    }
  }

  /** Appending the last element of `l1` keeps the earlier pairs in place. */
  lemma ProductKeepsHead(l1: seq<nat>, l2: seq<nat>, k: nat)
    requires l1 != [] && k < |Product(l1[..|l1| - 1], l2)|
    ensures k < |Product(l1, l2)|
    ensures Product(l1, l2)[k] == Product(l1[..|l1| - 1], l2)[k]
  {
  }

  /** The row of the last element of `l1` comes last. */
  lemma ProductLastRow(l1: seq<nat>, l2: seq<nat>, j: nat)
    requires l1 != [] && j < |l2|
    ensures (|l1| - 1) * |l2| + j < |Product(l1, l2)|
    ensures Product(l1, l2)[(|l1| - 1) * |l2| + j] == (l1[|l1| - 1], l2[j])
  {
    ProductLength(l1[..|l1| - 1], l2);
    RowAt(l1[|l1| - 1], l2);
  }

  lemma MulSucc(a: nat, n: nat)
    ensures (a + 1) * n == a * n + n
  {
  }

  /** A pair is in `Product(l1, l2)` exactly when its first component is in
      `l1` and its second in `l2`. */
  lemma {:induction false} ProductMembership(l1: seq<nat>, l2: seq<nat>)
    ensures forall p :: p in Product(l1, l2) <==> p.0 in l1 && p.1 in l2
    decreases |l1|
  {
    if l1 != [] {
      var init, last := l1[..|l1| - 1], l1[|l1| - 1];
      ProductMembership(init, l2);
      RowAt(last, l2);
      assert l1 == init + [last];
      forall p ensures p in Row(last, l2) <==> p.0 == last && p.1 in l2 {
        if p.0 == last && p.1 in l2 {
          var j :| 0 <= j < |l2| && l2[j] == p.1;
          assert Row(last, l2)[j] == p;
        }
      }
    }
  }

  /** Pushes every pair of `l1 × l2`, `l1`-major, as two nested loops. */
  method CartesianProduct(l1: seq<nat>, l2: seq<nat>) returns (res: seq<(nat, nat)>)
    ensures res == Product(l1, l2)
  {
    res := [];
    for i := 0 to |l1|
      invariant res == Product(l1[..i], l2)
    {
      for j := 0 to |l2|
        invariant res == Product(l1[..i], l2) + Row(l1[i], l2[..j])
      {
        assert l2[..j + 1][..j] == l2[..j];
        res := res + [(l1[i], l2[j])];
      }
      assert l2[..|l2|] == l2;
      assert l1[..i + 1][..i] == l1[..i];
    }
    assert l1[..|l1|] == l1;
  }

  /** The one-letter word at position `p`. */
  function Literal(p: nat): Summary
  {
    Summary(false, [p], [p], [])
  }

  /** Only the empty word. */
  function EmptyWord(): Summary
  {
    Summary(true, [], [], [])
  }

  /** `a` followed by `b`; the positions of the two must be disjoint. */
  function Concat(a: Summary, b: Summary): Summary
  {
    Summary(
      a.acceptEmpty && b.acceptEmpty,
      if a.acceptEmpty then a.prefixes + b.prefixes else a.prefixes,
      if b.acceptEmpty then a.suffixes + b.suffixes else b.suffixes,
      a.factors + Product(a.suffixes, b.prefixes) + b.factors)
  }

  /** `a` or `b`; the positions of the two must be disjoint. */
  function Union(a: Summary, b: Summary): Summary
  {
    Summary(
      a.acceptEmpty || b.acceptEmpty,
      a.prefixes + b.prefixes,
      a.suffixes + b.suffixes,
      a.factors + b.factors)
  }

  /** `a` or the empty word. */
  function Opt(a: Summary): Summary
  {
    a.(acceptEmpty := true)
  }

  /** The Kleene star of `a`. */
  function Kleene(a: Summary): Summary
  {
    a.(acceptEmpty := true, factors := a.factors + Product(a.suffixes, a.prefixes))
  }

  /** The summary of `r` when its first terminal gets position `offset`:
      the terminals are numbered left to right from `offset` on. */
  function Linearize(r: Regex, offset: nat): Summary
  {
    match r
    case Terminal(_) => Literal(offset)
    case Epsilon => EmptyWord()
    case Concatenation(a, b) => Concat(Linearize(a, offset), Linearize(b, offset + |Terminals(a)|))
    case Alternative(a, b) => Union(Linearize(a, offset), Linearize(b, offset + |Terminals(a)|))
    case Optional(a) => Opt(Linearize(a, offset))
    case Star(a) => Kleene(Linearize(a, offset))
  }

  /** A local language: the words it accepts are those made of allowed
      adjacent pairs, starting with a prefix and ending with a suffix (or
      the empty word, when it is accepted). */
  ghost predicate LocalWord(s: Summary, w: seq<nat>)
  {
    if w == [] then s.acceptEmpty
    else
      && w[0] in s.prefixes
      && w[|w| - 1] in s.suffixes
      && forall k :: 0 <= k < |w| - 1 ==> (w[k], w[k + 1]) in s.factors
  }

  /** Every position that `s` mentions lies in `[lo, hi)`. */
  ghost predicate InRange(s: Summary, lo: nat, hi: nat)
  {
    && (forall p :: p in s.prefixes ==> lo <= p < hi)
    && (forall p :: p in s.suffixes ==> lo <= p < hi)
    && (forall f :: f in s.factors ==> lo <= f.0 < hi && lo <= f.1 < hi)
  }

  lemma InRangeWiden(s: Summary, lo: nat, hi: nat, lo': nat, hi': nat)
    requires InRange(s, lo, hi) && lo' <= lo && hi <= hi'
    ensures InRange(s, lo', hi')
  {
  }

  /** The positions `Linearize(r, offset)` mentions are exactly numbered
      from `offset` up to `offset + |Terminals(r)|`, exclusive; so the left
      operand of a concatenation or an alternation uses only positions
      below those of the right operand, and the two are disjoint. */
  lemma {:induction false} LinearizeInRange(r: Regex, offset: nat)
    ensures InRange(Linearize(r, offset), offset, offset + |Terminals(r)|)
    decreases r, 1
  {
    match r
    case Terminal(_) =>
    case Epsilon =>
    case Concatenation(a, b) =>
      ConcatInRange(a, b, offset);
    case Alternative(a, b) =>
      EitherInRange(a, b, offset);
    case Optional(a) =>
      LinearizeInRange(a, offset);
      assert Linearize(r, offset) == Opt(Linearize(a, offset));
    case Star(a) =>
      RepeatInRange(a, offset);
  }

  lemma {:induction false} ConcatInRange(a: Regex, b: Regex, offset: nat)
    ensures InRange(Linearize(Concatenation(a, b), offset), offset,
                    offset + |Terminals(Concatenation(a, b))|)
    decreases Concatenation(a, b), 0
  {
    var mid := offset + |Terminals(a)|;
    LinearizeInRange(a, offset);
    LinearizeInRange(b, mid);
    var la, lb := Linearize(a, offset), Linearize(b, mid);
    ConcatSummaryInRange(la, lb, offset, mid, mid + |Terminals(b)|);
    assert Linearize(Concatenation(a, b), offset) == Concat(la, lb);
    assert |Terminals(Concatenation(a, b))| == |Terminals(a)| + |Terminals(b)|;
  }

  /** A concatenation uses the positions of its two operands. */
  lemma ConcatSummaryInRange(la: Summary, lb: Summary, lo: nat, mid: nat, hi: nat)
    requires lo <= mid <= hi && InRange(la, lo, mid) && InRange(lb, mid, hi)
    ensures InRange(Concat(la, lb), lo, hi)
  {
    ProductMembership(la.suffixes, lb.prefixes);
    InRangeWiden(la, lo, mid, lo, hi);
    InRangeWiden(lb, mid, hi, lo, hi);
  }

  lemma {:induction false} EitherInRange(a: Regex, b: Regex, offset: nat)
    ensures InRange(Linearize(Alternative(a, b), offset), offset,
                    offset + |Terminals(Alternative(a, b))|)
    decreases Alternative(a, b), 0
  {
    var mid := offset + |Terminals(a)|;
    LinearizeInRange(a, offset);
    LinearizeInRange(b, mid);
    var la, lb := Linearize(a, offset), Linearize(b, mid);
    UnionSummaryInRange(la, lb, offset, mid, mid + |Terminals(b)|);
    assert Linearize(Alternative(a, b), offset) == Union(la, lb);
    assert |Terminals(Alternative(a, b))| == |Terminals(a)| + |Terminals(b)|;
  }

  /** An alternation uses the positions of its two operands. */
  lemma UnionSummaryInRange(la: Summary, lb: Summary, lo: nat, mid: nat, hi: nat)
    requires lo <= mid <= hi && InRange(la, lo, mid) && InRange(lb, mid, hi)
    ensures InRange(Union(la, lb), lo, hi)
  {
    InRangeWiden(la, lo, mid, lo, hi);
    InRangeWiden(lb, mid, hi, lo, hi);
  }

  lemma {:induction false} RepeatInRange(a: Regex, offset: nat)
    ensures InRange(Linearize(Star(a), offset), offset, offset + |Terminals(Star(a))|)
    decreases Star(a), 0
  {
    LinearizeInRange(a, offset);
    var la := Linearize(a, offset);
    ProductMembership(la.suffixes, la.prefixes);
    assert Linearize(Star(a), offset) == Kleene(la);
  }

  /** The set of positions a summary mentions. */
  ghost function Positions(s: Summary): set<nat>
  {
    (set p | p in s.prefixes) + (set p | p in s.suffixes)
      + (set f | f in s.factors :: f.0) + (set f | f in s.factors :: f.1)
  }

  /** The disjointness the two binary combinators rely on: every position of
      the left operand of a concatenation or an alternation is smaller than
      every position of its right operand. */
  lemma OperandsOrdered(r: Regex, offset: nat, mid: nat)
    requires r.Concatenation? || r.Alternative?
    requires mid == offset + |Terminals(r.left)|
    ensures forall p :: p in Positions(Linearize(r.left, offset)) ==> p < mid
    ensures forall q :: q in Positions(Linearize(r.right, mid)) ==> mid <= q
  {
    LinearizeInRange(r.left, offset);
    LinearizeInRange(r.right, mid);
  }

  /** The mutable summary the linearisation builds. */
  class LocalLanguage {
    var acceptEmpty: bool
    var prefixes: seq<nat>
    var suffixes: seq<nat>
    var factors: seq<(nat, nat)>

    function Value(): Summary
      reads this
    {
      Summary(acceptEmpty, prefixes, suffixes, factors)
    }

    /** Only the one-letter word at position `l`. */
    constructor FromLiteral(l: nat)
      ensures !acceptEmpty && prefixes == [l] && suffixes == [l] && factors == []
    {
      acceptEmpty := false;
      prefixes := [l];
      suffixes := [l];
      factors := [];
    }

    /** Only the empty word. */
    constructor Empty()
      ensures acceptEmpty && prefixes == [] && suffixes == [] && factors == []
    {
      acceptEmpty := true;
      prefixes := [];
      suffixes := [];
      factors := [];
    }

    /** Absorbs `other`, which is consumed, as the language that follows
        this one. */
    method Concatenation(other: Summary)
      modifies this
      ensures Value() == Concat(old(Value()), other)
    {
      var bridge := CartesianProduct(suffixes, other.prefixes);
      factors := factors + bridge;
      factors := factors + other.factors;
      if other.acceptEmpty {
        suffixes := suffixes + other.suffixes;
      } else {
        suffixes := other.suffixes;
      }
      if acceptEmpty {
        prefixes := prefixes + other.prefixes;
      }
      acceptEmpty := acceptEmpty && other.acceptEmpty;
    }

    /** Absorbs `other`, which is consumed, as an alternative to this
        language. */
    method Either(other: Summary)
      modifies this
      ensures Value() == Union(old(Value()), other)
    {
      acceptEmpty := acceptEmpty || other.acceptEmpty;
      prefixes := prefixes + other.prefixes;
      suffixes := suffixes + other.suffixes;
      factors := factors + other.factors;
    }

    /** Adds the empty word; nothing else changes. */
    method Optional()
      modifies this
      ensures Value() == Opt(old(Value()))
    {
      acceptEmpty := true;
    }

    /** Kleene star: every suffix may now be followed by every prefix. */
    method Repeat()
      modifies this
      ensures Value() == Kleene(old(Value()))
    {
      acceptEmpty := true;
      var loops := CartesianProduct(suffixes, prefixes);
      factors := factors + loops;
    }
  }

  /** Linearises `r`, numbering its terminals from `|chars|` on and pushing
      each terminal's character onto `chars`. */
  method FromRegexRec(r: Regex, chars: seq<char>) returns (ll: LocalLanguage, chars': seq<char>)
    ensures fresh(ll)
    ensures chars' == chars + Terminals(r)
    ensures ll.Value() == Linearize(r, |chars|)
    decreases r, 1
  {
    if r.Terminal? {
      var idx := |chars|;
      chars' := chars + [r.c];
      ll := new LocalLanguage.FromLiteral(idx);
    } else if r.Epsilon? {
      chars' := chars;
      ll := new LocalLanguage.Empty();
    } else if r.Concatenation? {
      ll, chars' := FromConcatenation(r.left, r.right, chars);
    } else if r.Alternative? {
      ll, chars' := FromAlternative(r.left, r.right, chars);
    } else if r.Optional? {
      ll, chars' := FromRegexRec(r.inner, chars);
      ll.Optional();
    } else {
      ll, chars' := FromRegexRec(r.inner, chars);
      ll.Repeat();
    }
  }

  /** The concatenation case of `FromRegexRec`: the left operand is
      linearised first, then the right one, and the right language is
      appended to the left one. */
  method FromConcatenation(a: Regex, b: Regex, chars: seq<char>) returns (ll: LocalLanguage, chars': seq<char>)
    ensures fresh(ll)
    ensures chars' == chars + Terminals(Concatenation(a, b))
    ensures ll.Value() == Linearize(Concatenation(a, b), |chars|)
    decreases Concatenation(a, b), 0
  {
    var left, chars1 := FromRegexRec(a, chars);
    assert |chars1| == |chars| + |Terminals(a)|;
    var right, chars2 := FromRegexRec(b, chars1);
    left.Concatenation(right.Value());
    ll, chars' := left, chars2;
    assert chars' == chars + (Terminals(a) + Terminals(b)) by {
      assert chars2 == (chars + Terminals(a)) + Terminals(b);
    }
  }

  /** The alternation case of `FromRegexRec`, numbered like a concatenation. */
  method FromAlternative(a: Regex, b: Regex, chars: seq<char>) returns (ll: LocalLanguage, chars': seq<char>)
    ensures fresh(ll)
    ensures chars' == chars + Terminals(Alternative(a, b))
    ensures ll.Value() == Linearize(Alternative(a, b), |chars|)
    decreases Alternative(a, b), 0
  {
    var left, chars1 := FromRegexRec(a, chars);
    assert |chars1| == |chars| + |Terminals(a)|;
    var right, chars2 := FromRegexRec(b, chars1);
    left.Either(right.Value());
    ll, chars' := left, chars2;
    assert chars' == chars + (Terminals(a) + Terminals(b)) by {
      assert chars2 == (chars + Terminals(a)) + Terminals(b);
    }
  }

  /** The local language of `r` together with the character of every
      position: position `i` is the `i`-th terminal of `r`, and every
      position the summary mentions is a valid index of the table. */
  method FromRegex(r: Regex) returns (ll: LocalLanguage, chars: seq<char>)
    ensures fresh(ll)
    ensures chars == Terminals(r)
    ensures ll.Value() == Linearize(r, 0)
    ensures InRange(ll.Value(), 0, |chars|)
  {
    ll, chars := FromRegexRec(r, []);
    LinearizeInRange(r, 0);
  }
}
