/** The equivalence test: both regular expressions are compiled to
    complete deterministic automata over the 26 letters (linearisation,
    Glushkov automaton, subset construction), and the automata are compared
    by inclusion both ways. */
module RegexEquivalence {
  import opened Regexes
  import opened LocalLanguages
  import opened Glushkov
  import opened Automata
  import opened Dfas
  import opened Nfas

  /** `r1` and `r2` match the same words over the 26 letters. */
  ghost predicate Equivalent(r1: Regex, r2: Regex)
  {
    forall w: seq<Symbol> :: Matches(r1, Word(w)) <==> Matches(r2, Word(w))
  }

  /** The deterministic automaton of `r`: it accepts exactly the words of
      26 letters that `r` matches. */
  method DfaFromRegex(r: Regex) returns (d: DFA)
    ensures fresh(d) && Valid(d.Value())
    ensures forall w :: Accepts(d.Value(), w) <==> Matches(r, Word(w))
  {
    var ll, chars := FromRegex(r);
    var nfa := FromLocalLanguage(ll, chars);
    ghost var sets, words;
    d, sets, words := Determinize(nfa);
    DeterminizationAccepts(d.Value(), nfa, sets, words, []);
    forall w ensures Accepts(d.Value(), w) <==> Matches(r, Word(w)) {
      DeterminizationAccepts(d.Value(), nfa, sets, words, w);
      GlushkovAccepts(nfa, ll.Value(), chars, Word(w));
      LinearizationCorrect(r, Word(w));
    }
  }

  /** Whether `r1` and `r2` match the same words over the 26 letters. */
  method IsEquivalent(r1: Regex, r2: Regex) returns (equivalent: bool)
    ensures equivalent <==> Equivalent(r1, r2)
  {
    var d1 := DfaFromRegex(r1);
    var d2 := DfaFromRegex(r2);
    equivalent := DFA.Equals(d1, d2);
  }

  /** The test is symmetric in its two arguments. */
  lemma EquivalentSymmetric(r1: Regex, r2: Regex)
    ensures Equivalent(r1, r2) <==> Equivalent(r2, r1)
  {
  }

  /** Every expression is equivalent to itself. */
  lemma EquivalentReflexive(r: Regex)
    ensures Equivalent(r, r)
  {
  }

  /** Two expressions equivalent to a third are equivalent to each other. */
  lemma EquivalentTransitive(a: Regex, b: Regex, c: Regex)
    requires Equivalent(a, b) && Equivalent(b, c)
    ensures Equivalent(a, c)
  {
  }

  // ---------------------------------------------------------------------
  // The answers the equivalence test gives on sample expressions.

  /** A star absorbs an optional copy of its operand in front of it. */
  lemma StarAbsorbsOptional(a: Regex, u: seq<char>)
    ensures Matches(Star(a), u) <==> Matches(Concatenation(Optional(a), Star(a)), u)
  {
    if Matches(Star(a), u) {
      assert u[..0] == [] && u[0..] == u;
    }
    if Matches(Concatenation(Optional(a), Star(a)), u) {
      var k :| 0 <= k <= |u| && Matches(Optional(a), u[..k]) && Matches(Star(a), u[k..]);
      if k == 0 {
        assert u[k..] == u;
      } else {
        assert Matches(a, u[..k]);
      }
    }
  }

  lemma StarOfLetterEquivalent()
    ensures Equivalent(Star(Terminal('a')), Concatenation(Optional(Terminal('a')), Star(Terminal('a'))))
  {
    forall w: seq<Symbol>
      ensures Matches(Star(Terminal('a')), Word(w)) <==>
              Matches(Concatenation(Optional(Terminal('a')), Star(Terminal('a'))), Word(w))
    {
      StarAbsorbsOptional(Terminal('a'), Word(w));
    }
  }

  /** Alternation is commutative. */
  lemma AlternativeCommutes(a: Regex, b: Regex)
    ensures Equivalent(Alternative(a, b), Alternative(b, a))
  {
  }

  /** A star matches the empty word, one letter followed by its star does not. */
  lemma StarNotPlus()
    ensures !Equivalent(Star(Terminal('a')), Concatenation(Terminal('a'), Star(Terminal('a'))))
  {
    var w: seq<Symbol> := [];
    assert Word(w) == [];
    assert !Matches(Concatenation(Terminal('a'), Star(Terminal('a'))), Word(w)) by {
      assert forall k :: 0 <= k <= 0 ==> Word(w)[..k] == [];
    }
  }

  /** The star of `a|b` matches "b", which a star of `a` alone does not. */
  lemma StarOfAlternativeNotAlternativeOfStars()
    ensures !Equivalent(Star(Alternative(Terminal('a'), Terminal('b'))),
                        Alternative(Star(Terminal('a')), Star(Terminal('a'))))
  {
    var w: seq<Symbol> := [1];
    var u := Word(w);
    assert u == ['b'];
    assert u[..1] == u && u[1..] == [];
    var ab := Alternative(Terminal('a'), Terminal('b'));
    assert Matches(Terminal('b'), u[..1]);
    assert Matches(ab, u[..1]) && Matches(Star(ab), u[1..]);
    assert Matches(Star(ab), u);
    if Matches(Star(Terminal('a')), u) {
      MatchedCharsAreTerminals(Star(Terminal('a')), u);
    }
  }

  /** The empty word alone is not the optional letter: "a" tells them apart. */
  lemma EpsilonNotOptional()
    ensures !Equivalent(Epsilon, Optional(Terminal('a')))
  {
    var w: seq<Symbol> := [0];
    assert Word(w) == ['a'];
    assert Matches(Terminal('a'), Word(w));
    assert Matches(Optional(Terminal('a')), Word(w)) && !Matches(Epsilon, Word(w));
  }
}
