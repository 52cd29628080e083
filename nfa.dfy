/** The nondeterministic automaton of the pipeline: built from a local
    language (the Glushkov automaton, one state per position plus an
    initial state), and turned into a deterministic automaton by the
    subset construction. */
module Nfas {
  import opened Automata
  import opened Explorations
  import opened Dfas
  import opened LocalLanguages
  import opened Glushkov

  /** A nondeterministic automaton with one initial state; state `q` has,
      for each character it has edges for, the set of their targets. */
  datatype NFA = NFA(initial: nat, finals: set<nat>, transitions: seq<map<char, set<nat>>>)

  /** The targets a row lists for `c`: none when it has no entry for `c`. */
  function Targets(row: map<char, set<nat>>, c: char): set<nat>
  {
    if c in row then row[c] else {}
  }

  /** Adds an edge to `p` on `c`, leaving the other characters as they are. */
  function Insert(row: map<char, set<nat>>, c: char, p: nat): (row': map<char, set<nat>>)
    ensures forall d :: Targets(row', d) == if d == c then Targets(row, c) + {p} else Targets(row, d)
  {
    row[c := Targets(row, c) + {p}]
  }

  /** The successors of state `q` on `c`: the row's entry for `c`, or no
      state at all when the row has no entry for `c`. */
  function NextStates(n: NFA, q: nat, c: char): (r: set<nat>)
    requires q < |n.transitions|
    ensures c !in n.transitions[q] ==> r == {}
    ensures c in n.transitions[q] ==> r == n.transitions[q][c]
  {
    Targets(n.transitions[q], c)
  }

  /** Every state in `states` has a row. */
  ghost predicate States(n: NFA, states: set<nat>)
  {
    forall q :: q in states ==> q < |n.transitions|
  }

  /** The initial state and every edge target have a row. */
  ghost predicate WellFormed(n: NFA)
  {
    && n.initial < |n.transitions|
    && forall q, c, t :: 0 <= q < |n.transitions| && t in NextStates(n, q, c) ==> t < |n.transitions|
  }

  /** The states one edge labelled `c` leads to from some state of `states`. */
  ghost function Step(n: NFA, states: set<nat>, c: char): set<nat>
    requires States(n, states)
  {
    set q, t | q in states && t in NextStates(n, q, c) :: t
  }

  lemma StepAdd(n: NFA, done: set<nat>, q: nat, c: char)
    requires States(n, done + {q})
    ensures Step(n, done + {q}, c) == Step(n, done, c) + NextStates(n, q, c)
  {
  }

  lemma StepStates(n: NFA, states: set<nat>, c: char)
    requires WellFormed(n) && States(n, states)
    ensures States(n, Step(n, states, c))
  {
  }

  /** The successors on `c` of a set of states, gathered state by state. */
  method NextStatesMult(n: NFA, states: set<nat>, c: char) returns (res: set<nat>)
    requires States(n, states)
    ensures res == Step(n, states, c)
    ensures forall t :: t in res <==> exists q :: q in states && t in NextStates(n, q, c)
  {
    res := {};
    var rest := states;
    while rest != {}
      invariant rest <= states
      invariant res == Step(n, states - rest, c)
      decreases |rest|
    {
      var q :| q in rest;
      StepRemove(n, states, rest, q, c);
      res := res + NextStates(n, q, c);
      rest := rest - {q};
    }
    assert states - rest == states;
    StepMembers(n, states, c);
  }

  /** Taking `q` out of the states still to visit adds its successors. */
  lemma StepRemove(n: NFA, states: set<nat>, rest: set<nat>, q: nat, c: char)
    requires rest <= states && q in rest && States(n, states)
    ensures Step(n, states - (rest - {q}), c) == Step(n, states - rest, c) + NextStates(n, q, c)
  {
    assert states - (rest - {q}) == (states - rest) + {q};
    StepAdd(n, states - rest, q, c);
  }

  lemma StepMembers(n: NFA, states: set<nat>, c: char)
    requires States(n, states)
    ensures forall t :: t in Step(n, states, c) <==> exists q :: q in states && t in NextStates(n, q, c)
  {
  }

  // ---------------------------------------------------------------------
  // The Glushkov automaton of a local language.

  /** The automaton of the local language `s` over the position table
      `chars` has an edge from `q` to position `t` exactly when `t` spells
      `c` and either `q` is the initial state and `t` may start a word, or
      `(q, t)` is a factor. */
  ghost predicate GlushkovEdge(s: Summary, chars: seq<char>, q: nat, t: nat, c: char)
  {
    t < |chars| && chars[t] == c && ((q == |chars| && t in s.prefixes) || (q, t) in s.factors)
  }

  /** `n` is the automaton of `s` over `chars`: a state per position and
      the initial state `|chars|`; the positions that may end a word
      accept, and so does the initial state when `s` holds the empty word. */
  ghost predicate GlushkovOf(n: NFA, s: Summary, chars: seq<char>)
  {
    && |n.transitions| == |chars| + 1
    && n.initial == |chars|
    && (forall q :: q in n.finals <==> q in s.suffixes || (q == |chars| && s.acceptEmpty))
    && (forall q, c, t :: 0 <= q < |n.transitions| ==>
          (t in NextStates(n, q, c) <==> GlushkovEdge(s, chars, q, t, c)))
  }

  /** The edges of a table whose row `q0` gained an edge to `t0` on `c0`. */
  lemma AddEdge(transitions: seq<map<char, set<nat>>>, q0: nat, c0: char, t0: nat)
    requires q0 < |transitions|
    ensures var transitions' := transitions[q0 := Insert(transitions[q0], c0, t0)];
      forall q: nat, c: char, t: nat :: q < |transitions| ==>
        (t in Targets(transitions'[q], c) <==> t in Targets(transitions[q], c) || (q == q0 && c == c0 && t == t0))
  {
  }

  /** After the edges out of the initial state for the first `kp` prefixes
      and the edges of the first `kf` factors, `q` has an edge to `t` on `c`. */
  ghost predicate EdgeSoFar(s: Summary, chars: seq<char>, kp: nat, kf: nat, q: nat, c: char, t: nat)
    requires kp <= |s.prefixes| && kf <= |s.factors|
  {
    t < |chars| && chars[t] == c && ((q == |chars| && t in s.prefixes[..kp]) || (q, t) in s.factors[..kf])
  }

  ghost predicate EdgesSoFar(transitions: seq<map<char, set<nat>>>, s: Summary, chars: seq<char>, kp: nat, kf: nat)
    requires kp <= |s.prefixes| && kf <= |s.factors|
  {
    forall q: nat, c: char, t: nat :: q < |transitions| ==>
      (t in Targets(transitions[q], c) <==> EdgeSoFar(s, chars, kp, kf, q, c, t))
  }

  lemma PrefixEdge(transitions: seq<map<char, set<nat>>>, s: Summary, chars: seq<char>, k: nat)
    requires |transitions| == |chars| + 1 && k < |s.prefixes| && s.prefixes[k] < |chars|
    requires EdgesSoFar(transitions, s, chars, k, 0)
    ensures var p := s.prefixes[k];
      EdgesSoFar(transitions[|chars| := Insert(transitions[|chars|], chars[p], p)], s, chars, k + 1, 0)
  {
    var p := s.prefixes[k];
    AddEdge(transitions, |chars|, chars[p], p);
    assert s.prefixes[..k + 1] == s.prefixes[..k] + [p];
    var transitions' := transitions[|chars| := Insert(transitions[|chars|], chars[p], p)];
    forall q: nat, c: char, t: nat | q < |transitions'|
      ensures t in Targets(transitions'[q], c) <==> EdgeSoFar(s, chars, k + 1, 0, q, c, t)
    {
      assert t in Targets(transitions[q], c) <==> EdgeSoFar(s, chars, k, 0, q, c, t);
    }
  }

  lemma FactorEdge(transitions: seq<map<char, set<nat>>>, s: Summary, chars: seq<char>, k: nat)
    requires |transitions| == |chars| + 1 && k < |s.factors|
    requires s.factors[k].0 <= |chars| && s.factors[k].1 < |chars|
    requires EdgesSoFar(transitions, s, chars, |s.prefixes|, k)
    ensures var (a, b) := s.factors[k];
      EdgesSoFar(transitions[a := Insert(transitions[a], chars[b], b)], s, chars, |s.prefixes|, k + 1)
  {
    var (a, b) := s.factors[k];
    AddEdge(transitions, a, chars[b], b);
    assert s.factors[..k + 1] == s.factors[..k] + [(a, b)];
    var transitions' := transitions[a := Insert(transitions[a], chars[b], b)];
    forall q: nat, c: char, t: nat | q < |transitions'|
      ensures t in Targets(transitions'[q], c) <==> EdgeSoFar(s, chars, |s.prefixes|, k + 1, q, c, t)
    {
      assert t in Targets(transitions[q], c) <==> EdgeSoFar(s, chars, |s.prefixes|, k, q, c, t);
    }
  }

  lemma EdgesDone(n: NFA, s: Summary, chars: seq<char>)
    requires |n.transitions| == |chars| + 1
    requires EdgesSoFar(n.transitions, s, chars, |s.prefixes|, |s.factors|)
    ensures forall q, c, t :: 0 <= q < |n.transitions| ==>
      (t in NextStates(n, q, c) <==> GlushkovEdge(s, chars, q, t, c))
  {
    assert s.prefixes[..|s.prefixes|] == s.prefixes;
    assert s.factors[..|s.factors|] == s.factors;
    forall q: nat, c: char, t: nat | q < |n.transitions|
      ensures t in NextStates(n, q, c) <==> GlushkovEdge(s, chars, q, t, c)
    {
      assert t in Targets(n.transitions[q], c) <==> EdgeSoFar(s, chars, |s.prefixes|, |s.factors|, q, c, t);
    }
  }

  /** Builds the automaton of the local language `ll`, whose positions
      spell the characters `chars`. Only the positions that are looked up
      in `chars` (prefixes, and the second position of each factor) must
      be below `|chars|`; the first position of a factor only needs a row,
      and suffixes are copied as they are. */
  method FromLocalLanguage(ll: LocalLanguage, chars: seq<char>) returns (n: NFA)
    requires forall p :: p in ll.prefixes ==> p < |chars|
    requires forall f :: f in ll.factors ==> f.0 <= |chars| && f.1 < |chars|
    ensures GlushkovOf(n, ll.Value(), chars)
    ensures WellFormed(n)
  {
    ghost var s := ll.Value();
    var initial := |chars|;
    var finals := set p | p in ll.suffixes;
    var transitions: seq<map<char, set<nat>>> := seq(|chars| + 1, _ => map[]);
    for k := 0 to |ll.prefixes|
      invariant |transitions| == |chars| + 1
      invariant EdgesSoFar(transitions, s, chars, k, 0)
    {
      var p := ll.prefixes[k];
      assert p in s.prefixes;
      PrefixEdge(transitions, s, chars, k);
      transitions := transitions[initial := Insert(transitions[initial], chars[p], p)];
    }
    if ll.acceptEmpty {
      finals := finals + {initial};
    }
    for k := 0 to |ll.factors|
      invariant |transitions| == |chars| + 1
      invariant EdgesSoFar(transitions, s, chars, |s.prefixes|, k)
    {
      var (a, b) := ll.factors[k];
      assert (a, b) in s.factors;
      FactorEdge(transitions, s, chars, k);
      var c := chars[b];
      transitions := transitions[a := Insert(transitions[a], c, b)];
    }
    n := NFA(initial, finals, transitions);
    EdgesDone(n, s, chars);
  }

  // ---------------------------------------------------------------------
  // The language of an automaton, and of the Glushkov automaton.

  /** The states reached from `states` by reading `u`. */
  ghost function Reach(n: NFA, states: set<nat>, u: seq<char>): (r: set<nat>)
    requires WellFormed(n) && States(n, states)
    ensures States(n, r)
    decreases |u|
  {
    if u == [] then states
    else
      var before := Reach(n, states, u[..|u| - 1]);
      StepStates(n, before, u[|u| - 1]);
      Step(n, before, u[|u| - 1])
  }

  /** `n` accepts `u`: reading `u` from the initial state can end in an accepting state. */
  ghost predicate NfaAccepts(n: NFA, u: seq<char>)
    requires WellFormed(n)
  {
    Reach(n, {n.initial}, u) * n.finals != {}
  }

  /** `w` is a nonempty walk through the positions of `s`: it starts at a
      position that may start a word and every two consecutive positions
      form a factor. */
  ghost predicate Walk(s: Summary, w: seq<nat>)
  {
    w != [] && w[0] in s.prefixes && forall k :: 0 <= k < |w| - 1 ==> (w[k], w[k + 1]) in s.factors
  }

  /** A state the Glushkov automaton reaches on a nonempty word ends a walk spelling that word. */
  lemma {:induction false} ReachToWalk(n: NFA, s: Summary, chars: seq<char>, u: seq<char>, t: nat) returns (w: seq<nat>)
    requires GlushkovOf(n, s, chars) && InRange(s, 0, |chars|) && WellFormed(n)
    requires u != [] && t in Reach(n, {n.initial}, u)
    ensures Walk(s, w) && SpellsAs(chars, w, u) && w[|w| - 1] == t
    decreases |u|
  {
    var u', c := u[..|u| - 1], u[|u| - 1];
    var before := Reach(n, {n.initial}, u');
    assert t in Step(n, before, c);
    var q :| q in before && t in NextStates(n, q, c);
    assert GlushkovEdge(s, chars, q, t, c);
    assert (q, t) in s.factors ==> q < |chars|;
    if u' == [] {
      w := [t];
    } else {
      var w' := ReachToWalk(n, s, chars, u', q);
      w := w' + [t];
      WalkExtend(s, chars, w', u', t, c);
      assert u == u' + [c];
    }
  }

  /** A walk spelling `u` extended by a factor spells `u` extended by the
      new position's character. */
  lemma WalkExtend(s: Summary, chars: seq<char>, w: seq<nat>, u: seq<char>, t: nat, c: char)
    requires Walk(s, w) && SpellsAs(chars, w, u) && (w[|w| - 1], t) in s.factors
    requires t < |chars| && chars[t] == c
    ensures Walk(s, w + [t]) && SpellsAs(chars, w + [t], u + [c])
  {
    var w2 := w + [t];
    forall k | 0 <= k < |w2| - 1 ensures (w2[k], w2[k + 1]) in s.factors {
      if k < |w| - 1 {
        assert (w2[k], w2[k + 1]) == (w[k], w[k + 1]);
      }
    }
  }

  /** The end of a walk spelling `u` is a state the Glushkov automaton reaches on `u`. */
  lemma {:induction false} WalkToReach(n: NFA, s: Summary, chars: seq<char>, w: seq<nat>, u: seq<char>)
    requires GlushkovOf(n, s, chars) && InRange(s, 0, |chars|) && WellFormed(n)
    requires Walk(s, w) && SpellsAs(chars, w, u)
    ensures w[|w| - 1] in Reach(n, {n.initial}, u)
    decreases |w|
  {
    var u', c := u[..|u| - 1], u[|u| - 1];
    var t := w[|w| - 1];
    if |w| == 1 {
      assert GlushkovEdge(s, chars, n.initial, t, c);
      assert t in NextStates(n, n.initial, c);
    } else {
      var w' := w[..|w| - 1];
      assert w'[0] == w[0];
      forall k | 0 <= k < |w'| - 1 ensures (w'[k], w'[k + 1]) in s.factors {
        assert (w'[k], w'[k + 1]) == (w[k], w[k + 1]);
      }
      assert SpellsAs(chars, w', u') by {
        forall k | 0 <= k < |w'| ensures w'[k] < |chars| && chars[w'[k]] == u'[k] {
          assert w'[k] == w[k] && u'[k] == u[k];
        }
      }
      WalkToReach(n, s, chars, w', u');
      var q := w'[|w'| - 1];
      assert (q, t) in s.factors;
      assert GlushkovEdge(s, chars, q, t, c);
      assert t in NextStates(n, q, c);
    }
  }

  /** The Glushkov automaton of a local language accepts exactly the words
      spelt by the words of the local language. */
  lemma GlushkovAccepts(n: NFA, s: Summary, chars: seq<char>, u: seq<char>)
    requires GlushkovOf(n, s, chars) && InRange(s, 0, |chars|) && WellFormed(n)
    ensures NfaAccepts(n, u) <==> exists w :: LocalWord(s, w) && SpellsAs(chars, w, u)
  {
    if u == [] {
      assert n.initial !in s.suffixes;
      forall w | SpellsAs(chars, w, u) ensures w == [] {
      }
      assert Reach(n, {n.initial}, u) == {n.initial};
      if NfaAccepts(n, u) {
        var t :| t in {n.initial} * n.finals;
      } else {
        assert n.initial !in {n.initial} * n.finals;
      }
      if s.acceptEmpty {
        assert LocalWord(s, []) && SpellsAs(chars, [], u);
      }
    } else {
      if NfaAccepts(n, u) {
        var t :| t in Reach(n, {n.initial}, u) * n.finals;
        var w := ReachToWalk(n, s, chars, u, t);
        assert t < |chars|;
        assert LocalWord(s, w);
      }
      if exists w :: LocalWord(s, w) && SpellsAs(chars, w, u) {
        var w :| LocalWord(s, w) && SpellsAs(chars, w, u);
        assert Walk(s, w);
        WalkToReach(n, s, chars, w, u);
        assert w[|w| - 1] in n.finals;
        assert w[|w| - 1] in Reach(n, {n.initial}, u) * n.finals;
      }
    }
  }

  // ---------------------------------------------------------------------
  // The subset construction as an exploration.

  /** The set of states a set of states leads to on symbol `i` (a set with
      a state outside the table is left as it is). */
  ghost function SetStep(n: NFA, states: set<nat>, i: Symbol): set<nat>
  {
    if States(n, states) then Step(n, states, Letter(i)) else states
  }

  ghost function SetSteps(n: NFA): (set<nat>, Symbol) -> set<nat>
  {
    (states, i) => SetStep(n, states, i)
  }

  ghost function SomeFinal(n: NFA): set<nat> -> bool
  {
    (states: set<nat>) => states * n.finals != {}
  }

  /** The sets of states of `n`. */
  ghost function Subsets(n: NFA): set<set<nat>>
  {
    SubsetsBelow(|n.transitions|)
  }

  lemma SetStepsInside(n: NFA)
    requires WellFormed(n)
    ensures {n.initial} in Subsets(n)
    ensures forall states, i :: states in Subsets(n) ==> SetSteps(n)(states, i) in Subsets(n)
  {
    forall states, i | states in Subsets(n) ensures SetSteps(n)(states, i) in Subsets(n) {
      StepStates(n, states, Letter(i));
    }
  }

  /** `d` is a determinization of `n`: state `id` stands for the set of
      states `sets[id]`, the states `n` reaches on `words[id]`; the sets are
      distinct, state 0 is the set of the initial state alone, each row
      follows `n` on each letter, and a state accepts exactly when its set
      holds an accepting state. */
  ghost predicate DeterminizationOf(d: Automaton, n: NFA, sets: seq<set<nat>>, words: seq<seq<Symbol>>)
  {
    Explored(SetSteps(n), {n.initial}, SomeFinal(n), d, sets, words)
  }

  /** Tracing the subset step from the initial set reads the word in `n`. */
  lemma {:induction false} SetTrace(n: NFA, w: seq<Symbol>)
    requires WellFormed(n)
    ensures Trace(SetSteps(n), {n.initial}, w) == Reach(n, {n.initial}, Word(w))
    decreases |w|
  {
    if w != [] {
      var w' := w[..|w| - 1];
      SetTrace(n, w');
      assert Word(w)[..|w| - 1] == Word(w');
    }
  }

  /** A determinization accepts the words of 26 letters `n` accepts. */
  lemma DeterminizationAccepts(d: Automaton, n: NFA, sets: seq<set<nat>>, words: seq<seq<Symbol>>, w: seq<Symbol>)
    requires WellFormed(n) && DeterminizationOf(d, n, sets, words)
    ensures Valid(d) && (Accepts(d, w) <==> NfaAccepts(n, Word(w)))
  {
    ExploredAccepts(SetSteps(n), {n.initial}, SomeFinal(n), d, sets, words, w);
    SetTrace(n, w);
  }

  /** A determinization has at most one state per set of states of `n`,
      so at most `2^k` states for `k` states of `n`. */
  lemma DeterminizationStatesBound(d: Automaton, n: NFA, sets: seq<set<nat>>, words: seq<seq<Symbol>>)
    requires WellFormed(n) && DeterminizationOf(d, n, sets, words)
    ensures d.statesCount <= Pow2(|n.transitions|)
  {
    SubsetsBelowCard(|n.transitions|);
    SetStepsInside(n);
    forall id | 0 <= id < |sets| ensures sets[id] in Subsets(n) {
      TraceInside(SetSteps(n), {n.initial}, Subsets(n), words[id]);
    }
    ExploredSize(SetSteps(n), {n.initial}, SomeFinal(n), d, sets, words, Subsets(n));
  }

  /** Whether some state of `states` is accepting, checked state by state. */
  method ContainsFinal(n: NFA, states: set<nat>) returns (found: bool)
    ensures found <==> states * n.finals != {}
  {
    found := false;
    var rest := states;
    while rest != {}
      invariant rest <= states
      invariant found <==> (states - rest) * n.finals != {}
      decreases |rest|
    {
      var q :| q in rest;
      FinalsRemove(states, rest, q, n.finals);
      if q in n.finals {
        found := true;
      }
      rest := rest - {q};
    }
    assert states - rest == states;
  }

  /** Taking `q` out of the states still to visit adds it to the visited
      accepting states when it accepts. */
  lemma FinalsRemove(states: set<nat>, rest: set<nat>, q: nat, finals: set<nat>)
    requires q in rest && rest <= states
    ensures q in finals ==> q in (states - (rest - {q})) * finals
    ensures q !in finals ==> (states - (rest - {q})) * finals == (states - rest) * finals
  {
    assert states - (rest - {q}) == (states - rest) + {q};
  }

  /** The subset construction: the sets of states reachable from the set
      of the initial state are explored depth first, with a stack of sets
      still to expand and an index numbering the sets already met. */
  method Determinize(n: NFA) returns (d: DFA, ghost sets: seq<set<nat>>, ghost words: seq<seq<Symbol>>)
    requires WellFormed(n)
    ensures fresh(d)
    ensures DeterminizationOf(d.Value(), n, sets, words)
  {
    ghost var step, final, universe := SetSteps(n), SomeFinal(n), Subsets(n);
    SetStepsInside(n);
    var initialStates: set<nat> := {n.initial};
    var table: seq<seq<nat>> := [Zeros()];
    var indexes: map<set<nat>, nat> := map[initialStates := 0];
    var accepting: set<nat> := {};
    if n.initial in n.finals {
      accepting := {0};
    }
    assert n.initial in n.finals <==> final(initialStates) by {
      assert n.initial in n.finals ==> n.initial in initialStates * n.finals;
    }
    var count := 1;
    var stack: seq<set<nat>> := [initialStates];
    sets, words := [initialStates], [[]];
    ghost var processed: set<nat> := {};
    ExploreStart(step, initialStates, final, accepting);
    while stack != []
      invariant Exploring(step, initialStates, final, Exploration(count, sets, words, indexes, accepting, table, stack), processed)
      decreases universe - indexes.Keys, |stack|
    {
      count, indexes, accepting, table, stack, sets, words, processed :=
        DetNext(n, count, indexes, accepting, table, stack, sets, words, processed);
    }
    ExploreDone(step, initialStates, final, Exploration(count, sets, words, indexes, accepting, table, stack), processed);
    d := new DFA(count, 0, accepting, table);
  }

  /** One pass of the outer loop of the subset construction: the set on
      top of the stack is popped and the row of its id is filled for every
      letter. Each set met for the first time is given a fresh row,
      numbered, marked accepting when it holds an accepting state, and
      pushed. */
  method DetNext(n: NFA, count: nat, indexes: map<set<nat>, nat>, accepting: set<nat>,
                 table: seq<seq<nat>>, stack: seq<set<nat>>,
                 ghost sets: seq<set<nat>>, ghost words: seq<seq<Symbol>>, ghost processed: set<nat>)
    returns (count': nat, indexes': map<set<nat>, nat>, accepting': set<nat>, table': seq<seq<nat>>,
             stack': seq<set<nat>>, ghost sets': seq<set<nat>>, ghost words': seq<seq<Symbol>>,
             ghost processed': set<nat>)
    requires WellFormed(n) && stack != []
    requires Exploring(SetSteps(n), {n.initial}, SomeFinal(n),
                       Exploration(count, sets, words, indexes, accepting, table, stack), processed)
    ensures Exploring(SetSteps(n), {n.initial}, SomeFinal(n),
                      Exploration(count', sets', words', indexes', accepting', table', stack'), processed')
    ensures Decreased(Subsets(n), indexes.Keys, indexes'.Keys, stack, stack')
  {
    ghost var step, start, final, universe := SetSteps(n), {n.initial}, SomeFinal(n), Subsets(n);
    SetStepsInside(n);
    ghost var e0 := Exploration(count, sets, words, indexes, accepting, table, stack);
    KeysInside(step, start, final, e0, universe);
    RowStart(step, start, final, e0, processed);
    var states := stack[|stack| - 1];
    var actual := indexes[states];
    count', indexes', accepting', table', stack', sets', words' :=
      count, indexes, accepting, table, stack[..|stack| - 1], sets, words;
    for i := 0 to AlphabetSize
      invariant ExploringRow(step, start, final, Exploration(count', sets', words', indexes', accepting', table', stack'),
                             processed, actual, states, i)
      invariant Progress(indexes.Keys, indexes'.Keys, stack[..|stack| - 1], stack')
    {
      ghost var keys, pending := indexes'.Keys, stack';
      count', indexes', accepting', table', stack', sets', words' :=
        DetEntry(n, states, actual, i, count', indexes', accepting', table', stack', sets', words', processed);
      ProgressChain(indexes.Keys, keys, indexes'.Keys, stack[..|stack| - 1], pending, stack');
    }
    ghost var e1 := Exploration(count', sets', words', indexes', accepting', table', stack');
    KeysInside(step, start, final, e1, universe);
    RowDecreases(universe, indexes.Keys, indexes'.Keys, stack, stack');
    RowFinish(step, start, final, e1, processed, actual, states);
    processed' := processed + {actual};
  }

  /** The entry of the row of `states` for the letter `'a' + i`: the subset
      it leads to, numbered first if it is new. */
  method DetEntry(n: NFA, states: set<nat>, actual: nat, i: nat,
                  count: nat, indexes: map<set<nat>, nat>, accepting: set<nat>, table: seq<seq<nat>>,
                  stack: seq<set<nat>>, ghost sets: seq<set<nat>>, ghost words: seq<seq<Symbol>>,
                  ghost processed: set<nat>)
    returns (count': nat, indexes': map<set<nat>, nat>, accepting': set<nat>, table': seq<seq<nat>>,
             stack': seq<set<nat>>, ghost sets': seq<set<nat>>, ghost words': seq<seq<Symbol>>)
    requires WellFormed(n) && States(n, states) && i < AlphabetSize
    requires ExploringRow(SetSteps(n), {n.initial}, SomeFinal(n),
                          Exploration(count, sets, words, indexes, accepting, table, stack), processed, actual, states, i)
    ensures ExploringRow(SetSteps(n), {n.initial}, SomeFinal(n),
                         Exploration(count', sets', words', indexes', accepting', table', stack'), processed, actual, states,
                         i + 1)
    ensures Progress(indexes.Keys, indexes'.Keys, stack, stack')
  {
    count', indexes', accepting', table', stack', sets', words' := count, indexes, accepting, table, stack, sets, words;
    var c := Letter(i);
    var next := NextStatesMult(n, states, c);
    assert next == SetSteps(n)(states, i);
    if next !in indexes {
      count', indexes', accepting', table', stack', sets', words' :=
        NumberSubset(n, states, actual, i, next, count, indexes, accepting, table, stack, sets, words, processed);
    }
    var nextIndex := indexes'[next];
    RowSetEntry(SetSteps(n), {n.initial}, SomeFinal(n), Exploration(count', sets', words', indexes', accepting', table', stack'),
                processed, actual, states, i, next);
    table' := table'[actual := table'[actual][i := nextIndex]];
  }

  /** A subset met for the first time gets the next id: a fresh row, final
      when it holds an accepting state, and it is pushed to be processed. */
  method NumberSubset(n: NFA, states: set<nat>, actual: nat, i: nat, next: set<nat>,
                      count: nat, indexes: map<set<nat>, nat>, accepting: set<nat>, table: seq<seq<nat>>,
                      stack: seq<set<nat>>, ghost sets: seq<set<nat>>, ghost words: seq<seq<Symbol>>,
                      ghost processed: set<nat>)
    returns (count': nat, indexes': map<set<nat>, nat>, accepting': set<nat>, table': seq<seq<nat>>,
             stack': seq<set<nat>>, ghost sets': seq<set<nat>>, ghost words': seq<seq<Symbol>>)
    requires ExploringRow(SetSteps(n), {n.initial}, SomeFinal(n),
                          Exploration(count, sets, words, indexes, accepting, table, stack), processed, actual, states, i)
    requires i < AlphabetSize && next == SetSteps(n)(states, i) && next !in indexes
    ensures ExploringRow(SetSteps(n), {n.initial}, SomeFinal(n),
                         Exploration(count', sets', words', indexes', accepting', table', stack'), processed, actual, states, i)
    ensures indexes' == indexes[next := count] && stack' == stack + [next]
  {
    ghost var e := Exploration(count, sets, words, indexes, accepting, table, stack);
    RowAddLabel(SetSteps(n), {n.initial}, SomeFinal(n), e, processed, actual, states, i, next);
    table' := table + [Zeros()];
    indexes' := indexes[next := count];
    var isFinal := ContainsFinal(n, next);
    accepting' := accepting;
    if isFinal {
      accepting' := accepting + {count};
    }
    count' := count + 1;
    stack' := stack + [next];
    sets', words' := sets + [next], words + [words[actual] + [i]];
  }
}
