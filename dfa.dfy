/** The deterministic automaton of the pipeline as an object: complementing
    it in place, the product of two automata, and the inclusion and
    equality tests built from them. */
module Dfas {
  import opened Automata
  import opened Explorations

  // ---------------------------------------------------------------------
  // The product construction as an exploration.

  /** The pair of states `a` and `b` reach from `p` by reading `i` (a pair
      outside the two tables is left as it is). */
  ghost function PairStep(a: Automaton, b: Automaton, p: (nat, nat), i: Symbol): (nat, nat)
  {
    if p.0 < |a.transitions| && i < |a.transitions[p.0]| && p.1 < |b.transitions| && i < |b.transitions[p.1]|
    then (a.transitions[p.0][i], b.transitions[p.1][i])
    else p
  }

  ghost function PairSteps(a: Automaton, b: Automaton): ((nat, nat), Symbol) -> (nat, nat)
  {
    (p, i) => PairStep(a, b, p, i)
  }

  ghost function BothFinal(a: Automaton, b: Automaton): ((nat, nat)) -> bool
  {
    (p: (nat, nat)) => p.0 in a.finals && p.1 in b.finals
  }

  /** `c` is a product of `a` and `b`: state `id` stands for the pair of
      states `pairs[id]`, which both automata reach on `words[id]`; the
      pairs are distinct, state 0 is the pair of initial states, each row
      follows both automata, and a state accepts exactly when both of its
      components accept. */
  ghost predicate ProductOf(c: Automaton, a: Automaton, b: Automaton, pairs: seq<(nat, nat)>, words: seq<seq<Symbol>>)
  {
    Explored(PairSteps(a, b), (a.initial, b.initial), BothFinal(a, b), c, pairs, words)
  }

  lemma PairStepsInside(a: Automaton, b: Automaton)
    requires Valid(a) && Valid(b)
    ensures forall p, i :: p in PairsBelow(a.statesCount, b.statesCount) ==>
      PairSteps(a, b)(p, i) in PairsBelow(a.statesCount, b.statesCount)
  {
  }

  /** Tracing the product step from the initial pair runs both automata side by side. */
  lemma {:induction false} PairTrace(a: Automaton, b: Automaton, w: seq<Symbol>)
    requires Valid(a) && Valid(b)
    ensures Trace(PairSteps(a, b), (a.initial, b.initial), w) == (Run(a, a.initial, w), Run(b, b.initial, w))
    decreases |w|
  {
    if w != [] {
      PairTrace(a, b, w[..|w| - 1]);
    }
  }

  /** The product accepts exactly the words both automata accept. */
  lemma ProductAccepts(c: Automaton, a: Automaton, b: Automaton, pairs: seq<(nat, nat)>,
                       words: seq<seq<Symbol>>, w: seq<Symbol>)
    requires Valid(a) && Valid(b) && ProductOf(c, a, b, pairs, words)
    ensures Valid(c) && (Accepts(c, w) <==> Accepts(a, w) && Accepts(b, w))
  {
    ExploredAccepts(PairSteps(a, b), (a.initial, b.initial), BothFinal(a, b), c, pairs, words, w);
    PairTrace(a, b, w);
  }

  /** The product has no accepting state exactly when no word is accepted
      by both automata. */
  lemma ProductEmpty(c: Automaton, a: Automaton, b: Automaton, pairs: seq<(nat, nat)>, words: seq<seq<Symbol>>)
    requires Valid(a) && Valid(b) && ProductOf(c, a, b, pairs, words)
    ensures |c.finals| == 0 <==> forall w :: !(Accepts(a, w) && Accepts(b, w))
  {
    ExploredEmpty(PairSteps(a, b), (a.initial, b.initial), BothFinal(a, b), c, pairs, words);
    if |c.finals| == 0 {
      forall w ensures !(Accepts(a, w) && Accepts(b, w)) {
        ProductAccepts(c, a, b, pairs, words, w);
        ExploredAccepts(PairSteps(a, b), (a.initial, b.initial), BothFinal(a, b), c, pairs, words, w);
      }
    } else {
      var w :| BothFinal(a, b)(Trace(PairSteps(a, b), (a.initial, b.initial), w));
      PairTrace(a, b, w);
      var p := Trace(PairSteps(a, b), (a.initial, b.initial), w);
      assert p.0 in a.finals && p.1 in b.finals;
      assert Accepts(a, w) && Accepts(b, w);
    }
  }

  /** The product of an automaton with its complement only reaches pairs
      of one state with itself, and none of them accepts. */
  lemma ProductWithComplement(c: Automaton, a: Automaton, pairs: seq<(nat, nat)>, words: seq<seq<Symbol>>)
    requires Valid(a) && ProductOf(c, a, Complement(a), pairs, words)
    ensures forall id :: 0 <= id < |pairs| ==> pairs[id].0 == pairs[id].1
    ensures |c.finals| == 0
  {
    ComplementAccepts(a, []);
    forall id | 0 <= id < |pairs| ensures pairs[id].0 == pairs[id].1 {
      PairTrace(a, Complement(a), words[id]);
      RunSameTable(a, Complement(a), a.initial, words[id]);
    }
    forall w ensures !(Accepts(a, w) && Accepts(Complement(a), w)) {
      ComplementAccepts(a, w);
    }
    ProductEmpty(c, a, Complement(a), pairs, words);
  }

  /** The product has at most `|a| * |b|` states: its pairs are distinct. */
  lemma ProductStatesBound(c: Automaton, a: Automaton, b: Automaton, pairs: seq<(nat, nat)>, words: seq<seq<Symbol>>)
    requires Valid(a) && Valid(b) && ProductOf(c, a, b, pairs, words)
    ensures c.statesCount <= a.statesCount * b.statesCount
  {
    var inside := PairsBelow(a.statesCount, b.statesCount);
    PairStepsInside(a, b);
    forall id | 0 <= id < |pairs| ensures pairs[id] in inside {
      TraceInside(PairSteps(a, b), (a.initial, b.initial), inside, words[id]);
    }
    ExploredSize(PairSteps(a, b), (a.initial, b.initial), BothFinal(a, b), c, pairs, words, inside);
    PairsBelowCard(a.statesCount, b.statesCount);
  }

  // ---------------------------------------------------------------------
  // Automata as objects.

  /** A complete deterministic automaton over the 26 letters. */
  class DFA {
    var statesCount: nat
    var initial: nat
    var finals: set<nat>
    var transitions: seq<seq<nat>>

    function Value(): Automaton
      reads this
    {
      Automaton(statesCount, initial, finals, transitions)
    }

    constructor (statesCount: nat, initial: nat, finals: set<nat>, transitions: seq<seq<nat>>)
      ensures Value() == Automaton(statesCount, initial, finals, transitions)
    {
      this.statesCount := statesCount;
      this.initial := initial;
      this.finals := finals;
      this.transitions := transitions;
    }

    /** A copy of the automaton. */
    method Clone() returns (copy: DFA)
      ensures fresh(copy) && copy.Value() == Value()
    {
      copy := new DFA(statesCount, initial, finals, transitions);
    }

    /** Makes the automaton accept the complement of its language: the new
        accepting states are the states below `statesCount` that were not
        accepting. */
    method ToComplement()
      modifies this`finals
      ensures Value() == Complement(old(Value()))
    {
      var newFinals: set<nat> := {};
      for i := 0 to statesCount
        invariant newFinals == Flip(finals, i)
      {
        if i !in finals {
          newFinals := newFinals + {i};
        }
      }
      finals := newFinals;
    }

    /** The product of this automaton with `other`: the pairs of states
        are explored depth first from the pair of initial states, with a
        stack of pairs still to expand and an index numbering the pairs
        already met. */
    method Intersection(other: DFA) returns (res: DFA, ghost pairs: seq<(nat, nat)>, ghost words: seq<seq<Symbol>>)
      requires Valid(Value()) && Valid(other.Value())
      ensures fresh(res)
      ensures ProductOf(res.Value(), Value(), other.Value(), pairs, words)
    {
      ghost var a, b := Value(), other.Value();
      ghost var step, final := PairSteps(a, b), BothFinal(a, b);
      ghost var universe := PairsBelow(statesCount, other.statesCount);
      PairStepsInside(a, b);
      var start: (nat, nat) := (initial, other.initial);
      var indexes: map<(nat, nat), nat> := map[start := 0];
      var accepting: set<nat> := if initial in finals && other.initial in other.finals then {0} else {};
      var count := 1;
      var stack: seq<(nat, nat)> := [start];
      var table: seq<seq<nat>> := [Zeros()];
      pairs, words := [start], [[]];
      ghost var processed: set<nat> := {};
      ExploreStart(step, start, final, accepting);
      while stack != []
        invariant Exploring(step, start, final, Exploration(count, pairs, words, indexes, accepting, table, stack), processed)
        decreases universe - indexes.Keys, |stack|
      {
        count, indexes, accepting, table, stack, pairs, words, processed :=
          ExpandNext(other, count, indexes, accepting, table, stack, pairs, words, processed);
      }
      ExploreDone(step, start, final, Exploration(count, pairs, words, indexes, accepting, table, stack), processed);
      res := new DFA(count, 0, accepting, table);
    }

    /** One pass of the outer loop of the product construction: the pair
        `(x, y)` on top of the stack is popped and the row of its id is
        filled for every symbol. Each pair met for the first time is
        numbered, marked accepting when both its components are, given a
        fresh row, and pushed. */
    method ExpandNext(other: DFA, count: nat, indexes: map<(nat, nat), nat>, accepting: set<nat>,
                      table: seq<seq<nat>>, stack: seq<(nat, nat)>,
                      ghost pairs: seq<(nat, nat)>, ghost words: seq<seq<Symbol>>, ghost processed: set<nat>)
      returns (count': nat, indexes': map<(nat, nat), nat>, accepting': set<nat>, table': seq<seq<nat>>,
               stack': seq<(nat, nat)>, ghost pairs': seq<(nat, nat)>, ghost words': seq<seq<Symbol>>,
               ghost processed': set<nat>)
      requires Valid(Value()) && Valid(other.Value()) && stack != []
      requires Exploring(PairSteps(Value(), other.Value()), (initial, other.initial), BothFinal(Value(), other.Value()),
                         Exploration(count, pairs, words, indexes, accepting, table, stack), processed)
      ensures Exploring(PairSteps(Value(), other.Value()), (initial, other.initial), BothFinal(Value(), other.Value()),
                        Exploration(count', pairs', words', indexes', accepting', table', stack'), processed')
      ensures Decreased(PairsBelow(statesCount, other.statesCount), indexes.Keys, indexes'.Keys, stack, stack')
    {
      ghost var a, b := Value(), other.Value();
      ghost var step, start, final := PairSteps(a, b), (initial, other.initial), BothFinal(a, b);
      ghost var universe := PairsBelow(statesCount, other.statesCount);
      PairStepsInside(a, b);
      ghost var e0 := Exploration(count, pairs, words, indexes, accepting, table, stack);
      KeysInside(step, start, final, e0, universe);
      RowStart(step, start, final, e0, processed);
      var (x, y) := stack[|stack| - 1];
      var actual := indexes[(x, y)];
      count', indexes', accepting', table', stack', pairs', words' :=
        count, indexes, accepting, table, stack[..|stack| - 1], pairs, words;
      for i := 0 to AlphabetSize
        invariant ExploringRow(step, start, final, Exploration(count', pairs', words', indexes', accepting', table', stack'),
                               processed, actual, (x, y), i)
        invariant Progress(indexes.Keys, indexes'.Keys, stack[..|stack| - 1], stack')
      {
        ghost var keys, pending := indexes'.Keys, stack';
        count', indexes', accepting', table', stack', pairs', words' :=
          ExploreEntry(other, x, y, actual, i, count', indexes', accepting', table', stack', pairs', words', processed);
        ProgressChain(indexes.Keys, keys, indexes'.Keys, stack[..|stack| - 1], pending, stack');
      }
      ghost var e1 := Exploration(count', pairs', words', indexes', accepting', table', stack');
      KeysInside(step, start, final, e1, universe);
      RowDecreases(universe, indexes.Keys, indexes'.Keys, stack, stack');
      RowFinish(step, start, final, e1, processed, actual, (x, y));
      processed' := processed + {actual};
    }

    /** The entry of the row of `(x, y)` for symbol `i`: the pair both
        automata move to, numbered first if it is new. */
    method ExploreEntry(other: DFA, x: nat, y: nat, actual: nat, i: nat, count: nat, indexes: map<(nat, nat), nat>,
                        accepting: set<nat>, table: seq<seq<nat>>, stack: seq<(nat, nat)>,
                        ghost pairs: seq<(nat, nat)>, ghost words: seq<seq<Symbol>>, ghost processed: set<nat>)
      returns (count': nat, indexes': map<(nat, nat), nat>, accepting': set<nat>, table': seq<seq<nat>>,
               stack': seq<(nat, nat)>, ghost pairs': seq<(nat, nat)>, ghost words': seq<seq<Symbol>>)
      requires Valid(Value()) && Valid(other.Value())
      requires x < statesCount && y < other.statesCount && i < AlphabetSize
      requires ExploringRow(PairSteps(Value(), other.Value()), (initial, other.initial), BothFinal(Value(), other.Value()),
                            Exploration(count, pairs, words, indexes, accepting, table, stack), processed, actual, (x, y), i)
      ensures ExploringRow(PairSteps(Value(), other.Value()), (initial, other.initial), BothFinal(Value(), other.Value()),
                           Exploration(count', pairs', words', indexes', accepting', table', stack'), processed, actual, (x, y),
                           i + 1)
      ensures Progress(indexes.Keys, indexes'.Keys, stack, stack')
    {
      ghost var a, b := Value(), other.Value();
      count', indexes', accepting', table', stack', pairs', words' := count, indexes, accepting, table, stack, pairs, words;
      var next: (nat, nat) := (transitions[x][i], other.transitions[y][i]);
      assert next == PairSteps(a, b)((x, y), i);
      if next !in indexes {
        count', indexes', accepting', table', stack', pairs', words' :=
          NumberPair(other, x, y, actual, i, next, count, indexes, accepting, table, stack, pairs, words, processed);
      }
      var nextIndex := indexes'[next];
      RowSetEntry(PairSteps(a, b), (initial, other.initial), BothFinal(a, b),
                  Exploration(count', pairs', words', indexes', accepting', table', stack'), processed, actual, (x, y), i, next);
      table' := table'[actual := table'[actual][i := nextIndex]];
    }

    /** A pair met for the first time gets the next id: it is pushed to be
        processed, it is final when both of its states are, and it gets a
        fresh row. */
    method NumberPair(other: DFA, x: nat, y: nat, actual: nat, i: nat, next: (nat, nat),
                      count: nat, indexes: map<(nat, nat), nat>, accepting: set<nat>, table: seq<seq<nat>>,
                      stack: seq<(nat, nat)>, ghost pairs: seq<(nat, nat)>, ghost words: seq<seq<Symbol>>,
                      ghost processed: set<nat>)
      returns (count': nat, indexes': map<(nat, nat), nat>, accepting': set<nat>, table': seq<seq<nat>>,
               stack': seq<(nat, nat)>, ghost pairs': seq<(nat, nat)>, ghost words': seq<seq<Symbol>>)
      requires ExploringRow(PairSteps(Value(), other.Value()), (initial, other.initial), BothFinal(Value(), other.Value()),
                            Exploration(count, pairs, words, indexes, accepting, table, stack), processed, actual, (x, y), i)
      requires i < AlphabetSize && next == PairSteps(Value(), other.Value())((x, y), i) && next !in indexes
      ensures ExploringRow(PairSteps(Value(), other.Value()), (initial, other.initial), BothFinal(Value(), other.Value()),
                           Exploration(count', pairs', words', indexes', accepting', table', stack'), processed, actual, (x, y), i)
      ensures indexes' == indexes[next := count] && stack' == stack + [next]
    {
      ghost var a, b := Value(), other.Value();
      RowAddLabel(PairSteps(a, b), (initial, other.initial), BothFinal(a, b),
                  Exploration(count, pairs, words, indexes, accepting, table, stack), processed, actual, (x, y), i, next);
      indexes' := indexes[next := count];
      stack' := stack + [next];
      pairs', words' := pairs + [next], words + [words[actual] + [i]];
      accepting' := accepting;
      if next.0 in finals && next.1 in other.finals {
        accepting' := accepting + {count};
      }
      count' := count + 1;
      table' := table + [Zeros()];
    }

    /** Whether every word this automaton accepts is accepted by `other`:
        the product with the complement of `other` has no accepting state.
        `other` is taken by value, so it is complemented on a copy. */
    method IsIncludedIn(other: DFA) returns (included: bool)
      requires Valid(Value()) && Valid(other.Value())
      ensures included <==> Included(Value(), other.Value())
    {
      var complement := other.Clone();
      complement.ToComplement();
      var inter;
      ghost var pairs, words;
      inter, pairs, words := Intersection(complement);
      ProductEmpty(inter.Value(), Value(), complement.Value(), pairs, words);
      forall w ensures Accepts(complement.Value(), w) <==> !Accepts(other.Value(), w) {
        ComplementAccepts(other.Value(), w);
      }
      included := |inter.finals| == 0;
    }

    /** Whether the two automata accept the same words. `IsIncludedIn`
        works on a copy of its argument, which stands for the clone of `b`
        the first test consumes. */
    static method Equals(a: DFA, b: DFA) returns (equal: bool)
      requires Valid(a.Value()) && Valid(b.Value())
      ensures equal <==> SameLanguage(a.Value(), b.Value())
    {
      equal := a.IsIncludedIn(b);
      if equal {
        equal := b.IsIncludedIn(a);
      }
    }
  }
}
