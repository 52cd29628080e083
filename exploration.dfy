/** The worklist pattern shared by the product construction and the subset
    construction: states of the new automaton are labels (a pair of states,
    a set of states) discovered from a start label by a step function, each
    numbered the first time it is met, and the table row of a numbered
    label is filled when it is popped from a stack. */
module Explorations {
  import opened Automata

  /** The label reached from `start` by reading `w`. */
  ghost function Trace<T>(step: (T, Symbol) -> T, start: T, w: seq<Symbol>): T
  {
    if w == [] then start else step(Trace(step, start, w[..|w| - 1]), w[|w| - 1])
  }

  lemma TraceStep<T>(step: (T, Symbol) -> T, start: T, w: seq<Symbol>, i: Symbol)
    ensures Trace(step, start, w + [i]) == step(Trace(step, start, w), i)
  {
    assert (w + [i])[..|w|] == w;
  }

  /** A set of labels closed under the step contains every trace from a start inside it. */
  lemma {:induction false} TraceInside<T>(step: (T, Symbol) -> T, start: T, inside: set<T>, w: seq<Symbol>)
    requires start in inside
    requires forall x, i :: x in inside ==> step(x, i) in inside
    ensures Trace(step, start, w) in inside
    decreases |w|
  {
    if w != [] {
      TraceInside(step, start, inside, w[..|w| - 1]);
    }
  }

  // ---------------------------------------------------------------------
  // The finished construction.

  /** `d` is the automaton explored from `start`: state `id` stands for the
      label `labels[id]`, reached by reading `words[id]`; labels are
      distinct, state 0 is `start`, each row follows the step, and a state
      accepts exactly when its label is final. */
  ghost predicate Explored<T>(step: (T, Symbol) -> T, start: T, final: T -> bool,
                              d: Automaton, labels: seq<T>, words: seq<seq<Symbol>>)
  {
    && Valid(d) && d.initial == 0 && |labels| == d.statesCount
    && Traced(step, start, labels, words) && words[0] == []
    && (forall id, id' :: 0 <= id < id' < |labels| ==> labels[id] != labels[id'])
    && (forall id, i :: 0 <= id < |labels| && 0 <= i < AlphabetSize ==>
          labels[d.transitions[id][i]] == step(labels[id], i))
    && Marked(final, labels, d.finals)
  }

  /** The explored automaton follows the step along every word. */
  lemma {:induction false} ExploredRun<T>(step: (T, Symbol) -> T, start: T, final: T -> bool,
                                         d: Automaton, labels: seq<T>, words: seq<seq<Symbol>>, w: seq<Symbol>)
    requires Explored(step, start, final, d, labels, words)
    ensures labels[Run(d, 0, w)] == Trace(step, start, w)
    decreases |w|
  {
    if w == [] {
      assert labels[0] == Trace(step, start, words[0]);
    } else {
      ExploredRun(step, start, final, d, labels, words, w[..|w| - 1]);
    }
  }

  /** The explored automaton accepts a word exactly when the label it
      traces from `start` is final. */
  lemma ExploredAccepts<T>(step: (T, Symbol) -> T, start: T, final: T -> bool,
                           d: Automaton, labels: seq<T>, words: seq<seq<Symbol>>, w: seq<Symbol>)
    requires Explored(step, start, final, d, labels, words)
    ensures Accepts(d, w) <==> final(Trace(step, start, w))
  {
    ExploredRun(step, start, final, d, labels, words, w);
  }

  /** The explored automaton has no accepting state exactly when no word
      traces a final label: every state is reached by its word. */
  lemma ExploredEmpty<T>(step: (T, Symbol) -> T, start: T, final: T -> bool,
                         d: Automaton, labels: seq<T>, words: seq<seq<Symbol>>)
    requires Explored(step, start, final, d, labels, words)
    ensures |d.finals| == 0 <==> forall w :: !final(Trace(step, start, w))
  {
    if |d.finals| != 0 {
      var id :| id in d.finals;
      assert final(Trace(step, start, words[id]));
    }
    forall w | final(Trace(step, start, w)) ensures |d.finals| != 0 {
      ExploredAccepts(step, start, final, d, labels, words, w);
    }
  }

  /** The explored automaton has at most as many states as there are
      labels in a set that holds them all. */
  lemma ExploredSize<T>(step: (T, Symbol) -> T, start: T, final: T -> bool,
                        d: Automaton, labels: seq<T>, words: seq<seq<Symbol>>, inside: set<T>)
    requires Explored(step, start, final, d, labels, words)
    requires forall id :: 0 <= id < |labels| ==> labels[id] in inside
    ensures d.statesCount <= |inside|
  {
    DistinctCard(labels);
    SubsetCard((set x | x in labels), inside);
  }

  // ---------------------------------------------------------------------
  // The construction in progress.

  /** The variables of the worklist loop. */
  datatype Exploration<T> = Exploration(
    count: nat, labels: seq<T>, words: seq<seq<Symbol>>, indexes: map<T, nat>,
    accepting: set<nat>, table: seq<seq<nat>>, stack: seq<T>)

  /** Every label is reached from `start` by its word. */
  ghost predicate Traced<T>(step: (T, Symbol) -> T, start: T, labels: seq<T>, words: seq<seq<Symbol>>)
  {
    |words| == |labels| && forall id :: 0 <= id < |labels| ==> labels[id] == Trace(step, start, words[id])
  }

  /** `indexes` numbers the labels: it maps each label to its position. */
  ghost predicate Numbered<T>(labels: seq<T>, indexes: map<T, nat>)
  {
    && (forall q :: q in indexes ==> indexes[q] < |labels| && labels[indexes[q]] == q)
    && (forall id :: 0 <= id < |labels| ==> labels[id] in indexes && indexes[labels[id]] == id)
  }

  /** The table has `n` rows of 26 entries, each naming a state below `n`. */
  ghost predicate Shaped(table: seq<seq<nat>>, n: nat)
  {
    && |table| == n
    && (forall id :: 0 <= id < n ==> |table[id]| == AlphabetSize)
    && (forall id, i :: 0 <= id < n && 0 <= i < AlphabetSize ==> table[id][i] < n)
  }

  /** A state accepts exactly when its label is final. */
  ghost predicate Marked<T>(final: T -> bool, labels: seq<T>, accepting: set<nat>)
  {
    && (forall id :: 0 <= id < |labels| ==> (id in accepting <==> final(labels[id])))
    && (forall f :: f in accepting ==> f < |labels|)
  }

  /** The entries of row `id` for the symbols below `i` follow the step. */
  ghost predicate RowPrefix<T>(step: (T, Symbol) -> T, labels: seq<T>, table: seq<seq<nat>>, id: nat, i: nat)
  {
    && id < |table| && |table[id]| == AlphabetSize && id < |labels|
    && forall j :: 0 <= j < i && j < AlphabetSize ==>
         table[id][j] < |labels| && labels[table[id][j]] == step(labels[id], j)
  }

  ghost predicate Sound<T>(step: (T, Symbol) -> T, start: T, final: T -> bool, e: Exploration<T>)
  {
    && 1 <= e.count && e.count == |e.labels|
    && Traced(step, start, e.labels, e.words) && e.words[0] == []
    && Numbered(e.labels, e.indexes)
    && Shaped(e.table, e.count)
    && Marked(final, e.labels, e.accepting)
  }

  /** Every label on the stack is numbered, and every state not in `done`
      has its label on the stack. */
  ghost predicate Pending<T>(e: Exploration<T>, done: set<nat>)
  {
    && (forall q :: q in e.stack ==> q in e.indexes)
    && (forall id :: 0 <= id < |e.labels| ==> id in done || e.labels[id] in e.stack)
  }

  ghost predicate RowsDone<T>(step: (T, Symbol) -> T, e: Exploration<T>, done: set<nat>)
  {
    forall id :: id in done ==> RowPrefix(step, e.labels, e.table, id, AlphabetSize)
  }

  /** The invariant of the outer loop. */
  ghost predicate Exploring<T>(step: (T, Symbol) -> T, start: T, final: T -> bool, e: Exploration<T>, processed: set<nat>)
  {
    Sound(step, start, final, e) && Pending(e, processed) && RowsDone(step, e, processed)
  }

  /** The invariant of the inner loop, while the row of state `actual`,
      whose label is `p`, is filled for the symbols below `i`. */
  ghost predicate ExploringRow<T>(step: (T, Symbol) -> T, start: T, final: T -> bool, e: Exploration<T>,
                                  processed: set<nat>, actual: nat, p: T, i: nat)
  {
    && i <= AlphabetSize
    && Sound(step, start, final, e)
    && actual < e.count && e.labels[actual] == p
    && Pending(e, processed + {actual})
    && RowsDone(step, e, processed - {actual})
    && RowPrefix(step, e.labels, e.table, actual, i)
  }

  // ---------------------------------------------------------------------
  // One lemma per step of the loops.

  lemma ExploreStart<T>(step: (T, Symbol) -> T, start: T, final: T -> bool, accepting: set<nat>)
    requires accepting == if final(start) then {0} else {}
    ensures Exploring(step, start, final, Exploration(1, [start], [[]], map[start := 0], accepting, [Zeros()], [start]), {})
  {
  }

  /** Popping a label starts filling its row. */
  lemma RowStart<T>(step: (T, Symbol) -> T, start: T, final: T -> bool, e: Exploration<T>, processed: set<nat>)
    requires Exploring(step, start, final, e, processed) && e.stack != []
    ensures var p := e.stack[|e.stack| - 1];
      p in e.indexes
      && ExploringRow(step, start, final, e.(stack := e.stack[..|e.stack| - 1]), processed, e.indexes[p], p, 0)
  {
    var p := e.stack[|e.stack| - 1];
    var e' := e.(stack := e.stack[..|e.stack| - 1]);
    forall id | 0 <= id < |e.labels| && id !in processed + {e.indexes[p]} ensures e.labels[id] in e'.stack {
      assert e.labels[id] in e.stack;
    }
    forall id | id in processed - {e.indexes[p]} ensures RowPrefix(step, e'.labels, e'.table, id, AlphabetSize) {
      assert RowPrefix(step, e.labels, e.table, id, AlphabetSize);
    }
  }

  /** Numbering a newly met label keeps the inner invariant. */
  lemma RowAddLabel<T>(step: (T, Symbol) -> T, start: T, final: T -> bool, e: Exploration<T>,
                       processed: set<nat>, actual: nat, p: T, i: nat, next: T)
    requires ExploringRow(step, start, final, e, processed, actual, p, i) && i < AlphabetSize
    requires next == step(p, i) && next !in e.indexes
    ensures ExploringRow(step, start, final, Added(e, actual, i, next, final(next)), processed, actual, p, i)
  {
    var e' := Added(e, actual, i, next, final(next));
    SoundAdded(step, start, final, e, actual, i, next);
    PendingAdded(e, processed + {actual}, actual, i, next, final(next));
    forall id | id in processed - {actual} ensures RowPrefix(step, e'.labels, e'.table, id, AlphabetSize) {
      assert RowPrefix(step, e.labels, e.table, id, AlphabetSize);
      RowPrefixKept(step, e.labels, e.table, e'.labels, e'.table, id, AlphabetSize);
    }
    RowPrefixKept(step, e.labels, e.table, e'.labels, e'.table, actual, i);
  }

  /** The variables after numbering `next`, met from state `actual` by symbol `i`. */
  function Added<T>(e: Exploration<T>, actual: nat, i: Symbol, next: T, isFinal: bool): Exploration<T>
    requires actual < |e.words|
  {
    Exploration(e.count + 1, e.labels + [next], e.words + [e.words[actual] + [i]], e.indexes[next := e.count],
                if isFinal then e.accepting + {e.count} else e.accepting, e.table + [Zeros()], e.stack + [next])
  }

  lemma SoundAdded<T>(step: (T, Symbol) -> T, start: T, final: T -> bool, e: Exploration<T>,
                      actual: nat, i: Symbol, next: T)
    requires Sound(step, start, final, e) && actual < e.count
    requires next == step(e.labels[actual], i) && next !in e.indexes
    ensures Sound(step, start, final, Added(e, actual, i, next, final(next)))
  {
    var e' := Added(e, actual, i, next, final(next));
    TraceStep(step, start, e.words[actual], i);
    assert Traced(step, start, e'.labels, e'.words) by {
      forall id | 0 <= id < |e'.labels| ensures e'.labels[id] == Trace(step, start, e'.words[id]) {
        if id < |e.labels| {
          assert e'.labels[id] == e.labels[id] && e'.words[id] == e.words[id];
        }
      }
    }
    assert Numbered(e'.labels, e'.indexes) by {
      forall id | 0 <= id < |e'.labels| ensures e'.labels[id] in e'.indexes && e'.indexes[e'.labels[id]] == id {
        if id < |e.labels| {
          assert e'.labels[id] == e.labels[id];
        }
      }
    }
    assert Shaped(e'.table, e'.count);
    assert Marked(final, e'.labels, e'.accepting) by {
      forall id | 0 <= id < |e'.labels| ensures id in e'.accepting <==> final(e'.labels[id]) {
        if id < |e.labels| {
          assert e'.labels[id] == e.labels[id];
        }
      }
    }
  }

  lemma PendingAdded<T>(e: Exploration<T>, done: set<nat>, actual: nat, i: Symbol, next: T, isFinal: bool)
    requires Pending(e, done) && actual < |e.words| && |e.labels| == e.count
    ensures Pending(Added(e, actual, i, next, isFinal), done)
  {
    var e' := Added(e, actual, i, next, isFinal);
    forall id | 0 <= id < |e'.labels| && id !in done ensures e'.labels[id] in e'.stack {
      if id < |e.labels| {
        assert e'.labels[id] == e.labels[id] && e.labels[id] in e.stack;
      }
    }
  }

  /** A filled prefix of a row stays filled while labels are appended and
      other rows change. */
  lemma RowPrefixKept<T>(step: (T, Symbol) -> T, labels: seq<T>, table: seq<seq<nat>>,
                         labels': seq<T>, table': seq<seq<nat>>, id: nat, i: nat)
    requires RowPrefix(step, labels, table, id, i)
    requires |labels| <= |labels'| && labels'[..|labels|] == labels
    requires id < |table'| && table'[id] == table[id]
    ensures RowPrefix(step, labels', table', id, i)
  {
    forall j | 0 <= j < i && j < AlphabetSize ensures labels'[table'[id][j]] == step(labels'[id], j) {
      assert labels'[table[id][j]] == labels[table[id][j]];
      assert labels'[id] == labels[id];
    }
  }

  /** Writing the entry for symbol `i` advances the inner invariant. */
  lemma RowSetEntry<T>(step: (T, Symbol) -> T, start: T, final: T -> bool, e: Exploration<T>,
                       processed: set<nat>, actual: nat, p: T, i: nat, next: T)
    requires ExploringRow(step, start, final, e, processed, actual, p, i) && i < AlphabetSize
    requires next == step(p, i) && next in e.indexes
    ensures var row: seq<nat> := e.table[actual][i := e.indexes[next]];
      ExploringRow(step, start, final, e.(table := e.table[actual := row]), processed, actual, p, i + 1)
  {
    var row: seq<nat> := e.table[actual][i := e.indexes[next]];
    var e' := e.(table := e.table[actual := row]);
    assert Shaped(e'.table, e'.count) by {
      forall id, j | 0 <= id < e'.count && 0 <= j < AlphabetSize ensures e'.table[id][j] < e'.count {
        if id != actual {
          assert e'.table[id] == e.table[id];
        }
      }
    }
    forall id | id in processed - {actual} ensures RowPrefix(step, e'.labels, e'.table, id, AlphabetSize) {
      assert RowPrefix(step, e.labels, e.table, id, AlphabetSize);
      RowPrefixKept(step, e.labels, e.table, e'.labels, e'.table, id, AlphabetSize);
    }
  }

  /** A filled row makes its state processed. */
  lemma RowFinish<T>(step: (T, Symbol) -> T, start: T, final: T -> bool, e: Exploration<T>,
                     processed: set<nat>, actual: nat, p: T)
    requires ExploringRow(step, start, final, e, processed, actual, p, AlphabetSize)
    ensures Exploring(step, start, final, e, processed + {actual})
  {
  }

  /** Every numbered label lies in a set closed under the step that holds `start`. */
  lemma KeysInside<T>(step: (T, Symbol) -> T, start: T, final: T -> bool, e: Exploration<T>, inside: set<T>)
    requires Sound(step, start, final, e)
    requires start in inside && forall x, i :: x in inside ==> step(x, i) in inside
    ensures e.indexes.Keys <= inside
    ensures forall id :: 0 <= id < |e.labels| ==> e.labels[id] in inside
  {
    forall id | 0 <= id < |e.labels| ensures e.labels[id] in inside {
      TraceInside(step, start, inside, e.words[id]);
    }
    forall q | q in e.indexes ensures q in inside {
      assert e.labels[e.indexes[q]] == q;
    }
  }

  /** Between two points of a row, the numbered labels only grow, and the
      stack is unchanged unless they do. */
  ghost predicate Progress<T>(keys: set<T>, keys': set<T>, stack: seq<T>, stack': seq<T>)
  {
    keys <= keys' && (keys' == keys ==> stack' == stack)
  }

  lemma ProgressChain<T>(k0: set<T>, k1: set<T>, k2: set<T>, s0: seq<T>, s1: seq<T>, s2: seq<T>)
    requires Progress(k0, k1, s0, s1) && Progress(k1, k2, s1, s2)
    ensures Progress(k0, k2, s0, s2)
  {
    if k2 == k0 {
      assert k1 == k0;
    }
  }

  /** Numbering new labels inside a finite universe leaves fewer of it unnumbered. */
  lemma KeysGrow<T>(universe: set<T>, before: set<T>, after: set<T>)
    requires before <= after <= universe && after != before
    ensures universe - after < universe - before
  {
    var x :| x in after && x !in before;
    assert x in universe - before;
  }

  /** The measure of the outer loop went down: more labels of the universe
      are numbered, or as many and the stack is shorter. */
  ghost predicate Decreased<T>(universe: set<T>, keys: set<T>, keys': set<T>, stack: seq<T>, stack': seq<T>)
  {
    universe - keys' < universe - keys || (universe - keys' == universe - keys && |stack'| < |stack|)
  }

  /** Expanding the top of the stack either numbers new labels of the
      universe or leaves the stack one shorter: the outer loop terminates. */
  lemma RowDecreases<T>(universe: set<T>, keys: set<T>, keys': set<T>, stack: seq<T>, stack': seq<T>)
    requires keys' <= universe && stack != [] && Progress(keys, keys', stack[..|stack| - 1], stack')
    ensures Decreased(universe, keys, keys', stack, stack')
  {
    if keys' != keys {
      KeysGrow(universe, keys, keys');
    }
  }

  /** Once the stack is empty, the table is the explored automaton. */
  lemma ExploreDone<T>(step: (T, Symbol) -> T, start: T, final: T -> bool, e: Exploration<T>, processed: set<nat>)
    requires Exploring(step, start, final, e, processed) && e.stack == []
    ensures Explored(step, start, final, Automaton(e.count, 0, e.accepting, e.table), e.labels, e.words)
  {
    forall id, id' | 0 <= id < id' < e.count ensures e.labels[id] != e.labels[id'] {
      assert e.indexes[e.labels[id]] == id && e.indexes[e.labels[id']] == id';
    }
    forall id, i | 0 <= id < e.count && 0 <= i < AlphabetSize
      ensures e.labels[e.table[id][i]] == step(e.labels[id], i)
    {
      assert RowPrefix(step, e.labels, e.table, id, AlphabetSize);
    }
  }
}
