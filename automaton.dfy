/** Complete deterministic automata over the 26 lower-case letters, as
    values: the alphabet, the language of a transition table, and
    complementation. */
module Automata {

  /** Every transition row has one entry per lower-case letter. */
  const AlphabetSize: nat := 26

  /** A letter, as its index `0..25` in `'a'..'z'`. */
  type Symbol = i: nat | i < 26

  /** The character of a symbol. */
  function Letter(i: Symbol): (c: char)
    ensures 'a' <= c <= 'z'
    ensures c as int - 'a' as int == i
  {
    (('a' as int) + i) as char
  }

  /** The characters of a word of symbols. */
  function Word(w: seq<Symbol>): (u: seq<char>)
    ensures |u| == |w|
    ensures forall k :: 0 <= k < |w| ==> u[k] == Letter(w[k])
  {
    if w == [] then [] else Word(w[..|w| - 1]) + [Letter(w[|w| - 1])]
  }

  /** The numbers below `n`. */
  function Range(n: nat): (r: set<nat>)
    ensures forall x: nat :: x in r <==> x < n
  {
    if n == 0 then {} else Range(n - 1) + {n - 1}
  }

  /** The pairs of numbers below `m` and `n`. */
  ghost function PairsBelow(m: nat, n: nat): (r: set<(nat, nat)>)
    ensures forall p: (nat, nat) :: p in r <==> p.0 < m && p.1 < n
  {
    set x, y | x in Range(m) && y in Range(n) :: (x, y)
  }

  /** A fresh transition row, all of whose entries are 0. */
  function Zeros(): (row: seq<nat>)
    ensures |row| == AlphabetSize
    ensures forall i :: 0 <= i < |row| ==> row[i] == 0
  {
    seq(AlphabetSize, i => 0)
  }

  // ---------------------------------------------------------------------
  // Automata as values.

  /** The four fields of a deterministic automaton. */
  datatype Automaton = Automaton(statesCount: nat, initial: nat, finals: set<nat>, transitions: seq<seq<nat>>)

  /** A complete automaton: states are `0..statesCount`, the initial state
      is one of them, every row has 26 entries naming states, and every
      accepting state is a state. */
  ghost predicate Valid(a: Automaton)
  {
    && a.initial < a.statesCount
    && |a.transitions| == a.statesCount
    && (forall q :: 0 <= q < a.statesCount ==> |a.transitions[q]| == AlphabetSize)
    && (forall q, i :: 0 <= q < a.statesCount && 0 <= i < AlphabetSize ==> a.transitions[q][i] < a.statesCount)
    && (forall f :: f in a.finals ==> f < a.statesCount)
  }

  /** The state the automaton reaches from `q` by reading `w`. */
  ghost function Run(a: Automaton, q: nat, w: seq<Symbol>): (r: nat)
    requires Valid(a) && q < a.statesCount
    ensures r < a.statesCount
  {
    if w == [] then q else a.transitions[Run(a, q, w[..|w| - 1])][w[|w| - 1]]
  }

  lemma RunStep(a: Automaton, q: nat, w: seq<Symbol>, i: Symbol)
    requires Valid(a) && q < a.statesCount
    ensures Run(a, q, w + [i]) == a.transitions[Run(a, q, w)][i]
  {
    assert (w + [i])[..|w|] == w;
  }

  /** The language of the automaton. */
  ghost predicate Accepts(a: Automaton, w: seq<Symbol>)
    requires Valid(a)
  {
    Run(a, a.initial, w) in a.finals
  }

  ghost predicate Included(a: Automaton, b: Automaton)
    requires Valid(a) && Valid(b)
  {
    forall w :: Accepts(a, w) ==> Accepts(b, w)
  }

  ghost predicate SameLanguage(a: Automaton, b: Automaton)
    requires Valid(a) && Valid(b)
  {
    forall w :: Accepts(a, w) <==> Accepts(b, w)
  }

  // ---------------------------------------------------------------------
  // Complementation.

  /** The states below `n` that are not in `f`. */
  function Flip(f: set<nat>, n: nat): (r: set<nat>)
    ensures forall x: nat :: x in r <==> x < n && x !in f
  {
    set x | x in Range(n) && x !in f
  }

  /** Flipping twice restores a set of states. */
  lemma FlipTwice(f: set<nat>, n: nat)
    requires forall x :: x in f ==> x < n
    ensures Flip(Flip(f, n), n) == f
  {
    forall x: nat ensures x in Flip(Flip(f, n), n) <==> x in f { }
  }

  /** The automaton with its accepting states flipped. */
  function Complement(a: Automaton): Automaton
  {
    a.(finals := Flip(a.finals, a.statesCount))
  }

  /** The complement accepts exactly the words the automaton rejects. */
  lemma ComplementAccepts(a: Automaton, w: seq<Symbol>)
    requires Valid(a)
    ensures Valid(Complement(a))
    ensures Accepts(Complement(a), w) <==> !Accepts(a, w)
  {
    assert Run(Complement(a), a.initial, w) == Run(a, a.initial, w) by {
      RunSameTable(a, Complement(a), a.initial, w);
    }
  }

  /** The run does not look at the accepting states. */
  lemma {:induction false} RunSameTable(a: Automaton, b: Automaton, q: nat, w: seq<Symbol>)
    requires Valid(a) && Valid(b) && q < a.statesCount
    requires a.statesCount == b.statesCount && a.transitions == b.transitions
    ensures Run(a, q, w) == Run(b, q, w)
    decreases |w|
  {
    if w != [] {
      RunSameTable(a, b, q, w[..|w| - 1]);
    }
  }

  /** Complementing twice gives back the automaton, whenever its accepting
      states lie below its state count. */
  lemma ComplementTwice(a: Automaton)
    requires forall f :: f in a.finals ==> f < a.statesCount
    ensures Complement(Complement(a)) == a
  {
    FlipTwice(a.finals, a.statesCount);
  }

  // ---------------------------------------------------------------------
  // Counting.

  lemma {:induction false} DistinctCard<T>(s: seq<T>)
    requires forall i, j :: 0 <= i < j < |s| ==> s[i] != s[j]
    ensures |set x | x in s| == |s|
  {
    if s != [] {
      var init := s[..|s| - 1];
      DistinctCard(init);
      assert (set x | x in s) == (set x | x in init) + {s[|s| - 1]};
    }
  }

  lemma {:induction false} SubsetCard<T>(s: set<T>, t: set<T>)
    requires s <= t
    ensures |s| <= |t|
    decreases |s|
  {
    if s != {} {
      var x :| x in s;
      SubsetCard(s - {x}, t - {x});
    }
  }

  lemma {:induction false} PairsBelowCard(m: nat, n: nat)
    ensures |PairsBelow(m, n)| == m * n
  {
    if m > 0 {
      var below, column := PairsBelow(m - 1, n), Column(m - 1, n);
      assert |below| == (m - 1) * n by {
        PairsBelowCard(m - 1, n);
      }
      assert |column| == n by {
        ColumnCard(m - 1, n);
      }
      assert PairsBelow(m, n) == below + column;
      assert below * column == {};
      assert m * n == (m - 1) * n + n;
    }
  }

  ghost function Column(x: nat, n: nat): set<(nat, nat)>
  {
    set y | y in Range(n) :: (x, y)
  }

  lemma {:induction false} ColumnCard(x: nat, n: nat)
    ensures |Column(x, n)| == n
  {
    if n > 0 {
      ColumnCard(x, n - 1);
      assert Column(x, n) == Column(x, n - 1) + {(x, n - 1)};
    }
  }

  function Pow2(n: nat): (r: nat)
    ensures r >= 1
  {
    if n == 0 then 1 else 2 * Pow2(n - 1)
  }

  /** The sets of naturals below `n`. */
  ghost function SubsetsBelow(n: nat): set<set<nat>>
  {
    set s: set<nat> | s <= Range(n)
  }

  /** Each set of `family` with `x` added. */
  ghost function Extended(family: set<set<nat>>, x: nat): set<set<nat>>
  {
    set s | s in family :: s + {x}
  }

  lemma {:induction false} ExtendedCard(family: set<set<nat>>, x: nat)
    requires forall s :: s in family ==> x !in s
    ensures |Extended(family, x)| == |family|
    decreases |family|
  {
    if family != {} {
      var s :| s in family;
      var rest := family - {s};
      ExtendedCard(rest, x);
      assert Extended(family, x) == Extended(rest, x) + {s + {x}};
      assert s + {x} !in Extended(rest, x) by {
        forall t | t in rest ensures t + {x} != s + {x} {
          assert t == (t + {x}) - {x} && s == (s + {x}) - {x};
        }
      }
    }
  }

  /** A set below `n + 1` either lies below `n` or is one of those with `n` added. */
  lemma SubsetsBelowSplit(n: nat)
    ensures SubsetsBelow(n + 1) == SubsetsBelow(n) + Extended(SubsetsBelow(n), n)
    ensures SubsetsBelow(n) * Extended(SubsetsBelow(n), n) == {}
  {
    var smaller, larger := SubsetsBelow(n), Extended(SubsetsBelow(n), n);
    forall s | s in SubsetsBelow(n + 1) ensures s in smaller + larger {
      if n in s {
        var t := s - {n};
        assert t in smaller;
        assert s == t + {n};
      } else {
        assert s <= Range(n);
      }
    }
    forall s | s in smaller + larger ensures s in SubsetsBelow(n + 1) {
      if s in larger {
        var t :| t in smaller && s == t + {n};
      }
    }
    forall s | s in larger ensures s !in smaller {
      var t :| t in smaller && s == t + {n};
      assert n in s;
    }
  }

  lemma SubsetsBelowZero()
    ensures |SubsetsBelow(0)| == 1
  {
    var empty: set<nat> := {};
    forall s | s in SubsetsBelow(0) ensures s == empty {
      assert s <= Range(0);
    }
    assert empty in SubsetsBelow(0);
    assert SubsetsBelow(0) == {empty};
  }

  /** One more element doubles the number of sets below it. */
  lemma SubsetsBelowDouble(n: nat)
    ensures |SubsetsBelow(n + 1)| == 2 * |SubsetsBelow(n)|
  {
    var smaller := SubsetsBelow(n);
    var larger := Extended(smaller, n);
    forall s | s in smaller ensures n !in s {
      assert s <= Range(n);
    }
    ExtendedCard(smaller, n);
    SubsetsBelowSplit(n);
    assert |smaller + larger| == |smaller| + |larger|;
  }

  /** There are `2^n` sets of naturals below `n`. */
  lemma {:induction false} SubsetsBelowCard(n: nat)
    ensures |SubsetsBelow(n)| == Pow2(n)
  {
    if n == 0 {
      SubsetsBelowZero();
    } else {
      SubsetsBelowCard(n - 1);
      SubsetsBelowDouble(n - 1);
    }
  }
}
