# Regular expression equivalence, modelled in Dafny

This project models a small library that decides whether two regular
expressions denote the same language over the 26 lower-case letters. The
library runs a fixed pipeline:

1. A regular expression is a closed tree: `Terminal`, `Epsilon`,
   `Concatenation`, `Alternative`, `Optional` and `Star`. It also has a
   canonical rendering as a string.
2. Glushkov linearisation walks the tree left to right. Each terminal
   occurrence gets a fresh position, and its character is pushed onto a
   `chars` table. The positions are combined into a *local language*:
   - a flag saying whether the empty word is accepted;
   - the positions that may start a word;
   - the positions that may end a word;
   - the ordered pairs of positions that may follow one another.
3. The local language becomes an epsilon-free nondeterministic automaton.
   It has one state per position plus an initial state numbered
   `|chars|`.
4. The subset construction turns that automaton into a complete
   deterministic one over the 26 letters.
5. Two deterministic automata are compared by inclusion both ways.
   `A ⊆ B` holds when the product of `A` with the complement of `B` has no
   accepting state.

Modules, one per source file, plus three that carry the proofs (`glushkov.dfy`, `automaton.dfy`, `exploration.dfy`):

| file | module | form |
|---|---|---|
| `regex.dfy` | `Regexes` | datatype, rendering, the language `Matches` |
| `local_language.dfy` | `LocalLanguages` | the value `Summary`, with combinators as functions; a class `LocalLanguage` whose methods update its four fields in place; `CartesianProduct` with nested loops; `FromRegexRec`/`FromRegex` threading the `chars` table |
| `glushkov.dfy` | `Glushkov` | the words of a local language, and the proof that linearisation preserves the language |
| `automaton.dfy` | `Automata` | complete deterministic automata as values (`Automaton`): runs, acceptance, complement, counting lemmas |
| `exploration.dfy` | `Explorations` | the worklist algorithm both constructions share (a stack, a map from labels to ids, a growing table), as invariants with one lemma per loop step |
| `dfa.dfy` | `Dfas` | the class `DFA` with `ToComplement` (in place), `Intersection`, `IsIncludedIn`, `Equals` |
| `nfa.dfy` | `Nfas` | the `NFA` value, `FromLocalLanguage`, `NextStatesMult`, `Determinize` (loops) and the proofs about their languages |
| `lib.dfy` | `RegexEquivalence` | `DfaFromRegex`, `IsEquivalent`, and the sample equivalences |

The main result is `RegexEquivalence.IsEquivalent`. It returns true
exactly when the two expressions match the same words of letters `a`–`z`.
The proof has three steps:
- linearisation preserves the language (`Glushkov.LinearizationCorrect`);
- the Glushkov automaton accepts the words of the local language
  (`Nfas.GlushkovAccepts`);
- the subset construction and the product construction preserve the
  language (`Nfas.DeterminizationAccepts`, `Dfas.ProductAccepts`).

Both worklist loops (`intersection` and `determinize`) are proved against
the predicate `Explored`. It says the following of the new automaton:
- state `id` stands for a label (a pair of states, or a set of states);
- that label is reached from the start label by a known word;
- labels are distinct;
- state 0 is the start label;
- each table entry follows the step function;
- a state accepts exactly when its label is final.

Termination holds because each pass of the loop either numbers a new label
from a finite universe or shrinks the stack. The universe is the pairs of
states for the product, and the subsets of `0..=|chars|` for the subset
construction.

## Model

| member | source | states |
|---|---|---|
| Regexes.ToString | src/regex.rs:22-31 | the rendering is never the empty string |
| Regexes.RenderingListsTerminals | src/regex.rs:23-30 | with punctuation and ε dropped, the rendering is exactly the sequence of terminal characters in tree order (for letter terminals) |
| Regexes.AlternativeGroupingInvisible | src/regex.rs:26 | alternation is rendered without parentheses, so both groupings of a three-way alternation render alike |
| Regexes.RenderingNotInjective | src/regex.rs:26 | two distinct trees have the same rendering |
| Regexes.MatchedCharsAreTerminals | src/regex.rs:4-17 | every character of a matched word is one of the expression's terminals |
| LocalLanguages.ProductAt | src/local_language.rs:16-24 | the product has `|l1|·|l2|` pairs, and pair `i·|l2|+j` is `(l1[i], l2[j])`, i.e. `l1`-major order |
| LocalLanguages.ProductMembership | src/local_language.rs:16-24 | a pair is in the product iff its first component is in `l1` and its second in `l2` |
| LocalLanguages.CartesianProduct | src/local_language.rs:16-24 | the nested loops build exactly `Product(l1, l2)` |
| LocalLanguages.LocalLanguage.FromLiteral | src/local_language.rs:28-35 | no empty word, prefixes = suffixes = `[l]`, no factors |
| LocalLanguages.LocalLanguage.Empty | src/local_language.rs:38-45 | empty word accepted, all three lists empty |
| LocalLanguages.LocalLanguage.Concatenation | src/local_language.rs:50-63 | the new value is `Concat(old value, other)`: factors become old factors ++ suffixes × other prefixes ++ other factors; suffixes are appended or replaced according to `other`'s flag; prefixes are extended only if the old flag was set; the flag becomes the AND |
| LocalLanguages.LocalLanguage.Either | src/local_language.rs:68-73 | the new value is `Union(old value, other)`: the flag becomes the OR; prefixes, suffixes and factors of `other` are appended after this one's |
| LocalLanguages.LocalLanguage.Optional | src/local_language.rs:76-78 | the new value is `Opt(old value)`: only the flag changes, and it becomes true |
| LocalLanguages.LocalLanguage.Repeat | src/local_language.rs:81-85 | the new value is `Kleene(old value)`: the flag becomes true, suffixes × prefixes are appended to the factors, prefixes and suffixes are unchanged |
| LocalLanguages.FromRegexRec | src/local_language.rs:87-116 | the table grows by the terminals of `r` in tree order, and the result is the linearisation of `r` numbered from the old table length |
| LocalLanguages.FromConcatenation | src/local_language.rs:95-99 | the concatenation arm: the left operand is numbered first, the right one after it, and the result is the linearisation of the concatenation |
| LocalLanguages.FromAlternative | src/local_language.rs:100-104 | the alternation arm, likewise, giving the linearisation of the alternation |
| LocalLanguages.FromRegex | src/local_language.rs:119-123 | `chars` is the terminals in tree order (one per occurrence, none for ε), the result is the linearisation from 0, and every position it mentions is below `|chars|` |
| LocalLanguages.LinearizeInRange | src/local_language.rs:87-116 | the positions of the linearisation from `offset` lie in `[offset, offset + #terminals)` |
| LocalLanguages.OperandsOrdered | src/local_language.rs:95-104 | every position of a left operand is smaller than every position of the right operand, so the disjointness the two combinators require holds |
| Glushkov.LiteralWords | src/local_language.rs:27-35 | the literal's only word is its position |
| Glushkov.EmptyWordWords | src/local_language.rs:37-45 | the only word of `empty` is the empty word |
| Glushkov.ConcatWords | src/local_language.rs:47-63 | for position-disjoint operands, the words of the concatenation are exactly the concatenations of a word of each |
| Glushkov.EitherWords | src/local_language.rs:65-73 | for position-disjoint operands, the words of the union are the words of either |
| Glushkov.OptWords | src/local_language.rs:75-78 | the words of `optional` are the empty word plus the old words |
| Glushkov.RepeatWords | src/local_language.rs:80-85 | a nonempty word of `repeat` is a nonempty word of the operand followed by a word of `repeat` |
| Glushkov.LinearizeWords | src/local_language.rs:87-116 | the words of the linearised local language are exactly the position words of the linearised expression |
| Glushkov.MatchesToPositions | src/local_language.rs:87-116 | every word `r` matches is spelt, through the table, by a position word of the linearised `r` |
| Glushkov.PositionsToMatches | src/local_language.rs:87-116 | every word spelt by a position word of the linearised `r` is matched by `r` |
| Glushkov.LinearizationCorrect | src/local_language.rs:118-123 | `r` matches `u` iff some word of its local language spells `u` through `chars` |
| Automata.Letter | src/nfa.rs:87 | symbol `i` is the letter `'a' + i` |
| Automata.Run | src/dfa.rs:9 | a run of a valid automaton never leaves `0..states_count` (the table is total) |
| Automata.Flip | src/dfa.rs:15-20 | the new finals are exactly the states below `states_count` that were not final |
| Automata.ComplementAccepts | src/dfa.rs:13-22 | the complement is valid and accepts exactly the words the automaton rejects |
| Automata.ComplementTwice | src/dfa.rs:14-22 | complementing twice restores the automaton (its finals lie below `states_count`) |
| Explorations.ExploreStart | src/dfa.rs:32-41 | id 0 is the start label, final iff the label is; the loop invariant holds on entry |
| Explorations.RowStart | src/dfa.rs:43-44 | the popped label is numbered, and the row invariant holds for its id |
| Explorations.RowAddLabel | src/dfa.rs:49-57 | numbering a new label (fresh id, final iff its label is, fresh row, pushed) keeps the row invariant |
| Explorations.RowSetEntry | src/dfa.rs:59-61 | writing the next label's id into the row extends the filled prefix of the row |
| Explorations.RowFinish | src/dfa.rs:45-62 | a fully filled row restores the loop invariant with that id processed |
| Explorations.KeysInside | src/nfa.rs:90-101 | every numbered label lies in any set that holds the start and is closed under the step |
| Explorations.KeysGrow | src/dfa.rs:49-51 | numbering a new label leaves strictly fewer unnumbered labels of the universe (termination) |
| Explorations.RowDecreases | src/dfa.rs:43-62 | a pass that pops one label and numbers new labels only when it pushes them either numbers a label of the universe or shrinks the stack (termination) |
| Explorations.ExploreDone | src/dfa.rs:63-70 | on an empty stack the table is a complete automaton with initial 0, explored from the start label |
| Explorations.ExploredRun | src/dfa.rs:43-62 | the explored automaton follows the step along every word |
| Explorations.ExploredAccepts | src/dfa.rs:43-62 | the explored automaton accepts `w` iff the label reached by `w` is final |
| Explorations.ExploredEmpty | src/dfa.rs:77 | the explored automaton has no finals iff no word reaches a final label |
| Explorations.ExploredSize | src/dfa.rs:49-57 | an explored automaton has at most as many states as there are candidate labels |
| Dfas.PairTrace | src/dfa.rs:46-47 | the product step runs both automata side by side |
| Dfas.ProductAccepts | src/dfa.rs:24-71 | the product accepts exactly the words both automata accept |
| Dfas.ProductEmpty | src/dfa.rs:74-78 | the product has no accepting state iff no word is accepted by both automata |
| Dfas.ProductWithComplement | src/lib.rs:17-20 | the product of an automaton with its complement only reaches diagonal pairs, none final (reflexivity at automaton level) |
| Dfas.ProductStatesBound | src/dfa.rs:49-57 | the product has at most `|a|·|b|` states |
| Dfas.DFA.constructor | src/dfa.rs:65-70 | the object holds the given count, initial state, finals and table |
| Dfas.DFA.Clone | src/dfa.rs:82 | a fresh object with the same value |
| Dfas.DFA.ToComplement | src/dfa.rs:14-22 | the new value is the complement: finals become the non-final states below the count, nothing else changes |
| Dfas.DFA.Intersection | src/dfa.rs:25-71 | the result is a product of the two automata (pair 0 is the initial pair, rows follow both tables, final iff both components are) |
| Dfas.DFA.ExpandNext | src/dfa.rs:43-62 | one pass of the outer loop: the popped pair's row is filled for all 26 symbols, the exploration invariant is kept with that pair's id processed, and the loop measure decreases |
| Dfas.DFA.ExploreEntry | src/dfa.rs:46-61 | one symbol: the pair of successors is numbered if new, its id is written into the row, and the row invariant extends by one entry |
| Dfas.DFA.NumberPair | src/dfa.rs:49-57 | a new pair gets id `states_count`, a fresh row and is pushed; it is final iff both components are; the row invariant is kept |
| Dfas.DFA.IsIncludedIn | src/dfa.rs:74-78 | true iff every word this automaton accepts is accepted by `other` |
| Dfas.DFA.Equals | src/dfa.rs:81-83 | true iff the two automata accept the same words (hence symmetric) |
| Nfas.Insert | src/nfa.rs:23-26 | the row gains target `p` on `c`, every other entry unchanged (a missing entry counts as empty) |
| Nfas.NextStates | src/nfa.rs:44-49 | the successors of `q` on `c` are the row's entry for `c`, and no state at all when the row has no entry for `c` |
| Nfas.NextStatesMult | src/nfa.rs:51-57 | the result is the union of the successors on `c` of the states of the set |
| Nfas.PrefixEdge | src/nfa.rs:21-27 | each prefix `p` adds the edge initial → `p` on `chars[p]` |
| Nfas.FactorEdge | src/nfa.rs:33-36 | each factor `(a, b)` adds the edge `a` → `b` on `chars[b]` |
| Nfas.EdgesDone | src/nfa.rs:21-36 | after both loops the edges are exactly those from prefixes and factors |
| Nfas.FromLocalLanguage | src/nfa.rs:14-42 | `|chars|+1` rows, initial `|chars|`, finals = suffixes plus initial iff the empty word is accepted, edges exactly from prefixes and factors, every target in range |
| Nfas.ReachToWalk | src/nfa.rs:21-36 | a state reached on a nonempty word ends a walk of prefix-then-factors spelling it |
| Nfas.WalkToReach | src/nfa.rs:21-36 | the end of such a walk is reached on the word it spells |
| Nfas.GlushkovAccepts | src/nfa.rs:14-42 | the automaton accepts exactly the words spelt by words of the local language |
| Nfas.ContainsFinal | src/nfa.rs:94-98 | true iff the set holds an accepting state |
| Nfas.SetStepsInside | src/nfa.rs:90-101 | every subset met is drawn from the states `0..=|chars|` |
| Nfas.SetTrace | src/nfa.rs:86-88 | the subset step from `{initial}` follows the automaton along the word |
| Nfas.Determinize | src/nfa.rs:60-115 | the result is a determinization: id 0 is `{initial}`, rows follow `next_states_mult` on `'a'+i`, subsets are distinct, a state is final iff its subset holds an accepting state |
| Nfas.DetNext | src/nfa.rs:84-107 | one pass of the outer loop: the popped subset's row is filled for all 26 letters, the exploration invariant is kept with that subset's id processed, and the loop measure decreases |
| Nfas.DetEntry | src/nfa.rs:86-105 | one letter: the successor subset is computed, numbered if new, and its id written into the row; the row invariant extends by one entry |
| Nfas.NumberSubset | src/nfa.rs:90-102 | a new subset gets id `states_count`, a fresh row and is pushed; it is final iff it holds an accepting state; the row invariant is kept |
| Nfas.DeterminizationAccepts | src/nfa.rs:59-115 | the deterministic automaton accepts a word of letters iff the nondeterministic one does |
| Nfas.DeterminizationStatesBound | src/nfa.rs:90-101 | at most `2^k` states for `k` automaton states |
| RegexEquivalence.DfaFromRegex | src/lib.rs:10-15 | a valid automaton accepting exactly the letter words the expression matches |
| RegexEquivalence.IsEquivalent | src/lib.rs:17-20 | true iff the two expressions match the same words over the 26 letters |
| RegexEquivalence.EquivalentSymmetric | src/lib.rs:18-20 | the answer does not depend on the order of the arguments |
| RegexEquivalence.EquivalentReflexive | src/lib.rs:17-20 | every expression is equivalent to itself |
| RegexEquivalence.EquivalentTransitive | src/lib.rs:17-20 | two expressions equivalent to a third are equivalent to each other |
| RegexEquivalence.StarAbsorbsOptional | src/lib.rs:29-35 | `Star(a)` and `Concatenation(Optional(a), Star(a))` match the same words, for every `a` |
| RegexEquivalence.StarOfLetterEquivalent | src/lib.rs:29-35 | the first sample pair is equivalent |
| RegexEquivalence.AlternativeCommutes | src/lib.rs:36-39 | `Alternative(a, b)` is equivalent to `Alternative(b, a)` |
| RegexEquivalence.StarNotPlus | src/lib.rs:44-50 | `Star('a')` is not equivalent to `Concatenation('a', Star('a'))`: the empty word tells them apart |
| RegexEquivalence.StarOfAlternativeNotAlternativeOfStars | src/lib.rs:51-60 | `Star('a'|'b')` is not equivalent to `Star('a')|Star('a')`: the word "b" tells them apart |
| RegexEquivalence.EpsilonNotOptional | src/regex.rs:7-14 | `Epsilon` is not equivalent to `Optional('a')`: the word "a" tells them apart |

## Left out

- Ownership: `Box` and moves are not modelled, and neither are the derived `Debug`/`PartialEq` implementations. Values are Dafny datatypes. The objects that change in place are classes. A `DFA` passed by value and then changed is modelled as a fresh copy (`Dfas.DFA.Clone`): `IsIncludedIn` complements a copy of its argument, which also stands for the `clone` in `equals`.
- LocalLanguages.LocalLanguage.Concatenation and LocalLanguages.LocalLanguage.Either: these take the consumed operand as a `Summary` value. In the source the argument is moved in and dropped, so it can never alias `self` and is not used afterwards.
- Hash maps, hash sets and ordered sets: these are Dafny `map` and `set`. The order in which `next_states_mult` and the finals loop visit a set is not modelled. Neither result depends on that order.
- Characters other than `a`–`z` in a `Terminal`: the model accepts any `char`. The automata only read the 26 letters, as `determinize` does, and correctness is stated over words of those letters. Two expressions that differ only on other characters are therefore reported as equivalent, as in the source.
- The ε glyph is modelled as the single character U+03B5. Its byte encoding in the source file is not modelled.
- The `#[cfg(test)]` harness: its four assertions (two equivalent pairs, two non-equivalent pairs) are stated as lemmas about `Equivalent`. `EpsilonNotOptional` is an extra check based on the meaning of `Epsilon` and `Optional` given in the comments of `src/regex.rs`.
- Dfas.DFA.Intersection, Dfas.DFA.IsIncludedIn, Dfas.DFA.Equals: these require complete, well-formed automata (`Valid`). The source does not check these conditions. It panics when the initial state or a reachable table entry has no row. It silently accepts automata that break only the other conditions (accepting states outside `0..states_count`, a row count different from `states_count`), and the model does not describe that case. Every automaton the pipeline builds is valid (`Nfas.Determinize`, `RegexEquivalence.DfaFromRegex`).
- Nfas.FromLocalLanguage: requires every prefix and the second position of every factor to be below `|chars|`, and the first position of every factor to be at most `|chars|`. These are exactly the cases where the source panics on an index (`chars[prefixe]`, `chars[b]`, `transitions[a]`). Suffixes are not constrained: like the source, the model copies them into the finals as they are. Its only caller passes the output of `from_regex`, which is in range (`LocalLanguages.FromRegex`).
- Nfas.Determinize and Dfas.DFA.Intersection: these do not return the id map. Their contracts state its content through the distinct labels and the table instead.
- Performance: time and memory are not modelled. The state counts are only bounded (`|a|·|b|` and `2^k`).
