# Aho-Corasick automaton (src/lib.rs) in Dafny

This project models the Aho-Corasick automaton of `src/lib.rs` and proves
it correct against a word-level specification.

The automaton keeps its states in one growable sequence. Index 0 is a
sentinel and is never a live state. Index 1 is the root.

Each `State` has three parts:
- `out`: the pattern indices it reports;
- `fail`: its failure link;
- `goto`: a 256-entry transition table, where the entry 0 means "no transition".

Building the automaton has four steps:
1. Trie insertion walks each pattern from the root, appending a state wherever a transition is missing. It then pushes the pattern's index onto the state where the walk ends.
2. The root fix-up turns the root's 0 entries into self-transitions.
3. The failure pass is a FIFO breadth-first walk over the trie. It is seeded with the root's children. For each child `u` of a dequeued state, it walks the failure chain from the parent's failure link to the first state with a transition on the same byte. That target becomes `u`'s failure link, and its `out` is appended to `u`'s.
4. `find` scans a text byte by byte, using the same failure-chain walk. It returns the `out` of the first state it enters whose `out` is non-empty, or `[]`.

Files:

- `Matching.dfy` (module `Matching`) holds the specification, stated on byte strings alone:
  - `IsPathOf`: the trie paths of a pattern list;
  - `Longest`: the longest suffix of a word that is a trie path;
  - `FailWord`: the failure word of a path;
  - `OutSeq`: the exact `out` sequence the completed automaton holds at a path;
  - `MatchAt`: what is held after reading a prefix of the text;
  - `Scan`: the first-match scan.
- `AhoCorasick.dfy` (module `AhoCorasick`) holds the code itself:
  - the `State` datatype, with `NewState` (State::new) and `Goto` (State::goto);
  - the class `Automaton`, with fields `pats` and `states` and the methods `constructor`, `Build`, `AddState`, `Fill` and `Find`;
  - the class `Builder`.

  The methods are imperative, as in the source: `for` and `while` loops over `states`, updated in place. Two ghost fields support the proofs: `word`, the path each state spells, and `parent`, the state it hangs from.

  The main results:
  - After construction every failure link targets the state that spells `FailWord`, and every `out` equals `OutSeq`.
  - `Find` returns exactly `Scan(pats, text, 0)`.
- `Scenarios.dfy` (module `Scenarios`) works through concrete examples:
  - the source's own example, "he", "she", "his", "hers" scanned over "but she said", gives `[1, 0]`;
  - a duplicated pattern;
  - "a" and "aa" scanned over "aaa";
  - the empty text;
  - the empty pattern.

Higher-level lemmas give the specification functions their meaning:
- `MatchAtMeaning`: after reading `t`, pattern `i` is held exactly when it is a suffix of `t`. The exception is an empty pattern, which is held only when the last byte read starts no pattern.
- `ScanSilent` and `ScanFirst`: `Scan` returns the output of the shortest prefix whose output is non-empty, and `[]` when there is none.

One behaviour of the code deserves a note: where an empty pattern is reported.
- The empty pattern's index lands in the root's `out`.
- The failure pass merges the root's `out` into every state of depth 2 or more whose failure link is the root.
- It never merges it into the depth-one states it starts from.

The model follows the code here, and `Scenarios.EmptyPatternQuirk` shows the consequence.

## Model

| member | source | states |
|---|---|---|
| AhoCorasick.NewState | src/lib.rs:124-130 | a fresh state has empty `out`, failure link 1 and 256 entries, all 0 |
| AhoCorasick.Goto | src/lib.rs:132-135 | the transition is `None` exactly when the entry is 0, and otherwise `Some` of the entry |
| AhoCorasick.NewStateHasNoTransition | src/lib.rs:124-135 | a fresh state has no transition on any byte |
| AhoCorasick.Automaton.constructor | src/lib.rs:47-53 | the new automaton is complete (trie, root total, every failure link and `out` final), its `pats` are the patterns given, and it has at most 2 + total pattern length states |
| AhoCorasick.Automaton.Build | src/lib.rs:55-77 | starting from the sentinel alone: insertion, fix-up, recording the patterns and the failure pass give a complete automaton over `pats` with at most 2 + total pattern length states |
| AhoCorasick.Automaton.AddState | src/lib.rs:102-106 | returns the old length and appends exactly the given state; earlier states and the other fields are unchanged |
| AhoCorasick.Automaton.InsertAll | src/lib.rs:55-68 | after insertion the states form a trie holding exactly the prefixes of the patterns; every entry is 0 or a valid index; no entry names the root; every state holds exactly the indices of the patterns equal to its word, in order; there are at most 2 + total pattern length states; each pattern leads from the root to a state whose `out` contains its index |
| AhoCorasick.Automaton.InsertPattern | src/lib.rs:57-67 | inserting one pattern keeps the trie, adds exactly the pattern's prefixes, grows the state count by at most the pattern's length, and adds its index at the end of the `out` of the state spelling it |
| AhoCorasick.Automaton.Descend | src/lib.rs:59-66 | one byte of the walk: when previ has a transition on the byte it returns that entry and changes nothing; otherwise it returns the old length, the states become the old ones with a fresh state appended and previ's entry on the byte set to it, and nothing else changes; either way the result spells the pattern's next prefix |
| AhoCorasick.PatternsInserted | src/lib.rs:56-68 | in the trie built, every pattern leads from the root to a state whose `out` holds its index, so identical patterns share a state that holds both indices |
| AhoCorasick.Automaton.CloseRoot | src/lib.rs:69-73 | every 0 entry of the root becomes 1, nonzero entries and all other states are unchanged |
| AhoCorasick.CloseRootTree | src/lib.rs:69-73 | the fix-up keeps the trie and its paths, and afterwards no root entry is 0 |
| AhoCorasick.Automaton.Next | src/lib.rs:88-91 | the failure-chain walk from a state on a byte terminates, and the transition taken reaches the state spelling the longest trie suffix of that state's word followed by the byte |
| AhoCorasick.WalkStep | src/lib.rs:88-90 | one step of the walk moves to a strictly shallower state and does not change the answer sought |
| AhoCorasick.WalkExit | src/lib.rs:88-91 | where the walk stops, the transition (possibly a root self-loop) is the longest trie suffix of the word followed by the byte |
| AhoCorasick.Automaton.Fill | src/lib.rs:78-100 | the failure pass completes the automaton: every failure link is a valid index targeting the state spelling the failure word, every `out` is `OutSeq` of its word, the `goto` tables and the root are unchanged |
| AhoCorasick.Automaton.Seed | src/lib.rs:80-82 | the seeded queue is the root's entries other than the root itself, in byte order |
| AhoCorasick.RootKidsShape | src/lib.rs:80-82 | the seeded queue holds each child of the root at depth one exactly once, and nothing else |
| AhoCorasick.FillStart | src/lib.rs:80-82 | after seeding, the depth-one states are the resolved ones and the queue is in breadth-first order |
| AhoCorasick.Automaton.Propagate | src/lib.rs:83-98 | the queue loop terminates and leaves every state below the root resolved, with the trie unchanged |
| AhoCorasick.Automaton.FillChildren | src/lib.rs:84-97 | visiting all 256 bytes of the dequeued state puts each of its children on the queue and resolves it, and the queue stays in breadth-first order |
| AhoCorasick.Automaton.VisitChild | src/lib.rs:85-87 | a non-zero entry is pushed onto the queue and resolved, and the queue stays in breadth-first order |
| AhoCorasick.Automaton.ResolveChild | src/lib.rs:88-95 | only the child `u` changes: its failure link is a valid index spelling `FailWord` of its word, and its new `out` is its old `out` followed by the target's `out` |
| AhoCorasick.BfsPop | src/lib.rs:83 | taking the head off a breadth-first queue keeps the depth ordering and the bookkeeping of which states are resolved |
| AhoCorasick.QueuedPush | src/lib.rs:85-87 | the child pushed is a new, unresolved state one level deeper than its parent, and the queue stays in breadth-first order |
| AhoCorasick.QueuedClose | src/lib.rs:84-97 | after all 256 bytes, every child of the dequeued state is on the queue or resolved |
| AhoCorasick.BfsDone | src/lib.rs:83-98 | when the queue is empty, every state below the root has been reached |
| AhoCorasick.ResolveStep | src/lib.rs:91-95 | resolving a child whose parent and shallower states are final makes it final and changes no other state |
| AhoCorasick.FillStep | src/lib.rs:91-95 | the failure target's `out` is already final, so appending it makes the child's `out` equal to `OutSeq` |
| AhoCorasick.PatternsReported | src/lib.rs:56-100 | in the completed automaton every pattern still leads to a state that reports it |
| AhoCorasick.CompleteShape | src/lib.rs:88-95 | in the completed automaton failure links lead to strictly shallower states, and no state reports an index twice |
| AhoCorasick.Automaton.Find | src/lib.rs:108-120 | `find` modifies nothing and returns the output of the first state entered whose output is non-empty, or `[]`, as `Scan` defines |
| AhoCorasick.ScanOut | src/lib.rs:115-117 | the state the scan is in after a prefix holds exactly `MatchAt` of that prefix |
| AhoCorasick.Builder.constructor | src/lib.rs:16-18 | a new builder has no pattern |
| AhoCorasick.Builder.Add | src/lib.rs:20-23 | adding appends the pattern at the end |
| AhoCorasick.Builder.Build | src/lib.rs:25-27 | builds a fresh, complete automaton over the patterns added, in order |
| Matching.EndsMembers | src/lib.rs:67 | the insertion step holds exactly the indices of the patterns equal to the state's word |
| Matching.EndsIncreasing | src/lib.rs:56-67 | those indices are strictly increasing, so duplicates keep distinct indices in order |
| Matching.PathOfIff | src/lib.rs:57-66 | the trie paths are the empty word and the prefixes of the patterns |
| Matching.LongestIsLongest | src/lib.rs:88-91 | every suffix of a word that is a trie path is a suffix of `Longest` of the word |
| Matching.LongestSnoc | src/lib.rs:110-117 | the scan's next state only depends on its current state and the byte read |
| Matching.FailWordSnoc | src/lib.rs:88-92 | a child's failure word is found from its parent's failure word, and is no longer than the parent |
| Matching.LongestMiss | src/lib.rs:88-90 | following a failure link when the transition is missing does not change the answer |
| Matching.OutSeqBound | src/lib.rs:92-95 | only pattern indices are ever held |
| Matching.OutSeqMembers | src/lib.rs:80-95 | a pattern is held at a path exactly when it is a suffix of it, except that the empty pattern is not held at depth-one states or at paths whose last byte starts a pattern |
| Matching.OutSeqDistinct | src/lib.rs:92-95 | merging along failure links never holds an index twice |
| Matching.MatchAtMeaning | src/lib.rs:108-120 | after reading a prefix, the scan holds exactly the patterns ending there (with the empty-pattern exception) |
| Matching.MatchAtEmpty | src/lib.rs:115-117 | nothing is held after a prefix exactly when no pattern ends there |
| Matching.ScanSilent | src/lib.rs:108-120 | the scan returns `[]` exactly when no prefix has an output |
| Matching.ScanFirst | src/lib.rs:108-120 | a non-empty result is the output of the shortest prefix that has one |
| Scenarios.SheHoldsSheThenHe | src/lib.rs:92-95 | for he/she/his/hers, the state spelling "she" holds `[1, 0]` |
| Scenarios.SaidScan | src/lib.rs:182-185 | for he/she/his/hers, the scan of "but she said" returns `[1, 0]`, at "but she" |
| Scenarios.FindInSaid | src/lib.rs:182-185 | the builder chain of the source's example, then `find` on "but she said", returns `[1, 0]` |
| Scenarios.FindInEmptyText | src/lib.rs:108-120 | on any automaton, `find` on the empty text returns `[]` |
| Scenarios.DuplicatesKept | src/lib.rs:56-67 | two identical patterns are both held, under indices 0 and 1 |
| Scenarios.ShortestFirst | src/lib.rs:113-117 | with "a" and "aa", scanning "aaa" stops after the first byte with `[0]` |
| Scenarios.EmptyPatternQuirk | src/lib.rs:80-82 | an empty pattern is reported after a byte that starts no pattern, but not after one that does |

## Left out

- The `fmt::Debug` impls, `State::debug` and `dense_goto_string` (src/lib.rs:139-174): these only format strings.
- The `println!` calls of the `scratch` test (src/lib.rs:180-186): these are output only. Its patterns and text are the example in `Scenarios.FindInSaid`.
- `String` and UTF-8: patterns and texts are byte sequences (`seq<Byte>`), which stand in for `as_bytes()`.
- `VecDeque`: the queue is a `seq<nat>` used first in, first out. `push_front` is an append at the end, and `pop_back` takes `q[0]`.
- Machine integers: indices are unbounded `nat`s, since the source never performs arithmetic on them that could wrap.
- Running time and memory: allocation failure and complexity are not modelled.
- Builder.Add: Rust's `add` consumes the builder and returns it; the model appends to the builder in place, which has the same effect on the pattern list.
- Automaton.Fill, Automaton.Build: the source's `fill` and `build` are single functions. The model splits them into the methods `Seed`, `Propagate`, `FillChildren`, `VisitChild`, `ResolveChild` and `Next`, and `InsertAll`, `InsertPattern`, `Descend` and `CloseRoot`. The statements and their order are unchanged.
- Automaton.Find: the result is stated through the reference function `Scan`, and `ScanSilent`, `ScanFirst` and `MatchAtMeaning` give it its meaning. `Find` "reads no further bytes" is captured by the `return` inside the loop, not by a contract.
