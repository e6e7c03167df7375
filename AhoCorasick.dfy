/** The Aho-Corasick automaton of src/lib.rs: states in one growable
    sequence, index 0 a sentinel that is never a live state, the root at
    index 1; trie construction, the root fix-up, the breadth-first
    failure-link pass and the first-match scan. */
module AhoCorasick {
  import opened Matching

  datatype Option<T> = None | Some(value: T)

  /** Index of the root state; index 0 is the "no state" sentinel. */
  const Root: nat := 1

  /** One automaton node: the pattern indices it reports, its failure link
      and its transition table indexed by byte (0 means "no transition"). */
  datatype State = State(out: seq<nat>, fail: nat, goto: seq<nat>)

  /** A fresh state: reports nothing, fails to the root, has no transition. */
  function NewState(): (s: State)
    ensures s.out == [] && s.fail == Root && |s.goto| == 256
    ensures forall c: Byte :: s.goto[c] == 0
  {
    State([], Root, seq(256, _ => 0))
  }

  /** The transition of s on b, absent exactly when the entry is 0. */
  function Goto(s: State, b: Byte): (r: Option<nat>)
    requires |s.goto| == 256
    ensures r == None <==> s.goto[b] == 0
    ensures r != None ==> r.value == s.goto[b] && r.value != 0
  {
    var i := s.goto[b];
    if i == 0 then None else Some(i)
  }

  /** A fresh state has no transition at all. */
  lemma NewStateHasNoTransition(b: Byte)
    ensures Goto(NewState(), b) == None
  {
  }

  // ---------------------------------------------------------------------
  // Following trie edges

  /** The trie child of state s on byte c: its goto entry when that names
      a live state other than the root, 0 otherwise. The root's
      self-transitions added by the fix-up are not trie edges. */
  function Child(states: seq<State>, s: nat, c: Byte): nat
  {
    if 1 <= s < |states| && |states[s].goto| == 256 && 2 <= states[s].goto[c] < |states|
    then states[s].goto[c] else 0
  }

  /** The state reached by following trie edges from the root over y, or 0
      when y leaves the trie. */
  function Lookup(states: seq<State>, y: Word): nat
    decreases |y|
  {
    if y == [] then Root else Child(states, Lookup(states, y[..|y| - 1]), y[|y| - 1])
  }

  /** There are a sentinel and a root, every state has a full table, and
      every entry and every failure link is a valid index. */
  ghost predicate WellFormed(states: seq<State>)
  {
    && |states| >= 2
    && (forall s :: 0 <= s < |states| ==> |states[s].goto| == 256 && 1 <= states[s].fail < |states|)
    && (forall s, c: Byte :: 0 <= s < |states| ==> states[s].goto[c] < |states|)
  }

  /** word[s] is the path spelled from the root to s: empty for the root,
      non-empty below it. */
  ghost predicate Labels(states: seq<State>, word: seq<Word>)
  {
    && |states| >= 2 && |word| == |states|
    && word[Root] == []
    && (forall s :: 2 <= s < |states| ==> |word[s]| >= 1)
  }

  /** parent[s] is the state s hangs from: every state below the root is
      the target of the edge from its parent on the last byte of its word. */
  ghost predicate Parents(states: seq<State>, word: seq<Word>, parent: seq<nat>)
  {
    && WellFormed(states) && Labels(states, word) && |parent| == |states|
    && (forall s {:trigger parent[s]} :: 2 <= s < |states| ==>
          && 1 <= parent[s] < |states|
          && word[s] == word[parent[s]] + [word[s][|word[s]| - 1]]
          && states[parent[s]].goto[word[s][|word[s]| - 1]] == s)
  }

  /** Every entry naming a state below the root is a trie edge: the target
      spells the source's word followed by the byte. */
  ghost predicate Edges(states: seq<State>, word: seq<Word>)
  {
    && WellFormed(states) && |word| == |states|
    && (forall s, c: Byte {:trigger states[s].goto[c]} :: 1 <= s < |states| && states[s].goto[c] >= 2 ==>
          word[states[s].goto[c]] == word[s] + [c])
  }

  /** Only the root may have entries naming the root. */
  ghost predicate NonRootEdges(states: seq<State>)
  {
    && WellFormed(states)
    && (forall s, c: Byte :: 2 <= s < |states| ==> states[s].goto[c] != Root)
  }

  /** Following word[s] from the root leads back to s. */
  ghost predicate Spelled(states: seq<State>, word: seq<Word>)
  {
    && |word| == |states|
    && (forall s {:trigger Lookup(states, word[s])} :: 1 <= s < |states| ==> Lookup(states, word[s]) == s)
  }

  /** The states form a trie. */
  ghost predicate Tree(states: seq<State>, word: seq<Word>, parent: seq<nat>)
  {
    && WellFormed(states)
    && Labels(states, word)
    && Parents(states, word, parent)
    && Edges(states, word)
    && NonRootEdges(states)
    && Spelled(states, word)
  }

  /** Before the fix-up no entry names the root. */
  ghost predicate RootOpen(states: seq<State>)
    requires WellFormed(states)
  {
    forall c: Byte :: states[Root].goto[c] != Root
  }

  /** After the fix-up the root has a transition on every byte. */
  ghost predicate RootTotal(states: seq<State>)
    requires WellFormed(states)
  {
    forall c: Byte :: states[Root].goto[c] != 0
  }

  /** The trie holds exactly the paths of the patterns. */
  ghost predicate Paths(states: seq<State>, pats: seq<Word>)
  {
    forall y {:trigger Lookup(states, y)} :: IsPathOf(pats, y) <==> Lookup(states, y) != 0
  }

  /** State s (not the root) has its final failure link and output. */
  ghost predicate Resolved(states: seq<State>, word: seq<Word>, pats: seq<Word>, s: int)
  {
    && 2 <= s < |states| && |word| == |states| && |word[s]| >= 1 && states[s].fail < |states|
    && word[states[s].fail] == FailWord(pats, word[s])
    && states[s].out == OutSeq(pats, word[s])
  }

  /** State s is as the trie builder left it. */
  ghost predicate Pristine(states: seq<State>, word: seq<Word>, pats: seq<Word>, s: int)
  {
    && 0 <= s < |states| && |word| == |states|
    && states[s].fail == Root
    && states[s].out == Ends(pats, word[s])
  }

  /** Every failure link and every output is final. */
  ghost predicate Complete(states: seq<State>, word: seq<Word>, pats: seq<Word>)
  {
    && |states| >= 2
    && Pristine(states, word, pats, Root)
    && forall s :: 2 <= s < |states| ==> Resolved(states, word, pats, s)
  }

  /** Midway through the failure pass: the states in reached are resolved,
      the others are as the builder left them. */
  ghost predicate Resolving(states: seq<State>, word: seq<Word>, pats: seq<Word>, reached: set<nat>)
  {
    && |states| >= 2 && Pristine(states, word, pats, Root)
    && (forall s :: s in reached ==> 2 <= s < |states|)
    && (forall s :: 2 <= s < |states| ==>
          (s in reached ==> Resolved(states, word, pats, s)) &&
          (s !in reached ==> Pristine(states, word, pats, s)))
  }

  // ---------------------------------------------------------------------
  // Lemmas about the trie

  /** The state found by following y spells y. */
  lemma {:induction false} LookupWord(states: seq<State>, word: seq<Word>, y: Word)
    requires Edges(states, word) && word[Root] == []
    requires Lookup(states, y) != 0
    ensures 1 <= Lookup(states, y) < |states| && word[Lookup(states, y)] == y
    decreases |y|
  {
    if y != [] {
      var y0 := y[..|y| - 1];
      LookupWord(states, word, y0);
      assert y == y0 + [y[|y| - 1]];
    }
  }

  /** Following a path one byte further is one trie step. */
  lemma LookupSnoc(states: seq<State>, y: Word, c: Byte)
    ensures Lookup(states, y + [c]) == Child(states, Lookup(states, y), c)
  {
    assert (y + [c])[..|y|] == y;
  }

  /** Lookup only depends on the trie edges. */
  lemma {:induction false} LookupFrame(st1: seq<State>, st2: seq<State>, y: Word)
    requires forall s: nat, c: Byte :: Child(st1, s, c) == Child(st2, s, c)
    ensures Lookup(st1, y) == Lookup(st2, y)
    decreases |y|
  {
    if y != [] {
      LookupFrame(st1, st2, y[..|y| - 1]);
    }
  }

  /** st2 has the states and transitions of st1; only outputs and failure
      links (still valid indices) may differ. */
  ghost predicate SameTrie(st1: seq<State>, st2: seq<State>)
  {
    && |st2| == |st1|
    && forall s :: 0 <= s < |st1| ==> st2[s].goto == st1[s].goto && 1 <= st2[s].fail < |st1|
  }

  /** Changing only outputs and failure links keeps the trie. */
  lemma SameEdges(st1: seq<State>, st2: seq<State>, word: seq<Word>, parent: seq<nat>, pats: seq<Word>)
    requires Tree(st1, word, parent) && SameTrie(st1, st2)
    ensures Tree(st2, word, parent)
    ensures RootTotal(st1) ==> RootTotal(st2)
    ensures RootOpen(st1) ==> RootOpen(st2)
    ensures Paths(st1, pats) ==> Paths(st2, pats)
  {
    forall y ensures Lookup(st2, y) == Lookup(st1, y) {
      LookupFrame(st1, st2, y);
    }
  }

  /** The sequence after appending a fresh state and writing an edge to it
      from previ on byte b. */
  function Grow(states: seq<State>, previ: nat, b: Byte): seq<State>
    requires previ < |states| && |states[previ].goto| == 256
  {
    var grown := states + [NewState()];
    grown[previ := grown[previ].(goto := grown[previ].goto[b := |states|])]
  }

  /** Growing adds exactly the path word[previ] + [b] to the trie. */
  lemma {:induction false} LookupAfterGrow(states: seq<State>, word: seq<Word>, previ: nat, b: Byte, y: Word)
    requires Edges(states, word) && word[Root] == []
    requires 1 <= previ < |states| && states[previ].goto[b] == 0 && Lookup(states, word[previ]) == previ
    ensures Lookup(Grow(states, previ, b), y) ==
            if y == word[previ] + [b] then |states| else Lookup(states, y)
    decreases |y|
  {
    var st := Grow(states, previ, b);
    var w := word[previ] + [b];
    LookupSnoc(states, word[previ], b);
    if y != [] {
      var y0 := y[..|y| - 1];
      var c := y[|y| - 1];
      assert y == y0 + [c];
      LookupAfterGrow(states, word, previ, b, y0);
      var s := Lookup(states, y0);
      if y0 != w {
        if s != 0 {
          LookupWord(states, word, y0);
        }
      }
    }
  }

  /** Growing keeps every table full and every index valid. */
  lemma GrowWellFormed(states: seq<State>, previ: nat, b: Byte, st: seq<State>)
    requires WellFormed(states) && 1 <= previ < |states| && st == Grow(states, previ, b)
    ensures WellFormed(st)
  {
    var n := |states|;
    forall s | 0 <= s < |st|
      ensures |st[s].goto| == 256 && 1 <= st[s].fail < |st|
    {
      if s < n {
        assert st[s].fail == states[s].fail;
      }
    }
    forall s, c: Byte | 0 <= s < |st|
      ensures st[s].goto[c] < |st|
    {
      if s < n && !(s == previ && c == b) {
        assert st[s].goto[c] == states[s].goto[c];
      }
    }
  }

  /** Growing keeps the parent links, the new state hanging from previ. */
  lemma GrowParents(states: seq<State>, word: seq<Word>, parent: seq<nat>, previ: nat, b: Byte,
                    st: seq<State>, word': seq<Word>, parent': seq<nat>)
    requires Parents(states, word, parent) && 1 <= previ < |states| && states[previ].goto[b] == 0
    requires st == Grow(states, previ, b) && word' == word + [word[previ] + [b]] && parent' == parent + [previ]
    requires WellFormed(st)
    ensures Parents(st, word', parent')
  {
    var n := |states|;
    var w := word[previ] + [b];
    forall s | 2 <= s < |st|
      ensures |word'[s]| >= 1
    {
    }
    forall s | 2 <= s < |st|
      ensures 1 <= parent'[s] < |st|
      ensures word'[s] == word'[parent'[s]] + [word'[s][|word'[s]| - 1]]
      ensures st[parent'[s]].goto[word'[s][|word'[s]| - 1]] == s
    {
      if s < n {
        var p := parent[s];
        var l := word[s][|word[s]| - 1];
        assert parent'[s] == p && word'[s] == word[s] && word'[p] == word[p];
        assert states[p].goto[l] == s;
        if p == previ && l == b {
          assert false;
        }
        assert st[p].goto[l] == states[p].goto[l];
      } else {
        assert w[|w| - 1] == b;
      }
    }
  }

  /** Growing adds one trie edge, from previ to the new state. */
  lemma GrowEdges(states: seq<State>, word: seq<Word>, previ: nat, b: Byte, st: seq<State>, word': seq<Word>)
    requires Edges(states, word) && 1 <= previ < |states|
    requires st == Grow(states, previ, b) && word' == word + [word[previ] + [b]]
    requires WellFormed(st)
    ensures Edges(st, word')
  {
    var n := |states|;
    forall s, c: Byte | 1 <= s < |st| && st[s].goto[c] >= 2
      ensures word'[st[s].goto[c]] == word'[s] + [c]
    {
      if s < n && !(s == previ && c == b) {
        assert st[s].goto[c] == states[s].goto[c];
      }
    }
  }

  /** Growing adds no entry naming the root. */
  lemma GrowNonRoot(states: seq<State>, previ: nat, b: Byte, st: seq<State>)
    requires NonRootEdges(states) && RootOpen(states) && 1 <= previ < |states|
    requires st == Grow(states, previ, b) && WellFormed(st)
    ensures NonRootEdges(st) && RootOpen(st)
  {
    var n := |states|;
    forall s, c: Byte | 2 <= s < |st|
      ensures st[s].goto[c] != Root
    {
      if s < n && !(s == previ && c == b) {
        assert st[s].goto[c] == states[s].goto[c];
      }
    }
    forall c: Byte
      ensures st[Root].goto[c] != Root
    {
      if !(previ == Root && c == b) {
        assert st[Root].goto[c] == states[Root].goto[c];
      }
    }
  }

  /** Every state, the new one included, is found by following its word. */
  lemma GrowSpelled(states: seq<State>, word: seq<Word>, parent: seq<nat>, previ: nat, b: Byte,
                    st: seq<State>, word': seq<Word>)
    requires Tree(states, word, parent) && 1 <= previ < |states| && states[previ].goto[b] == 0
    requires st == Grow(states, previ, b) && word' == word + [word[previ] + [b]]
    ensures Spelled(st, word')
  {
    var n := |states|;
    var w := word[previ] + [b];
    LookupSnoc(states, word[previ], b);
    assert Lookup(states, w) == 0;
    forall s | 1 <= s < |st|
      ensures Lookup(st, word'[s]) == s
    {
      if s < n {
        assert word'[s] == word[s];
        assert Lookup(states, word[s]) == s;
        assert word[s] != w;
        LookupAfterGrow(states, word, previ, b, word[s]);
      } else {
        assert word'[s] == w;
        LookupAfterGrow(states, word, previ, b, w);
      }
    }
  }

  /** Growing keeps the trie shape. */
  lemma GrowTree(states: seq<State>, word: seq<Word>, parent: seq<nat>, previ: nat, b: Byte)
    requires Tree(states, word, parent) && RootOpen(states)
    requires 1 <= previ < |states| && states[previ].goto[b] == 0
    ensures Tree(Grow(states, previ, b), word + [word[previ] + [b]], parent + [previ])
    ensures RootOpen(Grow(states, previ, b))
    ensures forall y {:trigger Lookup(Grow(states, previ, b), y)} :: Lookup(Grow(states, previ, b), y) ==
                        if y == word[previ] + [b] then |states| else Lookup(states, y)
  {
    var st := Grow(states, previ, b);
    var w := word[previ] + [b];
    var word' := word + [w];
    var parent' := parent + [previ];
    GrowWellFormed(states, previ, b, st);
    GrowParents(states, word, parent, previ, b, st, word', parent');
    GrowEdges(states, word, previ, b, st, word');
    GrowNonRoot(states, previ, b, st);
    GrowSpelled(states, word, parent, previ, b, st, word');
    forall y {:trigger Lookup(st, y)} ensures Lookup(st, y) == if y == w then |states| else Lookup(states, y) {
      LookupAfterGrow(states, word, previ, b, y);
    }
  }

  /** Walking one byte further along a pattern, whether over an existing
      edge or a new one, extends the set of trie paths by exactly the
      prefix reached. */
  lemma PrefixStep(ps: seq<Word>, pat: Word, j: nat, st1: seq<State>, st2: seq<State>)
    requires j < |pat|
    requires forall y {:trigger Lookup(st1, y)} :: IsPathOf(ps, y) || y <= pat[..j] <==> Lookup(st1, y) != 0
    requires forall y {:trigger Lookup(st2, y)} :: y != pat[..j + 1] ==> Lookup(st2, y) == Lookup(st1, y)
    requires Lookup(st2, pat[..j + 1]) != 0
    ensures forall y {:trigger Lookup(st2, y)} :: IsPathOf(ps, y) || y <= pat[..j + 1] <==> Lookup(st2, y) != 0
  {
    assert pat[..j + 1] == pat[..j] + [pat[j]];
    forall y ensures IsPathOf(ps, y) || y <= pat[..j + 1] <==> Lookup(st2, y) != 0 {
      PrefixSnoc(pat[..j], pat[j], y);
    }
  }

  /** One missing edge: appending a fresh state under previ on byte
      pat[j] keeps every insertion invariant and adds exactly pat[..j + 1]
      to the trie paths. */
  lemma InsertEdge(states: seq<State>, word: seq<Word>, parent: seq<nat>, ps: seq<Word>,
                   pat: Word, j: nat, previ: nat,
                   st: seq<State>, word': seq<Word>, parent': seq<nat>)
    requires Tree(states, word, parent) && RootOpen(states)
    requires j < |pat| && 1 <= previ < |states| && word[previ] == pat[..j]
    requires states[previ].goto[pat[j]] == 0
    requires forall y {:trigger Lookup(states, y)} :: IsPathOf(ps, y) || y <= pat[..j] <==> Lookup(states, y) != 0
    requires forall s :: 1 <= s < |states| ==> Pristine(states, word, ps, s)
    requires st == Grow(states, previ, pat[j]) && word' == word + [pat[..j + 1]] && parent' == parent + [previ]
    ensures Tree(st, word', parent') && RootOpen(st)
    ensures forall y {:trigger Lookup(st, y)} :: IsPathOf(ps, y) || y <= pat[..j + 1] <==> Lookup(st, y) != 0
    ensures forall s :: 1 <= s < |st| ==> Pristine(st, word', ps, s)
  {
    var b := pat[j];
    var w := word[previ] + [b];
    assert w == pat[..j + 1];
    LookupSnoc(states, word[previ], b);
    assert Lookup(states, w) == 0;
    assert !IsPathOf(ps, w);
    GrowTree(states, word, parent, previ, b);
    assert Lookup(st, w) != 0;
    PrefixStep(ps, pat, j, states, st);
    GrowPristine(states, word, ps, previ, b, st, word');
  }

  /** The fresh state of a missing edge spells no pattern, so it is as the
      builder leaves a state; the other states are unchanged. */
  lemma GrowPristine(states: seq<State>, word: seq<Word>, ps: seq<Word>, previ: nat, b: Byte,
                     st: seq<State>, word': seq<Word>)
    requires 1 <= previ < |states| && |word| == |states| && |states[previ].goto| == 256
    requires !IsPathOf(ps, word[previ] + [b])
    requires forall s :: 1 <= s < |states| ==> Pristine(states, word, ps, s)
    requires st == Grow(states, previ, b) && word' == word + [word[previ] + [b]]
    ensures forall s :: 1 <= s < |st| ==> Pristine(st, word', ps, s)
  {
    OutsideTrieEnds(ps, word[previ] + [b]);
    forall s | 1 <= s < |st|
      ensures Pristine(st, word', ps, s)
    {
      if s < |states| {
        assert Pristine(states, word, ps, s);
        assert word'[s] == word[s];
      }
    }
  }

  /** The end of one pattern: pushing its index onto the state it ends in
      turns the invariants for the first patterns into those for one more. */
  lemma FinishPattern(states: seq<State>, word: seq<Word>, parent: seq<nat>, ps: seq<Word>,
                      pat: Word, previ: nat)
    requires Tree(states, word, parent) && RootOpen(states)
    requires 1 <= previ < |states| && word[previ] == pat
    requires forall y {:trigger Lookup(states, y)} :: IsPathOf(ps, y) || y <= pat <==> Lookup(states, y) != 0
    requires forall s :: 1 <= s < |states| ==> Pristine(states, word, ps, s)
    ensures var st := states[previ := states[previ].(out := states[previ].out + [|ps|])];
            && Tree(st, word, parent) && RootOpen(st) && Paths(st, ps + [pat])
            && forall s :: 1 <= s < |st| ==> Pristine(st, word, ps + [pat], s)
  {
    var st := states[previ := states[previ].(out := states[previ].out + [|ps|])];
    forall y ensures IsPathOf(ps + [pat], y) <==> Lookup(states, y) != 0 {
      PathOfSnoc(ps, pat, y);
    }
    SameEdges(states, st, word, parent, ps + [pat]);
    forall s | 1 <= s < |st|
      ensures Pristine(st, word, ps + [pat], s)
    {
      assert Pristine(states, word, ps, s);
      EndsSnoc(ps, pat, word[s]);
      if word[s] == pat {
        assert Lookup(states, word[s]) == s;
        assert Lookup(states, word[previ]) == previ;
      }
    }
  }

  /** The fix-up keeps the trie shape and makes the root total. */
  lemma CloseRootTree(st1: seq<State>, st2: seq<State>, word: seq<Word>, parent: seq<nat>, pats: seq<Word>)
    requires Tree(st1, word, parent) && RootOpen(st1) && Paths(st1, pats)
    requires |st2| == |st1|
    requires forall s :: 0 <= s < |st1| && s != Root ==> st2[s] == st1[s]
    requires forall s :: 1 <= s < |st1| ==> Pristine(st1, word, pats, s)
    requires |st2[Root].goto| == 256 && st2[Root].fail == st1[Root].fail && st2[Root].out == st1[Root].out
    requires forall c: Byte :: st2[Root].goto[c] == if st1[Root].goto[c] == 0 then Root else st1[Root].goto[c]
    ensures Tree(st2, word, parent) && RootTotal(st2) && Paths(st2, pats)
    ensures forall s :: 1 <= s < |st2| ==> Pristine(st2, word, pats, s)
  {
    forall s | 1 <= s < |st2|
      ensures Pristine(st2, word, pats, s)
    {
      assert Pristine(st1, word, pats, s);
    }
    forall y ensures Lookup(st2, y) == Lookup(st1, y) {
      LookupFrame(st1, st2, y);
    }
  }

  /** One step of a failure-chain walk from a resolved state v. */
  lemma WalkStep(states: seq<State>, word: seq<Word>, pats: seq<Word>, v: nat, c: Byte)
    requires WellFormed(states) && Spelled(states, word) && Paths(states, pats)
    requires 2 <= v < |states| && states[v].goto[c] == 0 && |word[v]| >= 1
    requires word[states[v].fail] == FailWord(pats, word[v])
    ensures Longest(pats, word[v] + [c]) == Longest(pats, word[states[v].fail] + [c])
    ensures |word[states[v].fail]| < |word[v]|
  {
    LookupSnoc(states, word[v], c);
    LongestMiss(pats, word[v], c);
  }

  /** Where a failure-chain walk ends: the transition found is the longest
      trie suffix of word[v] + [c]. */
  lemma WalkExit(states: seq<State>, word: seq<Word>, pats: seq<Word>, v: nat, c: Byte)
    requires Edges(states, word) && NonRootEdges(states) && Spelled(states, word) && word[Root] == []
    requires Paths(states, pats)
    requires 1 <= v < |states| && states[v].goto[c] != 0
    ensures word[states[v].goto[c]] == Longest(pats, word[v] + [c])
  {
    LookupSnoc(states, word[v], c);
    var t := states[v].goto[c];
    if t == Root {
      assert word[v] == [];
      assert word[v] + [c] == [c];
      assert !IsPathOf(pats, [c]);
      assert [c][1..] == [];
    }
  }

  // ---------------------------------------------------------------------
  // The breadth-first queue of the failure pass

  /** Every index in q names a state of depth d or d + 1, shallower ones
      first. */
  ghost predicate Layered(word: seq<Word>, q: seq<nat>, d: nat)
  {
    && (forall i :: 0 <= i < |q| ==> q[i] < |word| && d <= |word[q[i]]| <= d + 1)
    && (forall i, j :: 0 <= i < j < |q| ==> |word[q[i]]| <= |word[q[j]]|)
  }

  /** The trie parent of s has been taken off the queue (the root counts
      as taken). */
  ghost predicate Taken(parent: seq<nat>, popped: set<nat>, s: nat)
    requires s < |parent|
  {
    parent[s] == Root || parent[s] in popped
  }

  /** The trie parent of s has been taken off the queue, or it is si and s
      hangs from it on a byte below c. */
  ghost predicate Below(word: seq<Word>, parent: seq<nat>, popped: set<nat>, si: nat, c: int, s: nat)
    requires s < |word| && s < |parent|
  {
    || Taken(parent, popped, s)
    || (parent[s] == si && |word[s]| >= 1 && word[s][|word[s]| - 1] < c)
  }

  /** The queue between two states taken off it: the states whose parent
      has been taken off the queue (the root counts as taken) are resolved
      and those not taken off the queue yet are on it, each once, in
      breadth-first order, all states no deeper than the queue's head
      being resolved. */
  ghost predicate Bfs(word: seq<Word>, parent: seq<nat>, q: seq<nat>, reached: set<nat>, popped: set<nat>)
  {
    && |parent| == |word|
    && (forall s :: s in reached ==> 2 <= s < |word|)
    && popped <= reached
    && (forall i :: 0 <= i < |q| ==> q[i] in reached && q[i] !in popped)
    && (forall s :: s in reached && s !in popped ==> s in q)
    && (forall i, j :: 0 <= i < j < |q| ==> q[i] != q[j])
    && (forall s :: s in reached ==> Taken(parent, popped, s))
    && (forall s :: 2 <= s < |word| && Taken(parent, popped, s) ==> s in reached)
    && (q != [] ==>
          && Layered(word, q, |word[q[0]]|)
          && forall s :: 2 <= s < |word| && |word[s]| <= |word[q[0]]| ==> s in reached)
  }

  /** The queue while the children of si are visited, those on bytes
      below c done. */
  ghost predicate Queued(word: seq<Word>, parent: seq<nat>, q: seq<nat>, reached: set<nat>, popped: set<nat>,
                         si: nat, c: int)
  {
    && |parent| == |word| && 2 <= si < |word|
    && (forall s :: s in reached ==> 2 <= s < |word|)
    && popped <= reached && si in reached && si !in popped
    && (forall i :: 0 <= i < |q| ==> q[i] in reached && q[i] !in popped && q[i] != si)
    && (forall s :: s in reached && s !in popped && s != si ==> s in q)
    && (forall i, j :: 0 <= i < j < |q| ==> q[i] != q[j])
    && (forall s :: s in reached ==> Below(word, parent, popped, si, c, s))
    && (forall s :: 2 <= s < |word| && Below(word, parent, popped, si, c, s) ==> s in reached)
    && Layered(word, q, |word[si]|)
    && (forall s :: 2 <= s < |word| && |word[s]| <= |word[si]| ==> s in reached)
  }

  /** The seeded queue: the children of the root, reached and resolved. */
  lemma SeedResolved(states: seq<State>, word: seq<Word>, parent: seq<nat>, pats: seq<Word>, reached: set<nat>)
    requires Tree(states, word, parent) && RootTotal(states) && Paths(states, pats)
    requires forall s :: 1 <= s < |states| ==> Pristine(states, word, pats, s)
    requires forall s :: s in reached <==> 2 <= s < |states| && parent[s] == Root
    ensures Resolving(states, word, pats, reached)
  {
    forall s | s in reached
      ensures Resolved(states, word, pats, s)
    {
      assert Pristine(states, word, pats, s);
      assert word[s] == word[Root] + [word[s][|word[s]| - 1]];
      assert word[s][1..] == [];
    }
  }

  /** The children of the root on the bytes below c, in byte order. */
  function RootKids(states: seq<State>, c: nat): (q: seq<nat>)
    requires WellFormed(states) && c <= 256
    ensures |q| <= c
  {
    if c == 0 then []
    else RootKids(states, c - 1) + (if states[Root].goto[c - 1] != Root then [states[Root].goto[c - 1]] else [])
  }

  /** q holds each child of the root on the bytes below c exactly once. */
  ghost predicate Seeded(states: seq<State>, word: seq<Word>, parent: seq<nat>, q: seq<nat>, c: int)
  {
    && |word| == |states| && |parent| == |states|
    && (forall i :: 0 <= i < |q| ==>
          2 <= q[i] < |states| && parent[q[i]] == Root && |word[q[i]]| >= 1 && word[q[i]][0] < c)
    && (forall s :: 2 <= s < |states| && parent[s] == Root && |word[s]| >= 1 && word[s][0] < c ==> s in q)
    && (forall i, j :: 0 <= i < j < |q| ==> q[i] != q[j])
  }

  /** The seeded queue holds each child of the root exactly once. */
  lemma {:induction false} RootKidsShape(states: seq<State>, word: seq<Word>, parent: seq<nat>, c: nat)
    requires Parents(states, word, parent) && Edges(states, word) && Spelled(states, word)
    requires RootTotal(states) && c <= 256
    ensures Seeded(states, word, parent, RootKids(states, c), c)
  {
    if c > 0 {
      RootKidsShape(states, word, parent, c - 1);
      RootChild(states, word, parent, c - 1);
      SeedStep(states, word, parent, RootKids(states, c - 1), c - 1, RootKids(states, c));
    }
  }

  /** The root's child on byte c, if any, is a state below the root hanging
      from it by c, and it is the only one. */
  lemma RootChild(states: seq<State>, word: seq<Word>, parent: seq<nat>, c: Byte)
    requires Parents(states, word, parent) && Edges(states, word) && Spelled(states, word)
    requires RootTotal(states)
    ensures var si := states[Root].goto[c];
            si != Root ==> 2 <= si < |states| && parent[si] == Root && |word[si]| >= 1 && word[si][0] == c
    ensures forall s :: 2 <= s < |states| && parent[s] == Root && |word[s]| >= 1 && word[s][0] == c ==>
              s == states[Root].goto[c]
  {
    var si := states[Root].goto[c];
    if si != Root {
      assert word[si] == [c];
      assert word[parent[si]] == [];
      assert Lookup(states, word[parent[si]]) == parent[si];
    }
    forall s | 2 <= s < |states| && parent[s] == Root && |word[s]| >= 1 && word[s][0] == c
      ensures s == si
    {
      assert word[s] == word[Root] + [word[s][|word[s]| - 1]];
    }
  }

  /** One byte of the seeding loop: q2 is q with the root's child on byte
      c, if any, appended. */
  lemma SeedStep(states: seq<State>, word: seq<Word>, parent: seq<nat>, q: seq<nat>, c: Byte, q2: seq<nat>)
    requires WellFormed(states) && Seeded(states, word, parent, q, c)
    requires var si := states[Root].goto[c];
             si != Root ==> 2 <= si < |states| && parent[si] == Root && |word[si]| >= 1 && word[si][0] == c
    requires forall s :: 2 <= s < |states| && parent[s] == Root && |word[s]| >= 1 && word[s][0] == c ==>
               s == states[Root].goto[c]
    requires q2 == if states[Root].goto[c] != Root then q + [states[Root].goto[c]] else q
    ensures Seeded(states, word, parent, q2, c + 1)
  {
    if states[Root].goto[c] != Root {
      forall i | 0 <= i < |q2|
        ensures 2 <= q2[i] < |states| && parent[q2[i]] == Root && |word[q2[i]]| >= 1 && word[q2[i]][0] < c + 1
      {
        if i < |q| {
          assert q2[i] == q[i];
        }
      }
    }
  }

  /** The start of the failure pass: the children of the root, queued in
      byte order, are resolved. */
  lemma FillStart(states: seq<State>, word: seq<Word>, parent: seq<nat>, pats: seq<Word>,
                  q: seq<nat>, reached: set<nat>)
    requires Tree(states, word, parent) && RootTotal(states) && Paths(states, pats)
    requires forall s :: 1 <= s < |states| ==> Pristine(states, word, pats, s)
    requires q == RootKids(states, 256)
    requires reached == set s: nat | 2 <= s < |states| && parent[s] == Root
    ensures SameTrie(states, states)
    ensures Resolving(states, word, pats, reached) && Bfs(word, parent, q, reached, {})
  {
    RootKidsShape(states, word, parent, 256);
    SeedResolved(states, word, parent, pats, reached);
    BfsStart(states, word, parent, q, reached);
  }

  /** The seeded queue is a breadth-first queue. */
  lemma BfsStart(states: seq<State>, word: seq<Word>, parent: seq<nat>, q: seq<nat>, reached: set<nat>)
    requires Tree(states, word, parent)
    requires Seeded(states, word, parent, q, 256)
    requires forall s :: s in reached <==> 2 <= s < |states| && parent[s] == Root
    ensures Bfs(word, parent, q, reached, {})
  {
    forall i | 0 <= i < |q|
      ensures |word[q[i]]| == 1
    {
      assert parent[q[i]] == Root;
    }
    forall s | 2 <= s < |word| && |word[s]| <= 1
      ensures s in reached
    {
      assert |word[s]| == |word[parent[s]]| + 1;
    }
  }

  /** Taking the head off the queue starts the visit of its children. */
  lemma BfsPop(word: seq<Word>, parent: seq<nat>, q: seq<nat>, reached: set<nat>, popped: set<nat>)
    requires Bfs(word, parent, q, reached, popped) && q != []
    ensures Queued(word, parent, q[1..], reached, popped, q[0], 0)
  {
    var si := q[0];
    var d := |word[si]|;
    forall s | s in reached
      ensures Below(word, parent, popped, si, 0, s)
    {
      assert Taken(parent, popped, s);
    }
    forall s | 2 <= s < |word| && Below(word, parent, popped, si, 0, s)
      ensures s in reached
    {
      assert Taken(parent, popped, s);
    }
    var t := q[1..];
    assert forall i :: 0 <= i < |t| ==> t[i] == q[i + 1];
    forall i | 0 <= i < |t|
      ensures t[i] < |word| && d <= |word[t[i]]| <= d + 1 && t[i] != si
      ensures t[i] in reached && t[i] !in popped
    {
    }
    forall i, j | 0 <= i < j < |t|
      ensures t[i] != t[j] && |word[t[i]]| <= |word[t[j]]|
    {
    }
    forall s | s in reached && s !in popped && s != si
      ensures s in t
    {
      var k :| 0 <= k < |q| && q[k] == s;
      assert t[k - 1] == s;
    }
  }

  /** A byte on which si has no transition: no state hangs from si on it. */
  lemma QueuedSkip(states: seq<State>, word: seq<Word>, parent: seq<nat>, q: seq<nat>, reached: set<nat>,
                   popped: set<nat>, si: nat, c: Byte)
    requires Tree(states, word, parent) && Queued(word, parent, q, reached, popped, si, c)
    requires states[si].goto[c] == 0
    ensures Queued(word, parent, q, reached, popped, si, c + 1)
  {
    forall s | s in reached
      ensures Below(word, parent, popped, si, c + 1, s)
    {
      assert Below(word, parent, popped, si, c, s);
    }
    forall s | 2 <= s < |word| && Below(word, parent, popped, si, c + 1, s)
      ensures s in reached
    {
      assert Below(word, parent, popped, si, c, s);
    }
  }

  /** The child u of si on byte c goes onto the queue and is reached. */
  lemma QueuedPush(states: seq<State>, word: seq<Word>, parent: seq<nat>, q: seq<nat>, reached: set<nat>,
                   popped: set<nat>, si: nat, c: Byte, u: nat)
    requires Tree(states, word, parent) && Queued(word, parent, q, reached, popped, si, c)
    requires u == states[si].goto[c] && u != 0
    ensures 2 <= u < |states| && parent[u] == si && word[u] == word[si] + [c] && u !in reached
    ensures Queued(word, parent, q + [u], reached + {u}, popped, si, c + 1)
  {
    ChildParent(states, word, parent, si, c, u);
    var q' := q + [u];
    var r' := reached + {u};
    forall s | s in r'
      ensures Below(word, parent, popped, si, c + 1, s)
    {
      if s != u {
        assert Below(word, parent, popped, si, c, s);
      }
    }
    forall s | 2 <= s < |word| && Below(word, parent, popped, si, c + 1, s)
      ensures s in r'
    {
      var l := word[s][|word[s]| - 1];
      if parent[s] == si && l == c {
        assert states[si].goto[l] == s;
      } else {
        assert Below(word, parent, popped, si, c, s);
      }
    }
    forall i | 0 <= i < |q'|
      ensures q'[i] in r' && q'[i] !in popped && q'[i] != si
    {
      if i < |q| {
        assert q'[i] == q[i];
      }
    }
    LayeredPush(word, q, |word[si]|, u);
  }

  /** The child of a non-root state on byte c hangs from it in the trie. */
  lemma ChildParent(states: seq<State>, word: seq<Word>, parent: seq<nat>, si: nat, c: Byte, u: nat)
    requires Tree(states, word, parent) && 2 <= si < |states|
    requires u == states[si].goto[c] && u != 0
    ensures 2 <= u < |states| && parent[u] == si && word[u] == word[si] + [c]
  {
    assert u != Root;
    assert word[u] == word[si] + [c];
    assert word[u] == word[parent[u]] + [word[u][|word[u]| - 1]];
    assert word[si] == word[u][..|word[u]| - 1] == word[parent[u]];
    assert Lookup(states, word[parent[u]]) == parent[u];
  }

  /** A state one deeper than d may go at the end of a layered queue. */
  lemma LayeredPush(word: seq<Word>, q: seq<nat>, d: nat, u: nat)
    requires Layered(word, q, d) && u < |word| && |word[u]| == d + 1
    ensures Layered(word, q + [u], d)
  {
    var q' := q + [u];
    forall i, j | 0 <= i < j < |q'|
      ensures |word[q'[i]]| <= |word[q'[j]]|
    {
      if j < |q| {
        assert q'[i] == q[i] && q'[j] == q[j];
      } else {
        assert q'[i] == q[i];
      }
    }
  }

  /** Once all bytes are done, si counts as taken off the queue. */
  lemma QueuedClose(states: seq<State>, word: seq<Word>, parent: seq<nat>, q: seq<nat>, reached: set<nat>,
                    popped: set<nat>, si: nat)
    requires Tree(states, word, parent) && Queued(word, parent, q, reached, popped, si, 256)
    ensures Bfs(word, parent, q, reached, popped + {si})
  {
    var p' := popped + {si};
    var d := |word[si]|;
    forall s | s in reached
      ensures Taken(parent, p', s)
    {
      assert Below(word, parent, popped, si, 256, s);
    }
    forall s | 2 <= s < |word| && Taken(parent, p', s)
      ensures s in reached
    {
      assert Below(word, parent, popped, si, 256, s);
    }
    if q != [] && |word[q[0]]| == d + 1 {
      forall s | 2 <= s < |word| && |word[s]| <= d + 1
        ensures s in reached
      {
        if |word[s]| == d + 1 {
          var p := parent[s];
          assert |word[p]| == d;
          assert p != Root;
          assert p in reached;
          assert Below(word, parent, popped, si, 256, s);
        }
      }
    }
  }

  /** An empty queue: every state has been reached. */
  lemma BfsDone(states: seq<State>, word: seq<Word>, parent: seq<nat>, reached: set<nat>, popped: set<nat>)
    requires Tree(states, word, parent) && Bfs(word, parent, [], reached, popped)
    ensures forall s :: 2 <= s < |states| ==> s in reached
  {
    var n := |states|;
    forall s | 2 <= s < n
      ensures 1 <= parent[s] < n && |word[s]| == |word[parent[s]]| + 1
    {
    }
    forall s | 2 <= s < n && (parent[s] == Root || parent[s] in popped)
      ensures s in reached
    {
      assert Taken(parent, popped, s);
    }
    forall s | 2 <= s < n
      ensures s in reached
    {
      AllReached(word, parent, n, reached, popped, |word[s]|);
    }
  }

  /** Every state is reached once its parent has been taken off the queue,
      so when the queue is empty every state has been reached. */
  lemma {:induction false} AllReached(word: seq<Word>, parent: seq<nat>, n: nat,
                                      reached: set<nat>, popped: set<nat>, k: nat)
    requires |word| == n && |parent| == n
    requires forall s :: 2 <= s < n ==> 1 <= parent[s] < n && |word[s]| == |word[parent[s]]| + 1
    requires forall s :: 2 <= s < n && (parent[s] == Root || parent[s] in popped) ==> s in reached
    requires forall s :: s in reached ==> s in popped
    ensures forall s :: 2 <= s < n && |word[s]| <= k ==> s in reached
    decreases k
  {
    if k > 0 {
      AllReached(word, parent, n, reached, popped, k - 1);
      forall s | 2 <= s < n && |word[s]| <= k
        ensures s in reached
      {
        var p := parent[s];
        if p != Root {
          assert p in reached;
        }
      }
    }
  }

  /** The sentinel and a fresh root form the trie of no patterns. */
  lemma RootOnly(states: seq<State>, word: seq<Word>, parent: seq<nat>)
    requires |states| == 2 && states[0] == NewState() && states[Root] == NewState()
    requires |word| == 2 && word[Root] == [] && |parent| == 2
    ensures Tree(states, word, parent) && RootOpen(states) && Paths(states, [])
    ensures forall s :: 1 <= s < |states| ==> Pristine(states, word, [], s)
  {
    assert forall y :: y != [] ==> Lookup(states, y) == 0;
  }

  /** After trie insertion every pattern leads from the root to a state
      holding its index. */
  lemma PatternsInserted(states: seq<State>, word: seq<Word>, parent: seq<nat>, pats: seq<Word>)
    requires Tree(states, word, parent) && Paths(states, pats)
    requires forall s :: 1 <= s < |states| ==> Pristine(states, word, pats, s)
    ensures forall i :: 0 <= i < |pats| ==>
              Lookup(states, pats[i]) != 0 && i in states[Lookup(states, pats[i])].out
  {
    forall i | 0 <= i < |pats|
      ensures Lookup(states, pats[i]) != 0 && i in states[Lookup(states, pats[i])].out
    {
      PatternIsPath(pats, i);
      LookupWord(states, word, pats[i]);
      EndsMembers(pats, pats[i], i);
      assert Pristine(states, word, pats, Lookup(states, pats[i]));
    }
  }

  /** In a completed automaton every pattern leads from the root to a
      state that reports it. */
  lemma PatternsReported(states: seq<State>, word: seq<Word>, parent: seq<nat>, pats: seq<Word>, i: nat)
    requires Tree(states, word, parent) && Paths(states, pats) && Complete(states, word, pats)
    requires i < |pats|
    ensures Lookup(states, pats[i]) != 0
    ensures i in states[Lookup(states, pats[i])].out
  {
    PatternIsPath(pats, i);
    LookupWord(states, word, pats[i]);
    var s := Lookup(states, pats[i]);
    EndsMembers(pats, pats[i], i);
    if s != Root {
      assert Resolved(states, word, pats, s);
      EndsInOutSeq(pats, word[s], i);
    }
  }

  /** In a completed automaton failure links lead to strictly shallower
      states, and no state reports a pattern twice. */
  lemma CompleteShape(states: seq<State>, word: seq<Word>, parent: seq<nat>, pats: seq<Word>, s: nat)
    requires Tree(states, word, parent) && Paths(states, pats) && Complete(states, word, pats)
    requires 2 <= s < |states|
    ensures |word[states[s].fail]| < |word[s]|
    ensures forall a, b :: 0 <= a < b < |states[s].out| ==> states[s].out[a] != states[s].out[b]
  {
    assert Resolved(states, word, pats, s);
    assert Lookup(states, word[s]) == s;
    OutSeqDistinct(pats, word[s]);
  }

  /** The integers in [lo, hi). */
  ghost function Range(lo: nat, hi: nat): (r: set<nat>)
    decreases hi - lo
    ensures forall s :: s in r <==> lo <= s < hi
  {
    if lo >= hi then {} else {lo} + Range(lo + 1, hi)
  }

  // ---------------------------------------------------------------------
  // The automaton

  class Automaton {
    /** The patterns, in insertion order. */
    var pats: seq<Word>
    /** The states; index 0 is the sentinel, index 1 the root. */
    var states: seq<State>
    /** The path spelled by each state. */
    ghost var word: seq<Word>
    /** The state each state hangs from in the trie. */
    ghost var parent: seq<nat>

    /** The completed automaton. */
    ghost predicate Valid()
      reads this
    {
      && Tree(states, word, parent)
      && RootTotal(states)
      && Paths(states, pats)
      && Complete(states, word, pats)
    }

    /** Automaton::new: the sentinel, then build. */
    constructor (pats: seq<Word>)
      ensures Valid() && this.pats == pats
      ensures |states| <= 2 + TotalLen(pats)
    {
      this.pats := [];
      states := [NewState()];
      word := [[]];
      parent := [0];
      new;
      Build(pats);
    }

    /** Insert the patterns, close the root, record the patterns, fill. */
    method Build(pats: seq<Word>)
      requires states == [NewState()] && |word| == 1 && |parent| == 1
      modifies this
      ensures Valid() && this.pats == pats
      ensures |states| <= 2 + TotalLen(pats)
    {
      InsertAll(pats);
      ghost var inserted := states;
      CloseRoot();
      CloseRootTree(inserted, states, word, parent, pats);
      this.pats := pats;
      Fill();
    }

    /** Append a state; its index is the old length. */
    method AddState(state: State) returns (i: nat)
      modifies this
      ensures i == |old(states)|
      ensures states == old(states) + [state]
      ensures pats == old(pats) && word == old(word) && parent == old(parent)
    {
      i := |states|;
      states := states + [state];
    }

    /** Trie insertion: create the root, then insert the patterns in
        order. */
    method InsertAll(pats: seq<Word>)
      requires states == [NewState()] && |word| == 1 && |parent| == 1
      modifies this
      ensures Tree(states, word, parent) && RootOpen(states)
      ensures Paths(states, pats)
      ensures forall s :: 1 <= s < |states| ==> Pristine(states, word, pats, s)
      ensures |states| <= 2 + TotalLen(pats)
      ensures forall i :: 0 <= i < |pats| ==>
                Lookup(states, pats[i]) != 0 && i in states[Lookup(states, pats[i])].out
      ensures this.pats == old(this.pats)
    {
      var rooti := AddState(NewState());
      word := word + [[]];
      parent := parent + [0];
      RootOnly(states, word, parent);
      assert pats[..0] == [];
      for pati := 0 to |pats|
        invariant Tree(states, word, parent) && RootOpen(states)
        invariant Paths(states, pats[..pati])
        invariant forall s :: 1 <= s < |states| ==> Pristine(states, word, pats[..pati], s)
        invariant |states| <= 2 + TotalLen(pats[..pati])
        invariant this.pats == old(this.pats)
      {
        assert pats[..pati + 1] == pats[..pati] + [pats[pati]];
        TotalLenSnoc(pats[..pati], pats[pati]);
        InsertPattern(pats[pati], pati, pats[..pati]);
      }
      assert pats[..|pats|] == pats;
      PatternsInserted(states, word, parent, pats);
    }

    /** Insert pattern number pati after the patterns ps: walk pat from the
        root, appending a state wherever a transition is missing, and push
        pati onto the state where the walk ends. */
    method InsertPattern(pat: Word, pati: nat, ghost ps: seq<Word>)
      requires Tree(states, word, parent) && RootOpen(states)
      requires Paths(states, ps) && pati == |ps|
      requires forall s :: 1 <= s < |states| ==> Pristine(states, word, ps, s)
      modifies this
      ensures Tree(states, word, parent) && RootOpen(states)
      ensures Paths(states, ps + [pat])
      ensures forall s :: 1 <= s < |states| ==> Pristine(states, word, ps + [pat], s)
      ensures |states| <= |old(states)| + |pat|
      ensures this.pats == old(this.pats)
    {
      var previ := Root;
      EmptyIsPath(ps);
      assert pat[..0] == [];
      for j := 0 to |pat|
        invariant Tree(states, word, parent) && RootOpen(states)
        invariant 1 <= previ < |states| && word[previ] == pat[..j]
        invariant forall y {:trigger Lookup(states, y)} :: IsPathOf(ps, y) || y <= pat[..j] <==> Lookup(states, y) != 0
        invariant forall s :: 1 <= s < |states| ==> Pristine(states, word, ps, s)
        invariant |states| <= |old(states)| + j
        invariant this.pats == old(this.pats)
      {
        previ := Descend(pat, j, previ, ps);
      }
      assert pat[..|pat|] == pat;
      FinishPattern(states, word, parent, ps, pat, previ);
      states := states[previ := states[previ].(out := states[previ].out + [pati])];
    }

    /** One byte of a pattern walk: follow the transition on pat[j] from
        previ, or append a fresh state and make it the target when there is
        none. */
    method Descend(pat: Word, j: nat, previ: nat, ghost ps: seq<Word>) returns (nexti: nat)
      requires Tree(states, word, parent) && RootOpen(states)
      requires j < |pat| && 1 <= previ < |states| && word[previ] == pat[..j]
      requires forall y {:trigger Lookup(states, y)} :: IsPathOf(ps, y) || y <= pat[..j] <==> Lookup(states, y) != 0
      requires forall s :: 1 <= s < |states| ==> Pristine(states, word, ps, s)
      modifies this
      ensures Tree(states, word, parent) && RootOpen(states)
      ensures 1 <= nexti < |states| && word[nexti] == pat[..j + 1]
      ensures forall y {:trigger Lookup(states, y)} :: IsPathOf(ps, y) || y <= pat[..j + 1] <==> Lookup(states, y) != 0
      ensures forall s :: 1 <= s < |states| ==> Pristine(states, word, ps, s)
      ensures old(states[previ].goto[pat[j]]) != 0 ==>
                && nexti == old(states[previ].goto[pat[j]])
                && states == old(states) && word == old(word) && parent == old(parent)
      ensures old(states[previ].goto[pat[j]]) == 0 ==>
                && nexti == |old(states)| && states == Grow(old(states), previ, pat[j])
                && word == old(word) + [pat[..j + 1]] && parent == old(parent) + [previ]
      ensures |states| <= |old(states)| + 1
      ensures this.pats == old(this.pats)
    {
      var b := pat[j];
      assert pat[..j + 1] == pat[..j] + [b];
      LookupSnoc(states, word[previ], b);
      match Goto(states[previ], b)
      case Some(si) =>
        assert word[si] == pat[..j + 1];
        PrefixStep(ps, pat, j, states, states);
        nexti := si;
      case None =>
        ghost var before := states;
        nexti := AddState(NewState());
        states := states[previ := states[previ].(goto := states[previ].goto[b := nexti])];
        assert states == Grow(before, previ, b);
        InsertEdge(before, word, parent, ps, pat, j, previ, states, word + [pat[..j + 1]], parent + [previ]);
        word := word + [pat[..j + 1]];
        parent := parent + [previ];
    }

    /** The root fix-up: every 0 entry of the root becomes 1, the other
        entries and all other states are left alone. */
    method CloseRoot()
      requires WellFormed(states)
      modifies this
      ensures |states| == |old(states)|
      ensures forall s :: 0 <= s < |states| && s != Root ==> states[s] == old(states[s])
      ensures states[Root].out == old(states[Root].out) && states[Root].fail == old(states[Root].fail)
      ensures |states[Root].goto| == 256
      ensures forall c: Byte :: states[Root].goto[c] ==
                if old(states[Root].goto[c]) == 0 then Root else old(states[Root].goto[c])
      ensures pats == old(pats) && word == old(word) && parent == old(parent)
    {
      for c := 0 to 256
        invariant |states| == |old(states)|
        invariant forall s :: 0 <= s < |states| && s != Root ==> states[s] == old(states[s])
        invariant states[Root].out == old(states[Root].out) && states[Root].fail == old(states[Root].fail)
        invariant |states[Root].goto| == 256
        invariant forall c': Byte :: states[Root].goto[c'] ==
                    if c' < c && old(states[Root].goto[c']) == 0 then Root else old(states[Root].goto[c'])
        invariant pats == old(pats) && word == old(word) && parent == old(parent)
      {
        if states[Root].goto[c] == 0 {
          states := states[Root := states[Root].(goto := states[Root].goto[c := Root])];
        }
      }
    }

    /** The failure-chain walk from v0 on byte c followed by the transition
        it finds: the state spelling the longest trie suffix of
        word[v0] + [c]. It needs the failure links of all states no deeper
        than v0 to be final. */
    method Next(v0: nat, c: Byte) returns (t: nat)
      requires Edges(states, word) && NonRootEdges(states) && Spelled(states, word)
      requires word[Root] == [] && forall s :: 2 <= s < |states| ==> |word[s]| >= 1
      requires RootTotal(states) && Paths(states, pats)
      requires 1 <= v0 < |states|
      requires forall s :: 2 <= s < |states| && |word[s]| <= |word[v0]| ==>
                 Resolved(states, word, pats, s)
      ensures 1 <= t < |states| && word[t] == Longest(pats, word[v0] + [c])
    {
      var v := v0;
      while states[v].goto[c] == 0
        invariant 1 <= v < |states| && |word[v]| <= |word[v0]|
        invariant Longest(pats, word[v] + [c]) == Longest(pats, word[v0] + [c])
        decreases |word[v]|
      {
        WalkStep(states, word, pats, v, c);
        v := states[v].fail;
      }
      WalkExit(states, word, pats, v, c);
      t := states[v].goto[c];
    }

    /** The failure pass: seed a FIFO queue with the root's children, then
        for each state taken off the queue and each of its children u, walk
        the failure chain from the parent's failure link to the first state
        with a transition on the same byte, make its target u's failure link
        and append the target's outputs to u's. */
    method Fill()
      requires Tree(states, word, parent) && RootTotal(states) && Paths(states, pats)
      requires forall s :: 1 <= s < |states| ==> Pristine(states, word, pats, s)
      modifies this`states
      ensures Valid()
      ensures SameTrie(old(states), states) && states[Root] == old(states[Root])
    {
      ghost var st0 := states;
      var q := Seed();
      ghost var reached: set<nat> := set s: nat | 2 <= s < |st0| && parent[s] == Root;
      FillStart(states, word, parent, pats, q, reached);
      Propagate(st0, q, reached);
    }

    /** The queue loop of the failure pass: take the head off the queue and
        visit its children, until the queue is empty. */
    method Propagate(ghost st0: seq<State>, q0: seq<nat>, ghost reached0: set<nat>)
      requires Tree(st0, word, parent) && RootTotal(st0) && Paths(st0, pats)
      requires SameTrie(st0, states) && states[Root] == st0[Root]
      requires Resolving(states, word, pats, reached0) && Bfs(word, parent, q0, reached0, {})
      modifies this`states
      ensures SameTrie(st0, states) && states[Root] == st0[Root]
      ensures Valid()
    {
      var q := q0;
      ghost var reached := reached0;
      ghost var popped: set<nat> := {};
      while q != []
        invariant SameTrie(st0, states) && states[Root] == st0[Root]
        invariant Resolving(states, word, pats, reached)
        invariant Bfs(word, parent, q, reached, popped)
        decreases Range(2, |st0|) - popped
      {
        var si := q[0];
        q, reached := FillChildren(st0, q, reached, popped);
        popped := popped + {si};
      }
      BfsDone(st0, word, parent, reached, popped);
      FillDone(st0, states, word, parent, pats, reached);
    }

    /** The children of the root, in byte order: the seeded queue. */
    method Seed() returns (q: seq<nat>)
      requires WellFormed(states)
      ensures q == RootKids(states, 256)
    {
      q := [];
      for c := 0 to 256
        invariant q == RootKids(states, c)
      {
        var si := states[Root].goto[c];
        if si != Root {
          q := q + [si];
        }
      }
    }

    /** Takes the head si off the queue and visits its children in byte
        order: each is appended to the queue and resolved. The trie st0 is
        that of the states before the failure pass. */
    method FillChildren(ghost st0: seq<State>, q0: seq<nat>, ghost reached0: set<nat>, ghost popped: set<nat>)
      returns (q: seq<nat>, ghost reached: set<nat>)
      requires Tree(st0, word, parent) && RootTotal(st0) && Paths(st0, pats)
      requires SameTrie(st0, states) && states[Root] == st0[Root]
      requires Resolving(states, word, pats, reached0)
      requires Bfs(word, parent, q0, reached0, popped) && q0 != []
      modifies this`states
      ensures SameTrie(st0, states) && states[Root] == st0[Root]
      ensures Resolving(states, word, pats, reached)
      ensures Bfs(word, parent, q, reached, popped + {q0[0]})
    {
      BfsPop(word, parent, q0, reached0, popped);
      var si := q0[0];
      q := q0[1..];
      reached := reached0;
      for c := 0 to 256
        invariant SameTrie(st0, states) && states[Root] == st0[Root]
        invariant Resolving(states, word, pats, reached)
        invariant Queued(word, parent, q, reached, popped, si, c)
      {
        q, reached := VisitChild(st0, si, c, q, reached, popped);
      }
      QueuedClose(st0, word, parent, q, reached, popped, si);
    }

    /** The child of si on byte c, if there is one, goes onto the queue and
        is resolved. */
    method VisitChild(ghost st0: seq<State>, si: nat, c: Byte, q0: seq<nat>, ghost reached0: set<nat>,
                      ghost popped: set<nat>)
      returns (q: seq<nat>, ghost reached: set<nat>)
      requires Tree(st0, word, parent) && RootTotal(st0) && Paths(st0, pats)
      requires SameTrie(st0, states) && states[Root] == st0[Root]
      requires Resolving(states, word, pats, reached0)
      requires Queued(word, parent, q0, reached0, popped, si, c)
      modifies this`states
      ensures SameTrie(st0, states) && states[Root] == st0[Root]
      ensures Resolving(states, word, pats, reached)
      ensures Queued(word, parent, q, reached, popped, si, c + 1)
    {
      q, reached := q0, reached0;
      var u := states[si].goto[c];
      if u != 0 {
        QueuedPush(st0, word, parent, q, reached, popped, si, c, u);
        q := q + [u];
        ResolveChild(st0, si, c, u, reached);
        reached := reached + {u};
      } else {
        QueuedSkip(st0, word, parent, q, reached, popped, si, c);
      }
    }

    /** One child u of resolved state si on byte c: walk the failure chain
        from si's failure link, make the target u's failure link and append
        the target's outputs to u's, which resolves u. */
    method ResolveChild(ghost st0: seq<State>, si: nat, c: Byte, u: nat, ghost reached: set<nat>)
      requires Tree(st0, word, parent) && RootTotal(st0) && Paths(st0, pats)
      requires SameTrie(st0, states) && states[Root] == st0[Root]
      requires Resolving(states, word, pats, reached)
      requires si in reached && u == st0[si].goto[c] && u != 0 && u !in reached
      requires forall s :: 2 <= s < |states| && |word[s]| <= |word[si]| ==> s in reached
      modifies this`states
      ensures SameTrie(st0, states) && states[Root] == st0[Root]
      ensures Resolving(states, word, pats, reached + {u})
      ensures forall s :: 0 <= s < |states| && s != u ==> states[s] == old(states[s])
      ensures states[u].fail < |states| && word[states[u].fail] == FailWord(pats, word[u])
      ensures states[u].out == old(states[u].out) + old(states)[states[u].fail].out
    {
      SameEdges(st0, states, word, parent, pats);
      ChildOf(states, word, parent, pats, reached, si, c, u);
      var ufail := Next(states[si].fail, c);
      FailWordSnoc(pats, word[si], c);
      assert word[si] + [c] == word[u];
      ghost var before := states;
      states := states[u := states[u].(fail := ufail)];
      var ufailOut := states[ufail].out;
      states := states[u := states[u].(out := states[u].out + ufailOut)];
      assert states == before[u := State(before[u].out + before[ufail].out, ufail, before[u].goto)];
      ResolveStep(before, states, word, pats, reached, si, u, ufail);
    }

    /** The first-match scan: from the root, for each byte follow failure
        links until a transition exists, take it, and return the outputs of
        the first state entered that has any; [] when there is none. */
    method Find(text: Word) returns (r: seq<nat>)
      requires Valid()
      ensures r == Scan(pats, text, 0)
    {
      var si := Root;
      for k := 0 to |text|
        invariant 1 <= si < |states| && word[si] == Longest(pats, text[..k])
        invariant Scan(pats, text, k) == Scan(pats, text, 0)
      {
        var b := text[k];
        si := Next(si, b);
        ScanStep(pats, text, k);
        ScanOut(states, word, parent, pats, text[..k + 1], si);
        if states[si].out != [] {
          r := states[si].out;
          return;
        }
      }
      return [];
    }
  }

  /** The end of the failure pass: the trie is unchanged and every state
      below the root is resolved. */
  lemma FillDone(st0: seq<State>, states: seq<State>, word: seq<Word>, parent: seq<nat>, pats: seq<Word>,
                 reached: set<nat>)
    requires Tree(st0, word, parent) && RootTotal(st0) && Paths(st0, pats) && SameTrie(st0, states)
    requires Resolving(states, word, pats, reached)
    requires forall s :: 2 <= s < |states| ==> s in reached
    ensures Tree(states, word, parent) && RootTotal(states) && Paths(states, pats)
    ensures Complete(states, word, pats)
  {
    SameEdges(st0, states, word, parent, pats);
  }

  /** In a completed automaton the state spelling the longest trie suffix
      of a text reports exactly the matches ending there. */
  lemma ScanOut(states: seq<State>, word: seq<Word>, parent: seq<nat>, pats: seq<Word>, t: Word, si: nat)
    requires Complete(states, word, pats) && word[Root] == []
    requires 1 <= si < |states| && word[si] == Longest(pats, t)
    ensures states[si].out == MatchAt(pats, t)
  {
    if si != Root {
      assert Resolved(states, word, pats, si);
    }
  }

  /** A child u of a resolved state si on byte c is a state below the root
      spelling word[si] + [c], still as the builder left it. */
  lemma ChildOf(st: seq<State>, word: seq<Word>, parent: seq<nat>, pats: seq<Word>,
                reached: set<nat>, si: nat, c: Byte, u: nat)
    requires Tree(st, word, parent) && Resolving(st, word, pats, reached)
    requires si in reached && u == st[si].goto[c] && u != 0 && u !in reached
    ensures 2 <= si < |st| && Resolved(st, word, pats, si)
    ensures 2 <= u < |st| && word[u] == word[si] + [c] && Pristine(st, word, pats, u)
  {
    assert Resolved(st, word, pats, si);
    assert st[si].goto[c] != Root;
    assert Pristine(st, word, pats, u);
  }

  /** Resolving the child u of si, as method ResolveChild does, keeps the
      failure-pass invariant. */
  lemma ResolveStep(st: seq<State>, st2: seq<State>, word: seq<Word>, pats: seq<Word>,
                    reached: set<nat>, si: nat, u: nat, ufail: nat)
    requires Resolving(st, word, pats, reached) && word[Root] == []
    requires 2 <= si < |st| && 2 <= u < |st| && u !in reached
    requires |word[u]| == |word[si]| + 1 && Pristine(st, word, pats, u)
    requires forall s :: 2 <= s < |st| && |word[s]| <= |word[si]| ==> s in reached
    requires 1 <= ufail < |st| && word[ufail] == FailWord(pats, word[u])
    requires st2 == st[u := State(st[u].out + st[ufail].out, ufail, st[u].goto)]
    ensures Resolving(st2, word, pats, reached + {u})
  {
    if ufail != Root {
      assert ufail in reached;
    }
    FillStep(st, st2, word, pats, u, ufail);
    ResolvedFrame(st, st2, word, pats, reached, u);
  }

  /** Changing only state u, and resolving it, extends the set of resolved
      states by u. */
  lemma ResolvedFrame(st: seq<State>, st2: seq<State>, word: seq<Word>, pats: seq<Word>,
                      reached: set<nat>, u: nat)
    requires |st2| == |st| && |word| == |st|
    requires forall s :: 0 <= s < |st| && s != u ==> st2[s] == st[s]
    requires forall s :: 2 <= s < |st| ==>
               (s in reached ==> Resolved(st, word, pats, s)) &&
               (s !in reached ==> Pristine(st, word, pats, s))
    requires Resolved(st2, word, pats, u)
    ensures forall s :: 2 <= s < |st2| ==>
              (s in reached + {u} ==> Resolved(st2, word, pats, s)) &&
              (s !in reached + {u} ==> Pristine(st2, word, pats, s))
  {
    forall s | 2 <= s < |st2|
      ensures (s in reached + {u} ==> Resolved(st2, word, pats, s)) &&
              (s !in reached + {u} ==> Pristine(st2, word, pats, s))
    {
      if s != u {
        if s in reached {
          assert Resolved(st, word, pats, s);
        } else {
          assert Pristine(st, word, pats, s);
        }
      }
    }
  }

  /** One child of the failure pass: u gets as failure link the state
      spelling its failure word and appends that state's outputs, which
      are final already; u is then resolved. */
  lemma FillStep(st: seq<State>, st2: seq<State>, word: seq<Word>, pats: seq<Word>, u: nat, ufail: nat)
    requires |word| == |st| && |st| >= 2 && word[Root] == [] && Pristine(st, word, pats, Root)
    requires 2 <= u < |st| && |word[u]| >= 2 && Pristine(st, word, pats, u)
    requires 1 <= ufail < |st| && word[ufail] == FailWord(pats, word[u])
    requires ufail != Root ==> Resolved(st, word, pats, ufail)
    requires |st2| == |st| && st2[u].fail == ufail && st2[u].out == st[u].out + st[ufail].out
    ensures Resolved(st2, word, pats, u)
  {
  }

  // ---------------------------------------------------------------------
  // The builder

  /** Collects patterns in order and builds the automaton over them. */
  class Builder {
    /** The patterns added so far. */
    var pats: seq<Word>

    /** A builder with no pattern. */
    constructor ()
      ensures pats == []
    {
      pats := [];
    }

    /** Append one pattern. */
    method Add(s: Word)
      modifies this
      ensures pats == old(pats) + [s]
    {
      pats := pats + [s];
    }

    /** The automaton over the patterns added, in the order added. */
    method Build() returns (a: Automaton)
      ensures fresh(a) && a.Valid() && a.pats == pats
      ensures |a.states| <= 2 + TotalLen(pats)
    {
      a := new Automaton(pats);
    }
  }
}
