/** Worked examples of the word-level theory on small pattern lists. */
module Scenarios {
  import opened Matching
  import opened AhoCorasick

  const He: Word := [104, 101]
  const She: Word := [115, 104, 101]
  const His: Word := [104, 105, 115]
  const Hers: Word := [104, 101, 114, 115]

  /** The classic example: "he", "she", "his", "hers". */
  const Classic: seq<Word> := [He, She, His, Hers]

  /** Ends and IsPathOf of the classic list, one pattern at a time. */
  lemma ClassicLayers(w: Word)
    ensures Ends(Classic, w) ==
      (if w == He then [0] else []) + (if w == She then [1] else []) +
      (if w == His then [2] else []) + (if w == Hers then [3] else [])
    ensures IsPathOf(Classic, w) <==> w <= He || w <= She || w <= His || w <= Hers
  {
    assert Classic == [] + [He] + [She] + [His] + [Hers];
    EndsSnoc([], He, w);
    EndsSnoc([He], She, w);
    EndsSnoc([He, She], His, w);
    EndsSnoc([He, She, His], Hers, w);
    PathOfSnoc([], He, w);
    PathOfSnoc([He], She, w);
    PathOfSnoc([He, She], His, w);
    PathOfSnoc([He, She, His], Hers, w);
  }

  /** The state spelling "she" holds "she" and then "he". */
  lemma SheHoldsSheThenHe()
    ensures OutSeq(Classic, She) == [1, 0]
  {
    ClassicLayers(She);
    ClassicLayers(He);
    ClassicLayers([101]);
    ClassicLayers([]);
    assert She[1..] == He;
    assert He[1..] == [101];
    assert [101][1..] == [];
    assert FailWord(Classic, She) == He;
    assert [101][0] != He[0] && [101][0] != She[0] && [101][0] != His[0] && [101][0] != Hers[0];
    assert Longest(Classic, [101]) == [];
    assert FailWord(Classic, He) == [];
    assert OutSeq(Classic, He) == [0];
  }

  /** A word starting with a byte that starts no pattern is outside the
      trie of the classic list. */
  lemma ClassicMiss(w: Word)
    requires w != [] && w[0] != 104 && w[0] != 115
    ensures !IsPathOf(Classic, w) && Longest(Classic, w) == Longest(Classic, w[1..])
  {
    ClassicLayers(w);
  }

  /** A word with no "h" and no "s" has no non-empty suffix in the trie
      of the classic list. */
  lemma {:induction false} ClassicOutside(w: Word)
    requires forall i :: 0 <= i < |w| ==> w[i] != 104 && w[i] != 115
    ensures Longest(Classic, w) == []
    decreases |w|
  {
    if w != [] {
      ClassicMiss(w);
      ClassicOutside(w[1..]);
    }
  }

  /** "but she said", the text the source's own example scans. */
  const Said: Word := [98, 117, 116, 32, 115, 104, 101, 32, 115, 97, 105, 100]

  /** The first four bytes of "but she said" leave the trie. */
  lemma SaidQuiet(k: nat)
    requires 1 <= k <= 4
    ensures Longest(Classic, Said[..k]) == [] && MatchAt(Classic, Said[..k]) == []
  {
    ClassicOutside(Said[..k]);
    ClassicLayers([]);
  }

  /** After "but s" the scan is at "s", which holds nothing. */
  lemma SaidS()
    ensures Longest(Classic, Said[..5]) == [115] && MatchAt(Classic, Said[..5]) == []
  {
    var s := [115];
    SaidQuiet(4);
    ClassicLayers(s);
    assert s <= She;
    assert Said[..5] == Said[..4] + [115] && [] + [115] == s;
    LongestSnoc(Classic, Said[..4], 115);
  }

  /** After "but sh" the scan is at "sh", which holds nothing. */
  lemma SaidSh()
    ensures Longest(Classic, Said[..6]) == [115, 104] && MatchAt(Classic, Said[..6]) == []
  {
    var s, sh, h := [115], [115, 104], [104];
    SaidS();
    ClassicLayers(sh);
    ClassicLayers(h);
    ClassicLayers([]);
    assert sh <= She && h <= He && sh[1..] == h && h[1..] == [];
    assert Said[..6] == Said[..5] + [104] && s + [104] == sh;
    LongestSnoc(Classic, Said[..5], 104);
  }

  /** After "but she" the scan is at "she", which holds "she", then "he". */
  lemma SaidShe()
    ensures MatchAt(Classic, Said[..7]) == [1, 0]
  {
    var sh := [115, 104];
    SaidSh();
    ClassicLayers(She);
    assert IsPathOf(Classic, She);
    assert Said[..7] == Said[..6] + [101] && sh + [101] == She;
    LongestSnoc(Classic, Said[..6], 101);
    SheHoldsSheThenHe();
  }

  /** Scanning "but she said" first reports at "but she": "she", then
      "he". */
  lemma SaidScan()
    ensures Scan(Classic, Said, 0) == [1, 0]
  {
    SaidQuiet(1);
    SaidQuiet(2);
    SaidQuiet(3);
    SaidQuiet(4);
    SaidS();
    SaidSh();
    SaidShe();
  }

  /** The source's own example: building the classic list through the
      builder and scanning "but she said" reports "she", then "he". */
  method FindInSaid() returns (r: seq<nat>)
    ensures r == [1, 0]
  {
    var b := new Builder();
    b.Add(He);
    b.Add(She);
    b.Add(His);
    b.Add(Hers);
    assert b.pats == Classic;
    var a := b.Build();
    SaidScan();
    r := a.Find(Said);
  }

  /** An empty text reports nothing, even when a pattern is empty. */
  method FindInEmptyText(pats: seq<Word>) returns (r: seq<nat>)
    ensures r == []
  {
    var a := new Automaton(pats);
    r := a.Find([]);
  }

  /** A pattern given twice is held under both indices, in order. */
  lemma DuplicatesKept()
    ensures MatchAt([[97, 98], [97, 98]], [97, 98]) == [0, 1]
  {
    var ab: Word := [97, 98];
    assert [[97, 98], [97, 98]] == [] + [ab] + [ab];
    EndsSnoc([], ab, ab);
    EndsSnoc([ab], ab, ab);
    EndsSnoc([], ab, [98]);
    EndsSnoc([ab], ab, [98]);
    EndsSnoc([], ab, []);
    EndsSnoc([ab], ab, []);
    PathOfSnoc([], ab, ab);
    PathOfSnoc([ab], ab, ab);
    PathOfSnoc([], ab, [98]);
    PathOfSnoc([ab], ab, [98]);
    assert ab[1..] == [98] && [98][1..] == [];
    assert [98][0] != ab[0];
  }

  /** With "a" and "aa", scanning "aaa" stops after the first byte and
      reports only "a". */
  lemma ShortestFirst()
    ensures Scan([[97], [97, 97]], [97, 97, 97], 0) == [0]
  {
    var a: Word := [97];
    var aa: Word := [97, 97];
    assert [[97], [97, 97]] == [] + [a] + [aa];
    assert [97, 97, 97][..1] == a;
    EndsSnoc([], a, a);
    EndsSnoc([a], aa, a);
    PathOfSnoc([], a, a);
    PathOfSnoc([a], aa, a);
  }

  /** An empty pattern is held at the root and at the depth-one states,
      which the failure pass never merges: after "b" it is reported, after
      "a", which starts a pattern, it is not. */
  lemma EmptyPatternQuirk()
    ensures MatchAt([[], [97]], [98]) == [0]
    ensures MatchAt([[], [97]], [97]) == [1]
  {
    var a: Word := [97];
    var e: Word := [];
    assert [[], [97]] == [] + [e] + [a];
    EndsSnoc([], e, a);
    EndsSnoc([e], a, a);
    EndsSnoc([], e, e);
    EndsSnoc([e], a, e);
    PathOfSnoc([], e, a);
    PathOfSnoc([e], a, a);
    PathOfSnoc([], e, [98]);
    PathOfSnoc([e], a, [98]);
    assert [98][1..] == [];
    assert [98][0] != a[0];
  }
}
