/** The word-level theory behind the Aho-Corasick automaton of src/lib.rs.

    Everything here is stated on byte strings alone, with no reference to
    automaton states: which words are paths of the trie built from a pattern
    list, the longest suffix of a word that is such a path, the failure word
    of a path, the pattern indices the completed automaton holds at a path,
    and which patterns a scan reports after a given prefix of the text.
    The automaton in AhoCorasick.dfy is proved to compute exactly these. */
module Matching {

  /** A byte of a pattern or of a text (the source works on `as_bytes()`). */
  type Byte = x: int | 0 <= x < 256

  type Word = seq<Byte>

  /** x is a suffix of w. */
  predicate IsSuffix(x: Word, w: Word)
    decreases |w|
  {
    |x| <= |w| && (x == w || IsSuffix(x, w[1..]))
  }

  /** y is a path of the trie built from pats: the empty word (the root)
      or a prefix of some pattern. */
  predicate IsPathOf(pats: seq<Word>, y: Word)
    decreases |pats|
  {
    if pats == [] then y == []
    else y <= pats[|pats| - 1] || IsPathOf(pats[..|pats| - 1], y)
  }

  /** Total number of bytes in the patterns. */
  function TotalLen(pats: seq<Word>): nat
    decreases |pats|
  {
    if pats == [] then 0 else TotalLen(pats[..|pats| - 1]) + |pats[|pats| - 1]|
  }

  /** The indices of the patterns equal to w, in increasing order: what the
      trie builder pushes onto the `out` of the state spelling w. */
  function Ends(pats: seq<Word>, w: Word): seq<nat>
    decreases |pats|
  {
    if pats == [] then []
    else
      var n := |pats| - 1;
      Ends(pats[..n], w) + (if pats[n] == w then [n] else [])
  }

  /** Ends lists exactly the indices of the patterns equal to w. */
  lemma {:induction false} EndsMembers(pats: seq<Word>, w: Word, i: nat)
    ensures i in Ends(pats, w) <==> i < |pats| && pats[i] == w
    decreases |pats|
  {
    if pats != [] {
      var n := |pats| - 1;
      EndsMembers(pats[..n], w, i);
      if i < n {
        assert pats[..n][i] == pats[i];
      }
    }
  }

  /** Ends lists the indices in increasing order. */
  lemma {:induction false} EndsIncreasing(pats: seq<Word>, w: Word)
    ensures forall a, b :: 0 <= a < b < |Ends(pats, w)| ==> Ends(pats, w)[a] < Ends(pats, w)[b]
    decreases |pats|
  {
    if pats != [] {
      var n := |pats| - 1;
      var front := Ends(pats[..n], w);
      EndsIncreasing(pats[..n], w);
      forall a | 0 <= a < |front|
        ensures front[a] < n
      {
        assert front[a] in front;
        EndsMembers(pats[..n], w, front[a]);
      }
    }
  }

  // ---------------------------------------------------------------------
  // Trie paths

  /** The root is a path of every trie. */
  lemma {:induction false} EmptyIsPath(pats: seq<Word>)
    ensures IsPathOf(pats, [])
    decreases |pats|
  {
    if pats != [] {
      assert [] <= pats[|pats| - 1];
    }
  }

  /** The recursive definition agrees with "the root or a prefix of some
      pattern". */
  lemma {:induction false} PathOfIff(pats: seq<Word>, y: Word)
    ensures IsPathOf(pats, y) <==> y == [] || exists i :: 0 <= i < |pats| && y <= pats[i]
    decreases |pats|
  {
    EmptyIsPath(pats);
    if pats != [] {
      var n := |pats| - 1;
      PathOfIff(pats[..n], y);
      if exists i :: 0 <= i < |pats| && y <= pats[i] {
        var i :| 0 <= i < |pats| && y <= pats[i];
        if i < n {
          assert pats[..n][i] == pats[i];
        }
      }
      if exists i :: 0 <= i < n && y <= pats[..n][i] {
        var i :| 0 <= i < n && y <= pats[..n][i];
        assert pats[i] == pats[..n][i];
      }
    }
  }

  /** Every pattern is a path of its trie. */
  lemma {:induction false} PatternIsPath(pats: seq<Word>, i: nat)
    requires i < |pats|
    ensures IsPathOf(pats, pats[i])
    decreases |pats|
  {
    var n := |pats| - 1;
    if i < n {
      PatternIsPath(pats[..n], i);
      assert pats[..n][i] == pats[i];
    }
  }

  /** Trie paths are closed under taking prefixes. */
  lemma {:induction false} PathPrefix(pats: seq<Word>, x: Word, y: Word)
    requires IsPathOf(pats, y) && x <= y
    ensures IsPathOf(pats, x)
    decreases |pats|
  {
    if pats != [] {
      var n := |pats| - 1;
      if !(y <= pats[n]) {
        PathPrefix(pats[..n], x, y);
      }
    }
  }

  /** Adding a pattern adds exactly its prefixes to the trie. */
  lemma PathOfSnoc(pats: seq<Word>, p: Word, y: Word)
    ensures IsPathOf(pats + [p], y) <==> y <= p || IsPathOf(pats, y)
  {
    assert (pats + [p])[..|pats|] == pats;
  }

  /** The prefixes of x + [c] are those of x and x + [c] itself. */
  lemma PrefixSnoc(x: Word, c: Byte, y: Word)
    ensures y <= x + [c] <==> y <= x || y == x + [c]
  {
    if y <= x + [c] && y != x + [c] {
      assert |y| <= |x|;
      assert (x + [c])[..|y|] == x[..|y|];
    }
  }

  /** Adding a pattern adds its index to the end of its own word's list. */
  lemma EndsSnoc(pats: seq<Word>, p: Word, w: Word)
    ensures Ends(pats + [p], w) == Ends(pats, w) + (if p == w then [|pats|] else [])
  {
    assert (pats + [p])[..|pats|] == pats;
  }

  /** Adding a pattern adds its length to the total. */
  lemma TotalLenSnoc(pats: seq<Word>, p: Word)
    ensures TotalLen(pats + [p]) == TotalLen(pats) + |p|
  {
    assert (pats + [p])[..|pats|] == pats;
  }

  /** A word outside the trie is no pattern. */
  lemma OutsideTrieEnds(pats: seq<Word>, w: Word)
    requires !IsPathOf(pats, w)
    ensures Ends(pats, w) == []
  {
    var r := Ends(pats, w);
    if r != [] {
      assert r[0] in r;
      EndsMembers(pats, w, r[0]);
      PatternIsPath(pats, r[0]);
    }
  }

  // ---------------------------------------------------------------------
  // Suffixes

  /** x is a suffix of w exactly when w ends with the bytes of x. */
  lemma {:induction false} SuffixIff(x: Word, w: Word)
    ensures IsSuffix(x, w) <==> |x| <= |w| && w[|w| - |x|..] == x
    decreases |w|
  {
    if |x| <= |w| && x != w {
      if |x| == |w| {
        assert w[|w| - |x|..] == w;
      } else {
        SuffixIff(x, w[1..]);
        assert w[1..][|w| - 1 - |x|..] == w[|w| - |x|..];
      }
    }
  }

  lemma SuffixTrans(x: Word, y: Word, w: Word)
    requires IsSuffix(x, y) && IsSuffix(y, w)
    ensures IsSuffix(x, w)
  {
    SuffixIff(x, y);
    SuffixIff(y, w);
    SuffixIff(x, w);
    assert w[|w| - |x|..] == w[|w| - |y|..][|y| - |x|..];
  }

  lemma SuffixOfTail(x: Word, w: Word)
    requires |w| >= 1
    ensures IsSuffix(x, w[1..]) <==> IsSuffix(x, w) && |x| < |w|
  {
    SuffixIff(x, w[1..]);
    SuffixIff(x, w);
    if |x| < |w| {
      assert w[1..][|w| - 1 - |x|..] == w[|w| - |x|..];
    }
  }

  lemma SuffixSnoc(x: Word, w: Word, c: Byte)
    requires IsSuffix(x, w)
    ensures IsSuffix(x + [c], w + [c])
  {
    SuffixIff(x, w);
    SuffixIff(x + [c], w + [c]);
    assert (w + [c])[|w| + 1 - |x| - 1..] == w[|w| - |x|..] + [c];
  }

  /** A non-empty suffix of w + [c] ends in c, and what precedes that c is a
      suffix of w. */
  lemma SuffixUnsnoc(a: Word, w: Word, c: Byte)
    requires IsSuffix(a, w + [c]) && |a| >= 1
    ensures a[|a| - 1] == c && IsSuffix(a[..|a| - 1], w) && a == a[..|a| - 1] + [c]
  {
    SuffixIff(a, w + [c]);
    SuffixIff(a[..|a| - 1], w);
    assert a[|a| - 1] == (w + [c])[|w|];
    assert w[|w| - (|a| - 1)..] == (w + [c])[|w| + 1 - |a|..][..|a| - 1];
  }

  /** Of two suffixes of the same word, the shorter is a suffix of the longer. */
  lemma SuffixOfBoth(x: Word, y: Word, w: Word)
    requires IsSuffix(x, w) && IsSuffix(y, w) && |x| <= |y|
    ensures IsSuffix(x, y)
  {
    SuffixIff(x, w);
    SuffixIff(y, w);
    SuffixIff(x, y);
    assert y[|y| - |x|..] == w[|w| - |y|..][|y| - |x|..];
  }

  // ---------------------------------------------------------------------
  // Longest suffix in the trie

  /** The longest suffix of w that is a path of the trie: the state a scan
      is in after reading w, and (applied to w[1..]) the failure target of
      the state spelling w. */
  function Longest(pats: seq<Word>, w: Word): (r: Word)
    decreases |w|
    ensures IsSuffix(r, w) && IsPathOf(pats, r)
  {
    if w == [] then EmptyIsPath(pats); []
    else if IsPathOf(pats, w) then w
    else
      var r := Longest(pats, w[1..]);
      SuffixOfTail(r, w);
      r
  }

  /** No suffix of w that is a trie path is longer than Longest(pats, w),
      so every such suffix is a suffix of it. */
  lemma {:induction false} LongestIsLongest(pats: seq<Word>, w: Word, y: Word)
    requires IsSuffix(y, w) && IsPathOf(pats, y)
    ensures |y| <= |Longest(pats, w)| && IsSuffix(y, Longest(pats, w))
    decreases |w|
  {
    if w != [] && !IsPathOf(pats, w) {
      assert y != w;
      assert |y| < |w|;
      SuffixOfTail(y, w);
      LongestIsLongest(pats, w[1..], y);
    }
    SuffixOfBoth(y, Longest(pats, w), w);
  }

  /** Longest is the identity on trie paths. */
  lemma LongestOfPath(pats: seq<Word>, w: Word)
    requires IsPathOf(pats, w)
    ensures Longest(pats, w) == w
  {
  }

  /** The step of the scan: the longest trie suffix of w + [c] only depends
      on the longest trie suffix of w. */
  lemma {:induction false} LongestSnoc(pats: seq<Word>, w: Word, c: Byte)
    ensures Longest(pats, w + [c]) == Longest(pats, Longest(pats, w) + [c])
  {
    var l := Longest(pats, w);
    var a := Longest(pats, w + [c]);
    var b := Longest(pats, l + [c]);
    SuffixSnoc(l, w, c);
    SuffixTrans(b, l + [c], w + [c]);
    LongestIsLongest(pats, w + [c], b);
    if a != [] {
      SuffixUnsnoc(a, w, c);
      var a' := a[..|a| - 1];
      PathPrefix(pats, a', a);
      LongestIsLongest(pats, w, a');
      SuffixSnoc(a', l, c);
      LongestIsLongest(pats, l + [c], a);
    }
  }

  /** The failure word of the trie path w (|w| >= 1): its longest proper
      suffix that is a trie path. */
  function FailWord(pats: seq<Word>, w: Word): (r: Word)
    requires |w| >= 1
    ensures |r| < |w|
  {
    Longest(pats, w[1..])
  }

  /** The failure word of a child: the longest trie suffix of the parent's
      failure word followed by the byte; it is no longer than the parent. */
  lemma FailWordSnoc(pats: seq<Word>, w: Word, c: Byte)
    requires |w| >= 1
    ensures FailWord(pats, w + [c]) == Longest(pats, FailWord(pats, w) + [c])
    ensures |FailWord(pats, w + [c])| <= |w|
  {
    assert (w + [c])[1..] == w[1..] + [c];
    LongestSnoc(pats, w[1..], c);
  }

  /** One step of a failure-chain walk: when v + [c] leaves the trie, the
      answer sought from v is the answer sought from the failure word of v. */
  lemma LongestMiss(pats: seq<Word>, v: Word, c: Byte)
    requires |v| >= 1 && !IsPathOf(pats, v + [c])
    ensures Longest(pats, v + [c]) == Longest(pats, FailWord(pats, v) + [c])
  {
    assert (v + [c])[1..] == v[1..] + [c];
    LongestSnoc(pats, v[1..], c);
  }

  // ---------------------------------------------------------------------
  // Output sets

  /** The pattern indices held by the completed automaton at the state
      spelling w: the patterns equal to w, followed by those held at the
      failure state. A state at depth one keeps only its own patterns:
      the failure pass never merges the states it starts from. */
  function OutSeq(pats: seq<Word>, w: Word): seq<nat>
    decreases |w|
  {
    if |w| <= 1 then Ends(pats, w)
    else Ends(pats, w) + OutSeq(pats, FailWord(pats, w))
  }

  /** Only pattern indices are held. */
  lemma {:induction false} OutSeqBound(pats: seq<Word>, w: Word, x: nat)
    requires x in OutSeq(pats, w)
    ensures x < |pats|
    decreases |w|
  {
    if x in Ends(pats, w) {
      EndsMembers(pats, w, x);
    } else {
      OutSeqBound(pats, FailWord(pats, w), x);
    }
  }

  /** The patterns equal to w are held at w. */
  lemma EndsInOutSeq(pats: seq<Word>, w: Word, i: nat)
    requires i in Ends(pats, w)
    ensures i in OutSeq(pats, w)
  {
  }

  /** Pattern i is held at path w exactly when it is a suffix of w, except
      that an empty pattern is held only at the root and at paths whose last
      byte does not start any pattern. */
  lemma {:induction false} OutSeqMembers(pats: seq<Word>, w: Word, i: nat)
    requires IsPathOf(pats, w) && i < |pats|
    ensures i in OutSeq(pats, w) <==>
      IsSuffix(pats[i], w) && (pats[i] != [] || w == [] || !IsPathOf(pats, [w[|w| - 1]]))
    decreases |w|
  {
    var p := pats[i];
    EndsMembers(pats, w, i);
    if |w| == 1 {
      assert [w[|w| - 1]] == w;
      if IsSuffix(p, w) && p != [] {
        SuffixIff(p, w);
        assert p == w;
      }
    } else if |w| >= 2 {
      var f := FailWord(pats, w);
      OutSeqMembers(pats, f, i);
      PatternIsPath(pats, i);
      SuffixOfTail(f, w);
      if IsSuffix(p, w) && p != w {
        SuffixOfTail(p, w);
        LongestIsLongest(pats, w[1..], p);
      }
      if IsSuffix(p, f) {
        SuffixTrans(p, f, w);
      }
      if f != [] {
        SuffixIff(f, w);
        assert f[|f| - 1] == w[|w| - 1];
      } else {
        var last := [w[|w| - 1]];
        SuffixIff(last, w[1..]);
        assert w[1..][|w| - 2..] == last;
        assert IsSuffix(last, w[1..]);
        if IsPathOf(pats, last) {
          LongestIsLongest(pats, w[1..], last);
        }
      }
    }
  }

  /** No pattern index is held twice at the same state. */
  lemma {:induction false} OutSeqDistinct(pats: seq<Word>, w: Word)
    requires IsPathOf(pats, w)
    ensures forall a, b :: 0 <= a < b < |OutSeq(pats, w)| ==> OutSeq(pats, w)[a] != OutSeq(pats, w)[b]
    decreases |w|
  {
    if |w| >= 2 {
      var f := FailWord(pats, w);
      var e := Ends(pats, w);
      var rest := OutSeq(pats, f);
      OutSeqDistinct(pats, f);
      EndsIncreasing(pats, w);
      forall a, b | 0 <= a < |e| && 0 <= b < |rest|
        ensures e[a] != rest[b]
      {
        assert e[a] in e && rest[b] in rest;
        EndsMembers(pats, w, e[a]);
        OutSeqBound(pats, f, rest[b]);
        OutSeqMembers(pats, f, rest[b]);
      }
      assert OutSeq(pats, w) == e + rest;
    } else {
      EndsIncreasing(pats, w);
    }
  }

  // ---------------------------------------------------------------------
  // What a scan reports

  /** The pattern indices held at the state a scan is in after reading t. */
  function MatchAt(pats: seq<Word>, t: Word): seq<nat>
  {
    OutSeq(pats, Longest(pats, t))
  }

  /** Pattern i occurs in the text ending where the prefix t ends (t is
      non-empty); an empty pattern is reported only when the last byte
      read starts no pattern. */
  predicate Reports(pats: seq<Word>, t: Word, i: nat)
    requires |t| >= 1 && i < |pats|
  {
    IsSuffix(pats[i], t) && (pats[i] != [] || !IsPathOf(pats, [t[|t| - 1]]))
  }

  /** After reading t the automaton holds exactly the patterns that end at
      the end of t. */
  lemma MatchAtMeaning(pats: seq<Word>, t: Word, i: nat)
    requires |t| >= 1
    ensures i in MatchAt(pats, t) <==> i < |pats| && Reports(pats, t, i)
  {
    var l := Longest(pats, t);
    if i in MatchAt(pats, t) {
      OutSeqBound(pats, l, i);
    }
    if i < |pats| {
      var p := pats[i];
      OutSeqMembers(pats, l, i);
      PatternIsPath(pats, i);
      if IsSuffix(p, t) {
        LongestIsLongest(pats, t, p);
      }
      if IsSuffix(p, l) {
        SuffixTrans(p, l, t);
      }
      var last := [t[|t| - 1]];
      if l != [] {
        SuffixIff(l, t);
        assert l[|l| - 1] == t[|t| - 1];
      } else if IsPathOf(pats, last) {
        SuffixIff(last, t);
        assert t[|t| - 1..] == last;
        LongestIsLongest(pats, t, last);
      }
    }
  }

  /** What a first-match scan of text reports once its first k bytes have
      produced nothing: the output held after the first longer prefix
      whose output is non-empty, or [] when there is none. */
  function Scan(pats: seq<Word>, text: Word, k: nat): seq<nat>
    requires k <= |text|
    decreases |text| - k
  {
    if k == |text| then []
    else if MatchAt(pats, text[..k + 1]) != [] then MatchAt(pats, text[..k + 1])
    else Scan(pats, text, k + 1)
  }

  /** The scan from k reports nothing exactly when no prefix longer than k
      has an output. */
  lemma {:induction false} ScanSilent(pats: seq<Word>, text: Word, k: nat)
    requires k <= |text|
    ensures Scan(pats, text, k) == [] <==>
            forall j {:trigger MatchAt(pats, text[..j])} :: k < j <= |text| ==> MatchAt(pats, text[..j]) == []
    decreases |text| - k
  {
    if k < |text| && MatchAt(pats, text[..k + 1]) == [] {
      ScanSilent(pats, text, k + 1);
    }
  }

  /** A scan from k that reports something reports the output of the
      shortest prefix longer than k that has one. */
  lemma {:induction false} ScanFirst(pats: seq<Word>, text: Word, k: nat)
    requires k <= |text| && Scan(pats, text, k) != []
    ensures exists j :: k < j <= |text| && Scan(pats, text, k) == MatchAt(pats, text[..j]) &&
              forall i {:trigger MatchAt(pats, text[..i])} :: k < i < j ==> MatchAt(pats, text[..i]) == []
    decreases |text| - k
  {
    if MatchAt(pats, text[..k + 1]) == [] {
      ScanFirst(pats, text, k + 1);
      var j :| k + 1 < j <= |text| && Scan(pats, text, k + 1) == MatchAt(pats, text[..j]) &&
               forall i {:trigger MatchAt(pats, text[..i])} :: k + 1 < i < j ==> MatchAt(pats, text[..i]) == [];
      assert forall i {:trigger MatchAt(pats, text[..i])} :: k < i < j ==> MatchAt(pats, text[..i]) == [];
    } else {
      assert k < k + 1 <= |text| && Scan(pats, text, k) == MatchAt(pats, text[..k + 1]);
    }
  }

  /** Reading one more byte: the longest trie suffix of the longer prefix
      is found from the longest trie suffix of the shorter one. */
  lemma ScanStep(pats: seq<Word>, text: Word, k: nat)
    requires k < |text|
    ensures Longest(pats, Longest(pats, text[..k]) + [text[k]]) == Longest(pats, text[..k + 1])
  {
    assert text[..k] + [text[k]] == text[..k + 1];
    LongestSnoc(pats, text[..k], text[k]);
  }

  /** Nothing is held after reading t exactly when no pattern ends there. */
  lemma MatchAtEmpty(pats: seq<Word>, t: Word)
    requires |t| >= 1
    ensures MatchAt(pats, t) == [] <==> forall i: nat :: i < |pats| ==> !Reports(pats, t, i)
  {
    forall i: nat | i < |pats|
      ensures i in MatchAt(pats, t) <==> Reports(pats, t, i)
    {
      MatchAtMeaning(pats, t, i);
    }
    if MatchAt(pats, t) != [] {
      var x := MatchAt(pats, t)[0];
      assert x in MatchAt(pats, t);
      OutSeqBound(pats, Longest(pats, t), x);
    }
  }
}
