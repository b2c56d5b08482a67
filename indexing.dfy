/**
 * What indexing one document does to the inverted index's lists
 * (ConcurrentIndex, internal/index/index.go:27-69), on the abstract view of
 * module Queries: each token's level-0 keys.
 */
module Indexing {
  import opened Postings
  import opened SkipLists
  import opened Queries

  /** The offsets at which t occurs in tokens, in increasing order. */
  function OffsetsOf(tokens: seq<Term>, t: Term): seq<nat>
  {
    if tokens == [] then []
    else
      var n := |tokens| - 1;
      OffsetsOf(tokens[..n], t) + if tokens[n] == t then [n] else []
  }

  /** Every offset OffsetsOf lists is an occurrence of t. */
  lemma {:induction false} OffsetsOfSound(tokens: seq<Term>, t: Term)
    ensures forall i :: 0 <= i < |OffsetsOf(tokens, t)| ==>
      OffsetsOf(tokens, t)[i] < |tokens| && tokens[OffsetsOf(tokens, t)[i]] == t
  {
    if tokens != [] {
      var n := |tokens| - 1;
      OffsetsOfSound(tokens[..n], t);
      var os0 := OffsetsOf(tokens[..n], t);
      var os := OffsetsOf(tokens, t);
      assert os == os0 + if tokens[n] == t then [n] else [];
      forall i | 0 <= i < |os| ensures os[i] < |tokens| && tokens[os[i]] == t {
        if i < |os0| {
          assert os[i] == os0[i];
          assert tokens[..n][os0[i]] == t;
        }
      }
    }
  }

  /** Every occurrence of t is listed by OffsetsOf. */
  lemma {:induction false} OffsetsOfComplete(tokens: seq<Term>, t: Term)
    ensures forall j :: 0 <= j < |tokens| && tokens[j] == t ==> j in OffsetsOf(tokens, t)
  {
    if tokens != [] {
      var n := |tokens| - 1;
      OffsetsOfComplete(tokens[..n], t);
      var os0 := OffsetsOf(tokens[..n], t);
      var os := OffsetsOf(tokens, t);
      assert os == os0 + if tokens[n] == t then [n] else [];
      forall j | 0 <= j < |tokens| && tokens[j] == t ensures j in os {
        if j < n {
          assert tokens[..n][j] == t;
          assert j in os0;
        } else {
          assert os[|os| - 1] == n;
        }
      }
    }
  }

  /** OffsetsOf lists its offsets in strictly increasing order. */
  lemma {:induction false} OffsetsOfIncreasing(tokens: seq<Term>, t: Term)
    ensures forall i, k :: 0 <= i < k < |OffsetsOf(tokens, t)| ==> OffsetsOf(tokens, t)[i] < OffsetsOf(tokens, t)[k]
  {
    if tokens != [] {
      var n := |tokens| - 1;
      OffsetsOfIncreasing(tokens[..n], t);
      OffsetsOfSound(tokens[..n], t);
      var os0 := OffsetsOf(tokens[..n], t);
      var os := OffsetsOf(tokens, t);
      assert os == os0 + if tokens[n] == t then [n] else [];
      forall i, k | 0 <= i < k < |os| ensures os[i] < os[k] {
        assert os[i] == os0[i];
        if k < |os0| {
          assert os[k] == os0[k];
        }
      }
    }
  }

  /** OffsetsOf lists exactly the offsets of t, each once, in increasing order. */
  lemma OffsetsOfHolds(tokens: seq<Term>, t: Term)
    ensures var os := OffsetsOf(tokens, t);
      && (forall i :: 0 <= i < |os| ==> os[i] < |tokens| && tokens[os[i]] == t)
      && (forall j :: 0 <= j < |tokens| && tokens[j] == t ==> j in os)
      && (forall i, k :: 0 <= i < k < |os| ==> os[i] < os[k])
  {
    OffsetsOfSound(tokens, t);
    OffsetsOfComplete(tokens, t);
    OffsetsOfIncreasing(tokens, t);
  }

  /** A term that does not occur has no offsets. */
  lemma {:induction false} OffsetsOfAbsent(tokens: seq<Term>, t: Term)
    requires t !in tokens
    ensures OffsetsOf(tokens, t) == []
  {
    if tokens != [] {
      var n := |tokens| - 1;
      assert t !in tokens[..n] by {
        assert forall x :: x in tokens[..n] ==> x in tokens;
      }
      OffsetsOfAbsent(tokens[..n], t);
    }
  }

  /** Scanning one more token adds its offset to that token's offsets only. */
  lemma OffsetsOfSnoc(tokens: seq<Term>, j: nat, t: Term)
    requires j < |tokens|
    ensures OffsetsOf(tokens[..j + 1], t) == OffsetsOf(tokens[..j], t) + if tokens[j] == t then [j] else []
    ensures OffsetsOf(tokens[..j], t) == [] <==> t !in tokens[..j]
  {
    assert tokens[..j + 1][..j] == tokens[..j];
    OffsetsOfSound(tokens[..j], t);
    OffsetsOfComplete(tokens[..j], t);
    var os := OffsetsOf(tokens[..j], t);
    if os != [] {
      assert tokens[..j][os[0]] == t;
    }
    if t in tokens[..j] {
      var i :| 0 <= i < j && tokens[..j][i] == t;
      assert i in os;
    }
  }

  /** The positions (docID, o) for the offsets os. */
  function DocPostings(docID: int, os: seq<nat>): (ps: seq<Position>)
    ensures |ps| == |os|
    ensures forall i :: 0 <= i < |ps| ==> ps[i] == Position(Int(docID), Int(os[i]))
  {
    seq(|os|, i requires 0 <= i < |os| => Position(Int(docID), Int(os[i])))
  }

  /** SkipList.Insert on the keys: a present key changes nothing, an absent one goes to its lower bound. */
  function Insert1(s: seq<Position>, x: Position): (r: seq<Position>)
    requires StrictlySorted(s)
    ensures StrictlySorted(r)
  {
    if x in s then s
    else
      InsertKeepsSorted(s, x);
      InsertAt(s, LowerBound(s, x), x)
  }

  /** The keys after an insert are the old keys and the new one, nothing else. */
  lemma Insert1Holds(s: seq<Position>, x: Position)
    requires StrictlySorted(s)
    ensures forall y :: y in Insert1(s, x) <==> y in s || y == x
  {
    if x !in s {
      var r := InsertAt(s, LowerBound(s, x), x);
      forall y | y in r ensures y in s || y == x {
        var k :| 0 <= k < |r| && r[k] == y;
      }
      forall y | y in s ensures y in r {
        var k :| 0 <= k < |s| && s[k] == y;
        if k < LowerBound(s, x) {
          assert r[k] == y;
        } else {
          assert r[k + 1] == y;
        }
      }
    }
  }

  /** Inserting xs one after the other. */
  function InsertAll(s: seq<Position>, xs: seq<Position>): (r: seq<Position>)
    requires StrictlySorted(s)
    ensures StrictlySorted(r)
  {
    if xs == [] then s else Insert1(InsertAll(s, xs[..|xs| - 1]), xs[|xs| - 1])
  }

  /** The keys after inserting xs are the old keys and xs, nothing else. */
  lemma {:induction false} InsertAllHolds(s: seq<Position>, xs: seq<Position>)
    requires StrictlySorted(s)
    ensures forall y :: y in InsertAll(s, xs) <==> y in s || y in xs
  {
    if xs != [] {
      var n := |xs| - 1;
      InsertAllHolds(s, xs[..n]);
      Insert1Holds(InsertAll(s, xs[..n]), xs[n]);
      assert xs == xs[..n] + [xs[n]];
    }
  }

  /** The tokens of a document, as a set. */
  function TokenSet(tokens: seq<Term>): set<Term> {
    set t | t in tokens
  }

  /**
   * ConcurrentIndex as written: every token of the document gets a list
   * built afresh from this document's positions, replacing the list it had.
   */
  function Replaced(P: Lists, docID: int, tokens: seq<Term>): Lists {
    map t | t in P.Keys + TokenSet(tokens) ::
      if t in tokens then DocPostings(docID, OffsetsOf(tokens, t)) else P[t]
  }

  /**
   * Indexing as the tests and the disabled loop in Index intend: every token
   * of the document has this document's positions inserted into the list
   * it already had.
   */
  function Merged(P: Lists, docID: int, tokens: seq<Term>): Lists
    requires WellFormed(P)
  {
    map t | t in P.Keys + TokenSet(tokens) :: InsertAll(ListOf(P, t), DocPostings(docID, OffsetsOf(tokens, t)))
  }

  /** The list t has, empty for a token not yet indexed. */
  function ListOf(P: Lists, t: Term): (s: seq<Position>)
    requires WellFormed(P)
    ensures StrictlySorted(s)
  {
    if t in P then P[t] else []
  }

  /** The positions a document contributes to t's list: (docID, j) for each j with tokens[j] = t. */
  lemma DocPostingsOf(docID: int, tokens: seq<Term>, t: Term)
    ensures forall x :: x in DocPostings(docID, OffsetsOf(tokens, t)) <==>
      exists j :: 0 <= j < |tokens| && tokens[j] == t && x == Position(Int(docID), Int(j))
  {
    OffsetsOfHolds(tokens, t);
    var os := OffsetsOf(tokens, t);
    var ds := DocPostings(docID, os);
    forall x ensures x in ds <==> exists j :: 0 <= j < |tokens| && tokens[j] == t && x == Position(Int(docID), Int(j)) {
      if x in ds {
        var i :| 0 <= i < |ds| && ds[i] == x;
        assert tokens[os[i]] == t;
      }
      if exists j :: 0 <= j < |tokens| && tokens[j] == t && x == Position(Int(docID), Int(j)) {
        var j :| 0 <= j < |tokens| && tokens[j] == t && x == Position(Int(docID), Int(j));
        var i :| 0 <= i < |os| && os[i] == j;
        assert ds[i] == x;
      }
    }
  }

  /** One token's list after indexing: its earlier postings and its positions in the document. */
  lemma MergedAt(P: Lists, docID: int, tokens: seq<Term>, t: Term)
    requires WellFormed(P) && t in P.Keys + TokenSet(tokens)
    ensures var m := InsertAll(ListOf(P, t), DocPostings(docID, OffsetsOf(tokens, t)));
      && m != [] && AllReal(m)
      && forall x :: x in m <==>
           (t in P && x in P[t]) || exists j :: 0 <= j < |tokens| && tokens[j] == t && x == Position(Int(docID), Int(j))
  {
    var ds := DocPostings(docID, OffsetsOf(tokens, t));
    var m := InsertAll(ListOf(P, t), ds);
    InsertAllHolds(ListOf(P, t), ds);
    DocPostingsOf(docID, tokens, t);
    if t !in P {
      var j :| 0 <= j < |tokens| && tokens[j] == t;
      assert Position(Int(docID), Int(j)) in m;
    } else {
      assert P[t][0] in m;
    }
  }

  /**
   * After indexing a document the lists are still well formed, and each
   * token's list holds exactly its earlier postings and its positions in
   * this document.
   */
  lemma MergedKeepsPostings(P: Lists, docID: int, tokens: seq<Term>)
    requires WellFormed(P)
    ensures WellFormed(Merged(P, docID, tokens))
    ensures Merged(P, docID, tokens).Keys == P.Keys + TokenSet(tokens)
    ensures forall t, x :: t in Merged(P, docID, tokens) ==>
      (x in Merged(P, docID, tokens)[t] <==>
         (t in P && x in P[t]) || exists j :: 0 <= j < |tokens| && tokens[j] == t && x == Position(Int(docID), Int(j)))
  {
    var M := Merged(P, docID, tokens);
    forall t | t in M
      ensures M[t] != [] && StrictlySorted(M[t]) && AllReal(M[t])
      ensures forall x :: x in M[t] <==>
        (t in P && x in P[t]) || exists j :: 0 <= j < |tokens| && tokens[j] == t && x == Position(Int(docID), Int(j))
    {
      assert M[t] == InsertAll(ListOf(P, t), DocPostings(docID, OffsetsOf(tokens, t)));
      MergedAt(P, docID, tokens, t);
    }
  }

  /** The offsets of the only token of a one-token document. */
  lemma OneTokenOffsets(t: Term)
    ensures t in TokenSet([t]) && OffsetsOf([t], t) == [0]
  {
    assert [t][..0] == [];
  }

  /** A document's positions for one token are strictly increasing. */
  lemma DocPostingsSorted(docID: int, os: seq<nat>)
    requires forall i, k :: 0 <= i < k < |os| ==> os[i] < os[k]
    ensures StrictlySorted(DocPostings(docID, os))
  {
  }

  /** A strictly sorted run splits into a sorted front, all below its last element. */
  lemma SortedFront(c: seq<Position>, k: nat)
    requires StrictlySorted(c) && k <= |c|
    ensures StrictlySorted(c[..k])
    ensures forall i :: 0 <= i < k ==> Lt(c[..k][i], c[|c| - 1]) || k == |c|
  {
    assert forall i, j :: 0 <= i < j < k ==> c[..k][i] == c[i] && c[..k][j] == c[j];
  }

  lemma AppendTake<T>(s: seq<T>, xs: seq<T>, n: nat)
    requires n <= |xs|
    ensures (s + xs)[..|s| + n] == s + xs[..n]
  {
  }

  lemma LastSplit<T>(c: seq<T>)
    requires c != []
    ensures c == c[..|c| - 1] + [c[|c| - 1]]
  {
  }

  lemma InsertAtEnd<T>(s: seq<T>, x: T)
    ensures InsertAt(s, |s|, x) == s + [x]
  {
    assert s[..|s|] == s;
  }

  /** Inserting keys that all lie above the list, in increasing order, appends them. */
  lemma {:induction false} InsertAllAppends(s: seq<Position>, xs: seq<Position>)
    requires StrictlySorted(s + xs)
    ensures StrictlySorted(s)
    ensures InsertAll(s, xs) == s + xs
  {
    AppendTake(s, xs, 0);
    SortedFront(s + xs, |s|);
    if xs != [] {
      var n := |xs| - 1;
      var c := s + xs;
      SortedFront(c, |s| + n);
      var s' := c[..|s| + n];
      AppendTake(s, xs, n);
      InsertAllAppends(s, xs[..n]);
      var x := xs[n];
      LastSplit(c);
      assert |s'| > 0 ==> Lt(s'[|s'| - 1], x) && c[|s'| - 1] == s'[|s'| - 1];
      assert LowerBound(s', x) == |s'|;
      assert x !in s' by {
        LtTotal(x, x);
        forall k | 0 <= k < |s'| ensures s'[k] != x {
          assert s'[k] == c[k];
        }
      }
      InsertAtEnd(s', x);
    }
  }

  /** The list a token ends up with: this document's positions, inserted into the old list when merging. */
  function NewList(P: Lists, docID: int, tokens: seq<Term>, t: Term, merge: bool): seq<Position>
    requires WellFormed(P)
  {
    var ds := DocPostings(docID, OffsetsOf(tokens, t));
    if merge then InsertAll(ListOf(P, t), ds) else ds
  }

  /** A token of the document gets a non-empty list of real positions, strictly increasing. */
  lemma NewListWellFormed(P: Lists, docID: int, tokens: seq<Term>, t: Term, merge: bool)
    requires WellFormed(P) && t in tokens
    ensures WellFormed(P[t := NewList(P, docID, tokens, t, merge)])
  {
    var L := NewList(P, docID, tokens, t, merge);
    NewListReal(P, docID, tokens, t, merge);
    NewListSorted(P, docID, tokens, t, merge);
    var P' := P[t := L];
    forall t' | t' in P' ensures P'[t'] != [] && StrictlySorted(P'[t']) && AllReal(P'[t']) {
      if t' != t {
        assert P'[t'] == P[t'];
      }
    }
  }

  lemma NewListReal(P: Lists, docID: int, tokens: seq<Term>, t: Term, merge: bool)
    requires WellFormed(P) && t in tokens
    ensures NewList(P, docID, tokens, t, merge) != [] && AllReal(NewList(P, docID, tokens, t, merge))
  {
    OffsetsOfComplete(tokens, t);
    var os := OffsetsOf(tokens, t);
    var ds := DocPostings(docID, os);
    var j :| 0 <= j < |tokens| && tokens[j] == t;
    assert j in os;
    InsertAllHolds(ListOf(P, t), ds);
    var L := NewList(P, docID, tokens, t, merge);
    assert ds[0] in L;
    forall x | x in L ensures IsReal(x) {
      if x in ds {
        var i :| 0 <= i < |ds| && ds[i] == x;
      } else {
        assert t in P && x in P[t];
      }
    }
  }

  lemma NewListSorted(P: Lists, docID: int, tokens: seq<Term>, t: Term, merge: bool)
    requires WellFormed(P)
    ensures StrictlySorted(NewList(P, docID, tokens, t, merge))
  {
    OffsetsOfIncreasing(tokens, t);
    DocPostingsSorted(docID, OffsetsOf(tokens, t));
  }

  /** Inserting the document's positions into the list a token starts from gives its new list. */
  lemma FilledIsNewList(P: Lists, docID: int, tokens: seq<Term>, t: Term, merge: bool)
    requires WellFormed(P)
    ensures InsertAll(if merge then ListOf(P, t) else [], DocPostings(docID, OffsetsOf(tokens, t)))
      == NewList(P, docID, tokens, t, merge)
  {
    if !merge {
      var ds := DocPostings(docID, OffsetsOf(tokens, t));
      OffsetsOfIncreasing(tokens, t);
      DocPostingsSorted(docID, OffsetsOf(tokens, t));
      assert [] + ds == ds;
      InsertAllAppends([], ds);
    }
  }

  /** The lists once the tokens in done have been indexed, in any order. */
  function Partly(P: Lists, docID: int, tokens: seq<Term>, done: set<Term>, merge: bool): Lists
    requires WellFormed(P)
  {
    map t | t in P.Keys + done :: if t in done then NewList(P, docID, tokens, t, merge) else P[t]
  }

  /** A token not indexed yet gets the same new list whichever other tokens went before it. */
  lemma PartlyNewList(P: Lists, docID: int, tokens: seq<Term>, done: set<Term>, t: Term, merge: bool)
    requires WellFormed(P) && WellFormed(Partly(P, docID, tokens, done, merge)) && t !in done
    ensures NewList(Partly(P, docID, tokens, done, merge), docID, tokens, t, merge) == NewList(P, docID, tokens, t, merge)
  {
    assert ListOf(Partly(P, docID, tokens, done, merge), t) == ListOf(P, t);
  }

  /** Indexing no token changes nothing. */
  lemma PartlyNone(P: Lists, docID: int, tokens: seq<Term>, merge: bool)
    requires WellFormed(P)
    ensures Partly(P, docID, tokens, {}, merge) == P
  {
  }

  /** Indexing every token with merging is Merged. */
  lemma PartlyMerged(P: Lists, docID: int, tokens: seq<Term>)
    requires WellFormed(P)
    ensures Partly(P, docID, tokens, TokenSet(tokens), true) == Merged(P, docID, tokens)
  {
    var D, E := Partly(P, docID, tokens, TokenSet(tokens), true), Merged(P, docID, tokens);
    assert D.Keys == E.Keys;
    forall t | t in D ensures D[t] == E[t] {
      if t !in tokens {
        OffsetsOfAbsent(tokens, t);
      }
    }
  }

  /** Indexing every token without merging is Replaced. */
  lemma PartlyReplaced(P: Lists, docID: int, tokens: seq<Term>)
    requires WellFormed(P)
    ensures Partly(P, docID, tokens, TokenSet(tokens), false) == Replaced(P, docID, tokens)
  {
    var D, E := Partly(P, docID, tokens, TokenSet(tokens), false), Replaced(P, docID, tokens);
    assert D.Keys == E.Keys;
    forall t | t in D ensures D[t] == E[t] {
      if t in tokens {
        assert t in TokenSet(tokens);
      }
    }
  }

  /** Indexing one more token updates its entry and nothing else. */
  lemma PartlyStep(P: Lists, docID: int, tokens: seq<Term>, done: set<Term>, t: Term, merge: bool)
    requires WellFormed(P)
    ensures Partly(P, docID, tokens, done + {t}, merge)
      == Partly(P, docID, tokens, done, merge)[t := NewList(P, docID, tokens, t, merge)]
  {
    var A := Partly(P, docID, tokens, done + {t}, merge);
    var B := Partly(P, docID, tokens, done, merge)[t := NewList(P, docID, tokens, t, merge)];
    assert A.Keys == B.Keys;
  }

  /** Indexing a one-token document as written: the token's list becomes [(docID, 0)]. */
  lemma OneTokenReplaced(P: Lists, docID: int, t: Term)
    ensures t in Replaced(P, docID, [t]) && Replaced(P, docID, [t])[t] == [Position(Int(docID), Int(0))]
  {
    OneTokenOffsets(t);
    assert DocPostings(docID, [0]) == [Position(Int(docID), Int(0))];
  }

  /** Indexing a one-token document as intended: the token's list gains (docID, 0). */
  lemma OneTokenMerged(P: Lists, docID: int, t: Term)
    requires WellFormed(P)
    ensures t in Merged(P, docID, [t]) && Merged(P, docID, [t])[t] == Insert1(ListOf(P, t), Position(Int(docID), Int(0)))
  {
    OneTokenOffsets(t);
    var x := Position(Int(docID), Int(0));
    assert DocPostings(docID, [0]) == [x];
    assert [x][..0] == [];
    var s0 := ListOf(P, t);
    assert InsertAll(s0, [x]) == Insert1(InsertAll(s0, []), x);
    assert Merged(P, docID, [t])[t] == InsertAll(s0, [x]);
  }

  /** One token, "name". */
  const Name: Term := [110, 97, 109, 101]

  /** Inserting a later position behind a one-element list appends it. */
  lemma InsertBehind(a: Position, b: Position)
    requires Lt(a, b)
    ensures Insert1([a], b) == [a, b]
  {
    assert [a][1..] == [];
    assert LowerBound([a], b) == 1;
  }

  /** Indexing "name" in document 1 of an empty index gives it the list [(1, 0)]. */
  lemma FirstDocument()
    ensures WellFormed(Merged(map[], 1, [Name]))
    ensures Merged(map[], 1, [Name]) == map[Name := [Position(Int(1), Int(0))]]
  {
    var a := Position(Int(1), Int(0));
    OneTokenMerged(map[], 1, Name);
    var M1 := Merged(map[], 1, [Name]);
    assert Insert1([], a) == [a];
    assert M1.Keys == {Name};
  }

  /**
   * As written, indexing document 3 after document 1, both holding "name",
   * leaves only document 3's posting for it.
   */
  lemma ReplacedLosesPostings()
    ensures var P1 := Replaced(map[], 1, [Name]);
      Replaced(P1, 3, [Name])[Name] == [Position(Int(3), Int(0))]
  {
    OneTokenReplaced(map[], 1, Name);
    OneTokenReplaced(Replaced(map[], 1, [Name]), 3, Name);
  }

  /** Indexing as intended keeps both documents' postings of "name". */
  lemma MergedKeepsBoth()
    ensures WellFormed(Merged(map[], 1, [Name]))
    ensures Merged(Merged(map[], 1, [Name]), 3, [Name])[Name] == [Position(Int(1), Int(0)), Position(Int(3), Int(0))]
  {
    FirstDocument();
    var M1 := map[Name := [Position(Int(1), Int(0))]];
    OneTokenMerged(M1, 3, Name);
    InsertBehind(Position(Int(1), Int(0)), Position(Int(3), Int(0)));
  }
}
