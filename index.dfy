/**
 * The inverted index of internal/index/index.go: a map from token to the
 * skip list of its postings, with the navigation, phrase, cover and
 * proximity-ranking searches of Büttcher, Clarke and Cormack, and indexing
 * of a document.  Each method is proved to compute the function of module
 * Queries or Indexing that specifies it, on the index's abstract view
 * lists.
 */
module InvertedIndexes {
  import opened Postings
  import opened Wrappers
  import opened SkipLists
  import opened Queries
  import opened Indexing
  import opened Bytes
  import opened Codec

  /** The offsets of each distinct token of a document: the tokenOffsets loop of ConcurrentIndex. */
  method TokenOffsets(tokens: seq<Term>) returns (m: map<Term, seq<nat>>)
    ensures m.Keys == TokenSet(tokens)
    ensures forall t :: t in m ==> m[t] == OffsetsOf(tokens, t)
  {
    m := map[];
    var j := 0;
    while j < |tokens|
      invariant 0 <= j <= |tokens|
      invariant forall t :: t in m <==> t in tokens[..j]
      invariant forall t :: t in m ==> m[t] == OffsetsOf(tokens[..j], t)
    {
      var t := tokens[j];
      assert tokens[..j + 1] == tokens[..j] + [t];
      forall t' ensures OffsetsOf(tokens[..j + 1], t') == OffsetsOf(tokens[..j], t') + if t == t' then [j] else [] {
        OffsetsOfSnoc(tokens, j, t');
      }
      if t in m {
        m := m[t := m[t] + [j]];
      } else {
        OffsetsOfSnoc(tokens, j, t);
        m := m[t := [j]];
      }
      j := j + 1;
    }
    assert tokens[..j] == tokens;
    assert m.Keys == TokenSet(tokens);
  }

  /** Inserts the positions (docID, o) of a document into sk, offset by offset. */
  method InsertOffsets(sk: SkipList, docID: int, os: seq<nat>)
    requires sk.Valid()
    modifies sk.Repr
    ensures sk.Valid() && fresh(sk.Repr - old(sk.Repr))
    ensures sk.keys == InsertAll(old(sk.keys), DocPostings(docID, os))
  {
    var i := 0;
    while i < |os|
      invariant 0 <= i <= |os|
      invariant sk.Valid() && fresh(sk.Repr - old(sk.Repr))
      invariant sk.keys == InsertAll(old(sk.keys), DocPostings(docID, os[..i]))
    {
      assert DocPostings(docID, os[..i + 1])[..i] == DocPostings(docID, os[..i]);
      sk.Insert(Position(Int(docID), Int(os[i])));
      i := i + 1;
    }
    assert os[..i] == os;
  }

  /** A new skip list holding the positions (docID, o): NewSkipList followed by one Insert per offset. */
  method FreshList(docID: int, os: seq<nat>) returns (sk: SkipList)
    ensures sk.Valid() && fresh(sk.Repr)
    ensures sk.keys == InsertAll([], DocPostings(docID, os))
  {
    sk := new SkipList();
    InsertOffsets(sk, docID, os);
  }

  /**
   * The lists ps are valid skip lists whose objects lie in R, no two sharing
   * an object, and L holds their keys, which are non-empty, real and
   * strictly increasing.
   */
  ghost predicate Coherent(ps: map<Term, SkipList>, L: Lists, R: set<object>)
    reads R
  {
    && (forall t :: t in ps ==> ps[t] in R && ps[t].Repr <= R)
    && (forall t {:trigger ps[t].Valid()} :: t in ps ==> ps[t].Valid())
    && (forall t, t' :: t in ps && t' in ps && t != t' ==> ps[t].Repr !! ps[t'].Repr)
    && L.Keys == ps.Keys
    && (forall t :: t in ps ==> L[t] == ps[t].keys)
    && WellFormed(L)
  }

  /** Coherence survives a larger set of objects. */
  lemma CoherentGrow(ps: map<Term, SkipList>, L: Lists, R: set<object>, R': set<object>)
    requires Coherent(ps, L, R) && R <= R'
    ensures Coherent(ps, L, R')
  {
    assert forall t {:trigger ps[t].Valid()} :: t in ps ==> ps[t].Valid();
  }

  /** Taking t's list out leaves the other lists coherent in the objects t's list does not use. */
  lemma CoherentTake(ps: map<Term, SkipList>, L: Lists, R: set<object>, t: Term)
    requires Coherent(ps, L, R)
    ensures t in ps ==> ps[t].Valid() && ps[t].Repr <= R && ps[t].keys == L[t]
    ensures Coherent(ps - {t}, L - {t}, if t in ps then R - ps[t].Repr else R)
  {
    var ps', L' := ps - {t}, L - {t};
    if t in ps {
      var own := ps[t].Repr;
      assert ps[t].Valid();
      forall t' | t' in ps' ensures ps'[t'] in R - own && ps'[t'].Repr <= R - own {
        var sk := ps[t'];
        assert ps'[t'] == sk && t' != t;
        assert sk.Valid() && sk.Repr !! own;
      }
      assert forall t' {:trigger ps'[t'].Valid()} :: t' in ps' ==> ps[t'].Valid() && ps'[t'] == ps[t'];
      assert forall t' :: t' in ps' ==> L'[t'] == ps'[t'].keys;
      assert L'.Keys == ps'.Keys;
      forall a, b | a in ps' && b in ps' && a != b ensures ps'[a].Repr !! ps'[b].Repr {
        assert ps'[a] == ps[a] && ps'[b] == ps[b];
      }
      assert WellFormed(L');
    } else {
      assert ps' == ps && L' == L;
    }
  }

  /** Putting a valid list sk, disjoint from the others, in as t's list keeps the lists coherent. */
  lemma CoherentPut(ps: map<Term, SkipList>, L: Lists, R: set<object>, t: Term, sk: SkipList)
    requires Coherent(ps - {t}, L - {t}, R)
    requires sk.Valid() && R !! sk.Repr && WellFormed(L[t := sk.keys])
    ensures Coherent(ps[t := sk], L[t := sk.keys], R + sk.Repr)
  {
    var ps0, ps', L' := ps - {t}, ps[t := sk], L[t := sk.keys];
    var R' := R + sk.Repr;
    forall t' | t' in ps' ensures ps'[t'] in R' && ps'[t'].Repr <= R' {
      if t' != t {
        assert t' in ps0 && ps'[t'] == ps0[t'];
      }
    }
    forall t' | t' in ps' ensures ps'[t'].Valid() {
      if t' != t {
        assert t' in ps0 && ps'[t'] == ps0[t'] && ps0[t'].Valid();
      }
    }
    forall a, b | a in ps' && b in ps' && a != b ensures ps'[a].Repr !! ps'[b].Repr {
      if a == t {
        assert ps'[b] == ps0[b] && ps0[b].Repr <= R;
      } else if b == t {
        assert ps'[a] == ps0[a] && ps0[a].Repr <= R;
      } else {
        assert ps'[a] == ps0[a] && ps'[b] == ps0[b];
      }
    }
    assert forall t' :: t' in L' <==> t' in ps' by {
      assert forall t' :: t' != t ==> (t' in L <==> t' in L - {t}) && (t' in ps <==> t' in ps0);
    }
    forall t' | t' in ps' ensures L'[t'] == ps'[t'].keys {
      if t' != t {
        assert ps'[t'] == ps0[t'] && L'[t'] == (L - {t})[t'];
      }
    }
  }

  /** Moving t from the tokens still to do to the tokens done keeps them complementary. */
  lemma TakeOne<T>(all: set<T>, todo: set<T>, done: set<T>, t: T)
    requires todo <= all && done == all - todo && t in todo
    ensures todo - {t} <= all && done + {t} == all - (todo - {t}) && t !in done
  {
  }

  class InvertedIndex {
    /** PostingsList: the skip list of each indexed token. */
    var postings: map<Term, SkipList>
    /** Each token's postings in level-0 order: the abstract view the searches are specified on. */
    ghost var lists: Lists
    ghost var Repr: set<object>

    /** The lists are coherent in the objects of the index other than itself. */
    ghost predicate Valid()
      reads this, Repr
      ensures Valid() ==> this in Repr && WellFormed(lists)
    {
      this in Repr && Coherent(postings, lists, Repr - {this})
    }

    /** NewInvertedIndex: no token has a list. */
    constructor ()
      ensures Valid() && fresh(Repr) && lists == map[]
    {
      postings := map[];
      lists := map[];
      Repr := {this};
    }

    /**
     * The map assignment idx.Index[token] = list: sk, valid and sharing no
     * object with the other lists, which lie in R, becomes t's list.
     */
    method Put(t: Term, sk: SkipList, ghost R: set<object>)
      requires this in Repr && R <= Repr - {this} && Coherent(postings - {t}, lists - {t}, R)
      requires sk.Valid() && this !in sk.Repr && R !! sk.Repr && WellFormed(lists[t := sk.keys])
      modifies this
      ensures Valid() && Repr == old(Repr) + sk.Repr
      ensures postings == old(postings)[t := sk] && lists == old(lists)[t := sk.keys]
    {
      ghost var R' := Repr + sk.Repr - {this};
      var ps := postings[t := sk];
      ghost var L := lists[t := sk.keys];
      CoherentPut(postings, lists, R, t, sk);
      CoherentGrow(ps, L, R + sk.Repr, R');
      postings, lists, Repr := ps, L, Repr + sk.Repr;
      assert Repr - {this} == R';
    }

    /**
     * Indexes one token of a document, given its offsets os: a fresh skip
     * list, or with merge the token's existing one, receives the positions
     * (docID, o), and becomes the token's list.
     */
    method IndexToken(t: Term, docID: int, tokens: seq<Term>, os: seq<nat>, merge: bool)
      requires Valid() && t in tokens && os == OffsetsOf(tokens, t)
      modifies Repr
      ensures Valid() && fresh(Repr - old(Repr))
      ensures lists == old(lists)[t := NewList(old(lists), docID, tokens, t, merge)]
    {
      ghost var P := lists;
      FilledIsNewList(P, docID, tokens, t, merge);
      NewListWellFormed(P, docID, tokens, t, merge);
      ghost var R := if t in postings then Repr - {this} - postings[t].Repr else Repr - {this};
      CoherentTake(postings, lists, Repr - {this}, t);
      var sk: SkipList;
      if merge && t in postings {
        sk := postings[t];
        InsertOffsets(sk, docID, os);
      } else {
        sk := FreshList(docID, os);
      }
      Put(t, sk, R);
    }

    /**
     * Indexes every distinct token of a document, one token at a time in
     * whatever order the offsets map yields them, fresh or merging.
     */
    method IndexDocument(docID: int, tokens: seq<Term>, merge: bool)
      requires Valid()
      modifies Repr
      ensures Valid() && fresh(Repr - old(Repr))
      ensures lists == Partly(old(lists), docID, tokens, TokenSet(tokens), merge)
    {
      ghost var P0, all := lists, TokenSet(tokens);
      var offsets := TokenOffsets(tokens);
      var todo := offsets.Keys;
      ghost var done: set<Term> := {};
      PartlyNone(P0, docID, tokens, merge);
      while todo != {}
        invariant Valid() && fresh(Repr - old(Repr))
        invariant todo <= all && done == all - todo
        invariant lists == Partly(P0, docID, tokens, done, merge)
        decreases |todo|
      {
        var t :| t in todo;
        TakeOne(all, todo, done, t);
        IndexStep(t, docID, tokens, offsets[t], merge, P0, done);
        todo := todo - {t};
        done := done + {t};
      }
      assert done == all;
    }

    /** One pass of IndexDocument's loop: the token t, not indexed yet, gets its new list. */
    method IndexStep(t: Term, docID: int, tokens: seq<Term>, os: seq<nat>, merge: bool,
                     ghost P0: Lists, ghost done: set<Term>)
      requires Valid() && WellFormed(P0) && lists == Partly(P0, docID, tokens, done, merge)
      requires t in tokens && t !in done && os == OffsetsOf(tokens, t)
      modifies Repr
      ensures Valid() && fresh(Repr - old(Repr))
      ensures lists == Partly(P0, docID, tokens, done + {t}, merge)
    {
      PartlyNewList(P0, docID, tokens, done, t, merge);
      IndexToken(t, docID, tokens, os, merge);
      PartlyStep(P0, docID, tokens, done, t, merge);
    }

    /**
     * ConcurrentIndex as written: each token of the document gets a new
     * list holding only this document's positions, replacing its old list.
     */
    method ConcurrentIndex(docID: int, tokens: seq<Term>)
      requires Valid()
      modifies Repr
      ensures Valid() && fresh(Repr - old(Repr))
      ensures lists == Replaced(old(lists), docID, tokens)
    {
      IndexDocument(docID, tokens, false);
      PartlyReplaced(old(lists), docID, tokens);
    }

    /**
     * Index as written: the document's tokens go through ConcurrentIndex, so
     * each of them ends up with a list of this document's positions only.
     * The analyzer's tokens are the input.
     */
    method Index(docID: int, tokens: seq<Term>)
      requires Valid()
      modifies Repr
      ensures Valid() && fresh(Repr - old(Repr))
      ensures lists == Replaced(old(lists), docID, tokens)
    {
      ConcurrentIndex(docID, tokens);
    }

    /**
     * Index as the disabled loop of Index and the index tests expect it:
     * each token's list gains this document's positions and keeps what it
     * had.
     */
    method IndexAccumulating(docID: int, tokens: seq<Term>)
      requires Valid()
      modifies Repr
      ensures Valid() && fresh(Repr - old(Repr))
      ensures lists == Merged(old(lists), docID, tokens)
    {
      IndexDocument(docID, tokens, true);
      PartlyMerged(old(lists), docID, tokens);
    }

    /** First: the key the head of t's list links to at level 0. */
    method First(t: Term) returns (p: Position, err: Option<string>)
      requires Valid()
      ensures (p, err) == FirstOf(lists, t)
    {
      if t in postings {
        var sk := postings[t];
        sk.FollowZero(-1);
        p, err := sk.head.tower[0].key, None;
      } else {
        p, err := EOFDocument, Some(NoList);
      }
    }

    /** Last: the last key of t's list. */
    method Last(t: Term) returns (p: Position, err: Option<string>)
      requires Valid()
      ensures (p, err) == LastOf(lists, t)
    {
      if t in postings {
        var sk := postings[t];
        p := sk.Last();
        err := None;
      } else {
        p, err := EOFDocument, Some(NoList);
      }
    }

    /** Next: the first posting of t after q, with the BOF and EOF cases of the source. */
    method Next(t: Term, q: Position) returns (p: Position, err: Option<string>)
      requires Valid()
      ensures (p, err) == NextOf(lists, t, q)
    {
      if q.offset == BOF {
        p, err := First(t);
        return;
      }
      if q.offset == EOF {
        return EOFDocument, None;
      }
      if t in postings {
        var sk := postings[t];
        var ignored;
        p, ignored := sk.FindGreaterThan(q);
        err := None;
      } else {
        p, err := EOFDocument, Some(NoList);
      }
    }

    /** Previous: the last posting of t before q, with the EOF and BOF cases of the source. */
    method Previous(t: Term, q: Position) returns (p: Position, err: Option<string>)
      requires Valid()
      ensures (p, err) == PrevOf(lists, t, q)
    {
      if q.offset == EOF {
        p, err := Last(t);
        return;
      }
      if q.offset == BOF {
        return BOFDocument, None;
      }
      if t in postings {
        var sk := postings[t];
        var ignored;
        p, ignored := sk.FindLessThan(q);
        err := None;
      } else {
        p, err := BOFDocument, Some(NoList);
      }
    }

    /** The forward walk of NextPhrase: Next of each term in turn, from pos. */
    method PhraseEnd(terms: seq<Term>, pos: Position) returns (v: Position)
      requires Valid()
      ensures v == Fwd(lists, terms, pos, |terms|)
    {
      v := pos;
      var j := 0;
      while j < |terms|
        invariant 0 <= j <= |terms| && v == Fwd(lists, terms, pos, j)
      {
        var ignored;
        v, ignored := Next(terms[j], v);
        j := j + 1;
      }
    }

    /** The backward walk of NextPhrase: Previous of terms |terms|-2 down to 0, from v. */
    method PhraseStart(terms: seq<Term>, v: Position) returns (u: Position)
      requires Valid() && |terms| >= 1
      ensures u == Bwd(lists, terms, v, 0)
    {
      u := v;
      var k := |terms| - 2;
      while k >= 0
        invariant -1 <= k <= |terms| - 2 && u == Bwd(lists, terms, v, k + 1)
      {
        var ignored;
        u, ignored := Previous(terms[k], u);
        k := k - 1;
      }
    }

    /**
     * NextPhrase: the next occurrence of the phrase after pos, as its first
     * and last positions, or the EOF pair.  terms is strings.Fields of the
     * query.  An empty query answers the EOF pair here; as written the
     * source calls itself on the same position without end
     * (EmptyPhraseRestartsInPlace).
     */
    method NextPhrase(terms: seq<Term>, pos: Position) returns (r: seq<Position>)
      requires Valid()
      ensures terms == [] ==> r == [EOFDocument, EOFDocument]
      ensures terms != [] ==> r == [Phrase(lists, terms, pos).0, Phrase(lists, terms, pos).1]
      decreases if terms == [] then 0 else Remaining(lists, terms[0], pos)
    {
      if terms == [] {
        return [EOFDocument, EOFDocument];
      }
      var v := PhraseEnd(terms, pos);
      PhraseStep(lists, terms, pos);
      if v.offset == EOF {
        return [EOFDocument, EOFDocument];
      }
      var u := PhraseStart(terms, v);
      if v.documentID == u.documentID && v.offset.n - u.offset.n == |terms| - 1 {
        return [u, v];
      }
      r := NextPhrase(terms, u);
    }

    /**
     * FindAllPhrases: every occurrence of the phrase, from the start of the
     * index; none for an empty query.  The source ignores its offset
     * argument.
     */
    method FindAllPhrases(terms: seq<Term>, offset: Position) returns (positions: seq<seq<Position>>)
      requires Valid()
      ensures terms == [] ==> positions == []
      ensures terms != [] ==> positions == PhrasesFrom(lists, terms, BOFDocument)
    {
      if terms == [] {
        return [];
      }
      ghost var P := lists;
      var u := BOFDocument;
      positions := [];
      while u.documentID != EOF
        invariant positions + PhrasesFrom(P, terms, u) == PhrasesFrom(P, terms, BOFDocument)
        decreases if u.documentID.EOF? then 0 else Remaining(P, terms[0], u) + 1
      {
        var offsets := NextPhrase(terms, u);
        PhrasesFromStep(P, terms, u);
        u := offsets[0];
        if u.documentID != EOF && u.offset != EOF {
          positions := positions + [offsets];
        }
      }
    }

    /**
     * The first loop of NextCover: the greatest forward lookup from offset,
     * or the first lookup that reaches the EOF document.
     */
    method CoverEnd(tokens: seq<Term>, offset: Position) returns (v: Position)
      requires Valid()
      ensures v == CoverEndFrom(lists, tokens, offset, 0, offset)
    {
      v := offset;
      var j := 0;
      while j < |tokens|
        invariant 0 <= j <= |tokens|
        invariant CoverEndFrom(lists, tokens, offset, j, v) == CoverEndFrom(lists, tokens, offset, 0, offset)
      {
        var localMax, ignored := Next(tokens[j], offset);
        if localMax.documentID == EOF {
          v := localMax;
          break;
        }
        if j == 0 || CoordLt(v.documentID, localMax.documentID)
          || (localMax.documentID == v.documentID && CoordLt(v.offset, localMax.offset))
        {
          v := localMax;
        }
        j := j + 1;
      }
    }

    /** The second loop of NextCover with the test as written at index.go:251. */
    method CoverStartAsWritten(tokens: seq<Term>, w: Position) returns (u: Position)
      requires Valid()
      ensures u == CoverStartAsWrittenFrom(lists, tokens, w, 0, BOFDocument)
    {
      u := BOFDocument;
      var j := 0;
      while j < |tokens|
        invariant 0 <= j <= |tokens|
        invariant CoverStartAsWrittenFrom(lists, tokens, w, j, u) == CoverStartAsWrittenFrom(lists, tokens, w, 0, BOFDocument)
      {
        var localMin, ignored := Previous(tokens[j], w);
        if j == 0 || CoordLt(localMin.documentID, u.documentID)
          || (localMin.offset == u.offset && CoordLt(localMin.offset, u.offset))
        {
          u := localMin;
        }
        j := j + 1;
      }
    }

    /** The second loop of NextCover with the corrected, lexicographic minimum test. */
    method CoverStart(tokens: seq<Term>, w: Position) returns (u: Position)
      requires Valid()
      ensures u == CoverStartFrom(lists, tokens, w, 0, BOFDocument)
    {
      u := BOFDocument;
      var j := 0;
      while j < |tokens|
        invariant 0 <= j <= |tokens|
        invariant CoverStartFrom(lists, tokens, w, j, u) == CoverStartFrom(lists, tokens, w, 0, BOFDocument)
      {
        var localMin, ignored := Previous(tokens[j], w);
        if j == 0 || CoordLt(localMin.documentID, u.documentID)
          || (localMin.documentID == u.documentID && CoordLt(localMin.offset, u.offset))
        {
          u := localMin;
        }
        j := j + 1;
      }
    }

    /**
     * NextCover as written: the span after offset that its two loops find,
     * or the EOF pair.  CoverAsWrittenFacts says what the answer is; it need
     * not hold every token.
     */
    method NextCover(tokens: seq<Term>, offset: Position) returns (r: seq<Position>)
      requires Valid()
      ensures r == [CoverAsWritten(lists, tokens, offset).0, CoverAsWritten(lists, tokens, offset).1]
      decreases Measure(lists, tokens, offset), if offset.documentID.BOF? then 0 else 1
    {
      CoverAsWrittenStep(lists, tokens, offset);
      var v := CoverEnd(tokens, offset);
      if v.documentID == EOF {
        return [EOFDocument, EOFDocument];
      }
      var u := CoverStartAsWritten(tokens, Position(v.documentID, CoordAdd(v.offset, 1)));
      if u.documentID == v.documentID {
        return [u, v];
      }
      r := NextCover(tokens, u);
    }

    /**
     * NextCover with the corrected minimum test: the first span after
     * offset holding every token, or the EOF pair (CoverIsCover).
     */
    method NextCoverFixed(tokens: seq<Term>, offset: Position) returns (r: seq<Position>)
      requires Valid()
      ensures r == [Cover(lists, tokens, offset).0, Cover(lists, tokens, offset).1]
      decreases Measure(lists, tokens, offset), if offset.documentID.BOF? then 0 else 1
    {
      CoverStep(lists, tokens, offset);
      var v := CoverEnd(tokens, offset);
      if v.documentID == EOF {
        return [EOFDocument, EOFDocument];
      }
      var u := CoverStart(tokens, Position(v.documentID, CoordAdd(v.offset, 1)));
      if u.documentID == v.documentID {
        return [u, v];
      }
      r := NextCoverFixed(tokens, u);
    }

    /**
     * The loop of RankProximity over the covers NextCover finds, as written
     * (fixed false) or with the corrected NextCover (fixed true), then the
     * slice results[:min(k, len(results))], which panics for a negative k.
     */
    method RankCovers(tokens: seq<Term>, k: int, fixed: bool) returns (results: Result<seq<Match>>)
      requires Valid()
      ensures tokens == [] ==> results == Success([])
      ensures tokens != [] && k < 0 ==> results.Failure?
      ensures tokens != [] && k >= 0 ==> results == Success(Take(Group(Covers(lists, tokens, BOFDocument, fixed)), k))
    {
      if |tokens| == 0 {
        return Success([]);
      }
      ghost var P := lists;
      var offsets: seq<Position>;
      if fixed {
        offsets := NextCoverFixed(tokens, BOFDocument);
      } else {
        offsets := NextCover(tokens, BOFDocument);
      }
      var u, v := offsets[0], offsets[1];
      var candidate := [u, v];
      var score := 0.0;
      var found := [];
      ghost var q := BOFDocument;
      RankFromIsGroup(P, tokens, q, [], found, candidate, score, fixed);
      assert [] + Covers(P, tokens, q, fixed) == Covers(P, tokens, q, fixed);
      while CoordLt(u.documentID, EOF)
        invariant (u, v) == CoverBy(P, tokens, q, fixed) && |candidate| >= 1
        invariant RankFrom(P, tokens, q, found, candidate, score, fixed) == Group(Covers(P, tokens, BOFDocument, fixed))
        decreases Measure(P, tokens, q)
      {
        CoverAdvances(P, tokens, q, fixed);
        ghost var found0, candidate0, score0 := found, candidate, score;
        if CoordLt(candidate[0].documentID, u.documentID) {
          found := found + [Match(candidate, score)];
          candidate := [u, v];
          score := 0.0;
        }
        score := score + CoverScore(u, v);
        RankFromStep(P, tokens, q, found0, candidate0, score0, found, candidate, score, fixed);
        q := u;
        if fixed {
          offsets := NextCoverFixed(tokens, u);
        } else {
          offsets := NextCover(tokens, u);
        }
        u, v := offsets[0], offsets[1];
      }
      RankFromEnd(P, tokens, q, found, candidate, score, fixed);
      if CoordLt(candidate[0].documentID, EOF) {
        found := found + [Match(candidate, score)];
      }
      if k < 0 {
        return Failure("slice bounds out of range");
      }
      results := Success(Take(found, k));
    }

    /**
     * RankProximity as written: the covers of the as-written NextCover from
     * the start of the index, consecutive covers in one document folded into
     * one Match scored by the sum of their proximity scores, then the first
     * k matches.  tokens is the analyzer's output for the query.
     */
    method RankProximity(tokens: seq<Term>, k: int) returns (results: Result<seq<Match>>)
      requires Valid()
      ensures tokens == [] ==> results == Success([])
      ensures tokens != [] && k < 0 ==> results.Failure?
      ensures tokens != [] && k >= 0 ==> results == Success(Take(Group(Covers(lists, tokens, BOFDocument, false)), k))
    {
      results := RankCovers(tokens, k, false);
    }

    /** RankProximity over the corrected NextCover: every match carries a cover (RankedMatches). */
    method RankProximityFixed(tokens: seq<Term>, k: int) returns (results: Result<seq<Match>>)
      requires Valid()
      ensures tokens == [] ==> results == Success([])
      ensures tokens != [] && k < 0 ==> results.Failure?
      ensures tokens != [] && k >= 0 ==> results == Success(Take(Group(Covers(lists, tokens, BOFDocument, true)), k))
    {
      results := RankCovers(tokens, k, true);
    }

    /** The tower heights of each token's list's nodes, in level-0 order. */
    ghost function Heights(): map<Term, seq<nat>>
      reads this, Repr
    {
      map t | t in postings && postings[t] in Repr :: postings[t].heights
    }

    /** In a valid index every token's list has one tower height in [1, MaxHeight] per key. */
    lemma HeightsTowered()
      requires Valid()
      ensures Towered(lists, Heights())
      ensures forall t :: t in postings ==> t in Heights() && Heights()[t] == postings[t].heights
    {
      var H := Heights();
      forall t | t in postings ensures postings[t] in Repr && t in H && H[t] == postings[t].heights {
        assert postings[t].Valid();
      }
      forall t | t in H ensures |H[t]| == |lists[t]| && forall i :: 0 <= i < |H[t]| ==> 1 <= H[t][i] <= MaxHeight {
        assert postings[t].Valid();
      }
    }

    /**
     * Encode: each token's list written after the others, the tokens in the
     * order the map yields them (es); when the index is storable its image
     * decodes to exactly its lists.
     */
    method Encode() returns (b: seq<byte>, ghost es: seq<Entry>)
      requires Valid()
      ensures forall k :: 0 <= k < |es| ==> EntryOk(es[k])
      ensures Enumerates(es, lists, Heights()) && b == IndexBytes(es)
      ensures Storable(lists) ==> DecodeIndex(b) == Success(Recovery(lists, Heights()))
    {
      ghost var L, H := lists, Heights();
      HeightsTowered();
      assert forall t {:trigger postings[t].Valid()} :: t in postings ==> postings[t].Valid();
      b, es := EncodeLists(postings, L, H);
      EncodedReadsBack(L, H, es);
      assert L == lists && H == Heights();
    }
  }
}
