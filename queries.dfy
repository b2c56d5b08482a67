/**
 * The search operations of internal/index/index.go on the abstract view of
 * an inverted index: each token's postings in level-0 order.  The class in
 * module InvertedIndexes walks real skip lists and is proved to compute
 * what the functions here define; the lemmas here say what those answers
 * mean (least posting after a position, first phrase occurrence, a cover
 * holding every token).
 */
module Queries {
  import opened Postings
  import opened Wrappers
  import opened Bytes

  /** A token: Go strings are byte strings. */
  type Term = seq<byte>

  /** Each indexed token's postings, in the order of its skip list. */
  type Lists = map<Term, seq<Position>>

  const NoList := "no list exists for token"

  predicate AllReal(s: seq<Position>) {
    forall x :: x in s ==> IsReal(x)
  }

  /**
   * What ConcurrentIndex leaves behind: every list holds at least one
   * posting, real and strictly increasing.
   */
  predicate WellFormed(P: Lists) {
    forall t :: t in P ==> P[t] != [] && StrictlySorted(P[t]) && AllReal(P[t])
  }

  /**
   * Whether a forward lookup from p may land on x: from a BOF offset every
   * posting qualifies (Next restarts at First), from an EOF offset none does.
   */
  predicate Beyond(p: Position, x: Position) {
    match p.offset
    case BOF => true
    case EOF => false
    case Int(_) => Lt(p, x)
  }

  /** The mirror image of Beyond for backward lookups. */
  predicate Before(p: Position, x: Position) {
    match p.offset
    case BOF => false
    case EOF => true
    case Int(_) => Lt(x, p)
  }

  /** First: the head's level-0 successor, or EOF with an error for an unknown token. */
  function FirstOf(P: Lists, t: Term): (Position, Option<string>)
    requires WellFormed(P)
  {
    if t in P then (P[t][0], None) else (EOFDocument, Some(NoList))
  }

  /** Last: the list's last key, or EOF with an error for an unknown token. */
  function LastOf(P: Lists, t: Term): (Position, Option<string>)
    requires WellFormed(P)
  {
    if t in P then (P[t][|P[t]| - 1], None) else (EOFDocument, Some(NoList))
  }

  /** Next: First from a BOF offset, EOF from an EOF offset, otherwise FindGreaterThan's key. */
  function NextOf(P: Lists, t: Term, p: Position): (Position, Option<string>)
    requires WellFormed(P)
  {
    if p.offset.BOF? then FirstOf(P, t)
    else if p.offset.EOF? then (EOFDocument, None)
    else if t in P then (Succ(P[t], p), None)
    else (EOFDocument, Some(NoList))
  }

  /** Previous: Last from an EOF offset, BOF from a BOF offset, otherwise FindLessThan's key. */
  function PrevOf(P: Lists, t: Term, p: Position): (Position, Option<string>)
    requires WellFormed(P)
  {
    if p.offset.EOF? then LastOf(P, t)
    else if p.offset.BOF? then (BOFDocument, None)
    else if t in P then (Pred(P[t], p), None)
    else (BOFDocument, Some(NoList))
  }

  lemma BeyondAfter(p: Position, a: Position, b: Position)
    requires Beyond(p, a) && Le(a, b)
    ensures Beyond(p, b)
  {
    if p.offset.Int? && a != b {
      LtTransitive(p, a, b);
    }
  }

  lemma BeforeBelow(p: Position, a: Position, b: Position)
    requires Before(p, a) && Le(b, a)
    ensures Before(p, b)
  {
    if p.offset.Int? && a != b {
      LtTransitive(b, a, p);
    }
  }

  /**
   * Next finds the least posting of t that a lookup from p may land on, and
   * EOF exactly when there is none; only an unknown token reports an error,
   * and not from an EOF offset.
   */
  lemma NextOfLeast(P: Lists, t: Term, p: Position)
    requires WellFormed(P)
    ensures var (r, err) := NextOf(P, t, p);
      && (r == EOFDocument <==> t !in P || forall x :: x in P[t] ==> !Beyond(p, x))
      && (r != EOFDocument ==>
            t in P && r in P[t] && Beyond(p, r) && forall x :: x in P[t] && Beyond(p, x) ==> Le(r, x))
      && err == if t in P || p.offset.EOF? then None else Some(NoList)
  {
    if t in P {
      var s := P[t];
      if p.offset.BOF? {
        assert s[0] in s;
        forall x | x in s ensures Le(s[0], x) {
          var i :| 0 <= i < |s| && s[i] == x;
        }
      } else if p.offset.Int? {
        SuccIsLeast(s, p);
      }
    }
  }

  /**
   * Previous finds the greatest posting of t that a backward lookup from p
   * may land on, and BOF exactly when there is none.
   */
  lemma PrevOfGreatest(P: Lists, t: Term, p: Position)
    requires WellFormed(P)
    ensures var (r, err) := PrevOf(P, t, p);
      && (t in P ==> (r == BOFDocument <==> forall x :: x in P[t] ==> !Before(p, x)))
      && (t in P && r != BOFDocument ==>
            r in P[t] && Before(p, r) && forall x :: x in P[t] && Before(p, x) ==> Le(x, r))
      && (t !in P ==> r == if p.offset.EOF? then EOFDocument else BOFDocument)
      && err == if t in P || p.offset.BOF? then None else Some(NoList)
  {
    if t in P {
      var s := P[t];
      if p.offset.EOF? {
        assert s[|s| - 1] in s;
        forall x | x in s ensures Le(x, s[|s| - 1]) {
          var i :| 0 <= i < |s| && s[i] == x;
        }
      } else if p.offset.Int? {
        PredIsGreatest(s, p);
      }
    }
  }

  /** A forward lookup yields EOF or a posting of the token. */
  lemma NextOfPosting(P: Lists, t: Term, p: Position)
    requires WellFormed(P)
    ensures var r := NextOf(P, t, p).0;
      r == EOFDocument || (t in P && r in P[t] && IsReal(r) && Beyond(p, r))
  {
    NextOfLeast(P, t, p);
  }

  // ---------------------------------------------------------------------
  // Phrase search (NextPhrase, index.go:171-196)
  // ---------------------------------------------------------------------

  /** The phrase terms occur at s, s + 1, ..., in order, in one document. */
  predicate PhraseAt(P: Lists, terms: seq<Term>, s: Position) {
    IsReal(s) && forall j :: 0 <= j < |terms| ==> terms[j] in P && Plus(s, j) in P[terms[j]]
  }

  /** The v of NextPhrase after looking up the first j terms forward from p. */
  function Fwd(P: Lists, terms: seq<Term>, p: Position, j: nat): Position
    requires WellFormed(P) && j <= |terms|
  {
    if j == 0 then p else NextOf(P, terms[j - 1], Fwd(P, terms, p, j - 1)).0
  }

  /** The u of NextPhrase at term j, looking back from v through terms |terms|-2 down to j. */
  function Bwd(P: Lists, terms: seq<Term>, v: Position, j: nat): Position
    requires WellFormed(P) && j < |terms|
    decreases |terms| - j
  {
    if j == |terms| - 1 then v else PrevOf(P, terms[j], Bwd(P, terms, v, j + 1)).0
  }

  /** Once the forward walk is not at EOF, step i landed on a posting of its term, beyond step i - 1. */
  lemma {:induction false} FwdAt(P: Lists, terms: seq<Term>, p: Position, j: nat, i: nat)
    requires WellFormed(P) && 1 <= i <= j <= |terms| && Fwd(P, terms, p, j) != EOFDocument
    ensures terms[i - 1] in P && Fwd(P, terms, p, i) in P[terms[i - 1]] && IsReal(Fwd(P, terms, p, i))
    ensures Beyond(Fwd(P, terms, p, i - 1), Fwd(P, terms, p, i))
    decreases j - i
  {
    var q := Fwd(P, terms, p, i - 1);
    var r := Fwd(P, terms, p, i);
    assert r == NextOf(P, terms[i - 1], q).0;
    NextOfPosting(P, terms[i - 1], q);
    if i < j {
      FwdAt(P, terms, p, j, i + 1);
      assert Beyond(r, Fwd(P, terms, p, i + 1));
    }
  }

  /** Once the forward walk is not at EOF, each step landed on a posting of its term, above the last. */
  lemma FwdChain(P: Lists, terms: seq<Term>, p: Position, j: nat)
    requires WellFormed(P) && 1 <= j <= |terms| && Fwd(P, terms, p, j) != EOFDocument
    ensures forall i :: 0 <= i < j ==> terms[i] in P
    ensures forall i :: 1 <= i <= j ==> Fwd(P, terms, p, i) in P[terms[i - 1]] && IsReal(Fwd(P, terms, p, i))
    ensures Beyond(p, Fwd(P, terms, p, 1))
    ensures forall i :: 1 <= i < j ==> Lt(Fwd(P, terms, p, i), Fwd(P, terms, p, i + 1))
  {
    forall i | 1 <= i <= j
      ensures terms[i - 1] in P && Fwd(P, terms, p, i) in P[terms[i - 1]] && IsReal(Fwd(P, terms, p, i))
    {
      FwdAt(P, terms, p, j, i);
    }
    forall i | 0 <= i < j
      ensures terms[i] in P
    {
      FwdAt(P, terms, p, j, i + 1);
    }
    FwdAt(P, terms, p, j, 1);
    forall i | 1 <= i < j
      ensures Lt(Fwd(P, terms, p, i), Fwd(P, terms, p, i + 1))
    {
      FwdAt(P, terms, p, j, i);
      FwdAt(P, terms, p, j, i + 1);
    }
  }

  /** The forward walk never passes an occurrence of the phrase: step i stays at or below s + (i - 1). */
  lemma {:induction false} FwdBound(P: Lists, terms: seq<Term>, p: Position, s: Position, j: nat)
    requires WellFormed(P) && PhraseAt(P, terms, s) && Beyond(p, s) && 1 <= j <= |terms|
    ensures Fwd(P, terms, p, j) != EOFDocument && Le(Fwd(P, terms, p, j), Plus(s, j - 1))
  {
    var q := Fwd(P, terms, p, j - 1);
    var t := terms[j - 1];
    NextOfLeast(P, t, q);
    if j == 1 {
      assert Plus(s, 0) == s;
    } else {
      FwdBound(P, terms, p, s, j - 1);
      NextOfPosting(P, terms[j - 2], Fwd(P, terms, p, j - 2));
      if q != Plus(s, j - 2) {
        LtTransitive(q, Plus(s, j - 2), Plus(s, j - 1));
      }
    }
  }

  /**
   * The backward walk from a real v: each step lands on a posting of its
   * term, no lower than the forward walk's landing on that term, and the
   * landings increase strictly.
   */
  lemma {:induction false} BwdChain(P: Lists, terms: seq<Term>, p: Position, j: nat)
    requires WellFormed(P) && j < |terms| && Fwd(P, terms, p, |terms|) != EOFDocument
    ensures forall i :: j <= i < |terms| ==>
      var u := Bwd(P, terms, Fwd(P, terms, p, |terms|), i);
      terms[i] in P && u in P[terms[i]] && IsReal(u) && Le(Fwd(P, terms, p, i + 1), u)
    ensures forall i :: j <= i < |terms| - 1 ==>
      Lt(Bwd(P, terms, Fwd(P, terms, p, |terms|), i), Bwd(P, terms, Fwd(P, terms, p, |terms|), i + 1))
    decreases |terms| - j
  {
    var n := |terms|;
    var v := Fwd(P, terms, p, n);
    FwdChain(P, terms, p, n);
    if j < n - 1 {
      BwdChain(P, terms, p, j + 1);
      var w := Bwd(P, terms, v, j + 1);
      var f := Fwd(P, terms, p, j + 1);
      assert Lt(f, Fwd(P, terms, p, j + 2));
      if Fwd(P, terms, p, j + 2) != w {
        LtTransitive(f, Fwd(P, terms, p, j + 2), w);
      }
      PrevOfGreatest(P, terms[j], w);
    }
  }

  /** Between two integer positions there is nothing: a < s + 1 means a <= s. */
  lemma BelowNext(a: Position, s: Position)
    requires IsReal(a) && IsReal(s) && Lt(a, Plus(s, 1))
    ensures Le(a, s)
  {
  }

  /** The backward walk never passes an occurrence either: step i stays at or below s + i. */
  lemma {:induction false} BwdBound(P: Lists, terms: seq<Term>, p: Position, s: Position, j: nat)
    requires WellFormed(P) && PhraseAt(P, terms, s) && Beyond(p, s) && j < |terms|
    ensures Fwd(P, terms, p, |terms|) != EOFDocument
    ensures Le(Bwd(P, terms, Fwd(P, terms, p, |terms|), j), Plus(s, j))
    decreases |terms| - j
  {
    var n := |terms|;
    var v := Fwd(P, terms, p, n);
    FwdBound(P, terms, p, s, n);
    if j < n - 1 {
      BwdBound(P, terms, p, s, j + 1);
      BwdChain(P, terms, p, j);
      var u, w := Bwd(P, terms, v, j), Bwd(P, terms, v, j + 1);
      assert Lt(u, w);
      if w != Plus(s, j + 1) {
        LtTransitive(u, w, Plus(s, j + 1));
      }
      assert Plus(Plus(s, j), 1) == Plus(s, j + 1);
      BelowNext(u, Plus(s, j));
    }
  }

  /** Adjacent steps that increase make a strictly sorted run. */
  lemma {:induction false} Ascending(c: seq<Position>)
    requires forall i :: 0 <= i < |c| - 1 ==> Lt(c[i], c[i + 1])
    ensures StrictlySorted(c)
  {
    if |c| > 1 {
      var m := |c| - 1;
      Ascending(c[..m]);
      forall i, j | 0 <= i < j < |c| ensures Lt(c[i], c[j]) {
        if j < m {
          assert Lt(c[..m][i], c[..m][j]);
        } else if i < m - 1 {
          assert Lt(c[..m][i], c[..m][m - 1]);
          LtTransitive(c[i], c[m - 1], c[m]);
        }
      }
    }
  }

  /**
   * A strictly sorted run of real positions whose ends share a document
   * stays in that document, and each step adds at least one to the offset.
   */
  lemma SameDocRun(c: seq<Position>)
    requires |c| >= 1 && StrictlySorted(c) && forall i :: 0 <= i < |c| ==> IsReal(c[i])
    requires c[0].documentID == c[|c| - 1].documentID
    ensures forall i :: 0 <= i < |c| ==>
      && IsReal(c[i]) && IsReal(c[0]) && IsReal(c[|c| - 1])
      && c[i].documentID == c[0].documentID
      && c[0].offset.n + i <= c[i].offset.n <= c[|c| - 1].offset.n - (|c| - 1 - i)
  {
    var m := |c|;
    forall i | 0 <= i < m ensures c[i].documentID == c[0].documentID {
      if 0 < i < m - 1 {
        assert Lt(c[0], c[i]) && Lt(c[i], c[m - 1]);
      }
    }
    forall i | 0 <= i < m ensures c[0].offset.n + i <= c[i].offset.n {
      var k := 0;
      while k < i
        invariant k <= i && c[0].offset.n + k <= c[k].offset.n
      {
        assert Lt(c[k], c[k + 1]);
        k := k + 1;
      }
    }
    forall i | 0 <= i < m ensures c[i].offset.n <= c[m - 1].offset.n - (m - 1 - i) {
      var k := m - 1;
      while k > i
        invariant i <= k <= m - 1 && c[k].offset.n <= c[m - 1].offset.n - (m - 1 - k)
      {
        assert Lt(c[k - 1], c[k]);
        k := k - 1;
      }
    }
  }

  /** The landings of the backward walk, as a sequence. */
  function BwdRun(P: Lists, terms: seq<Term>, v: Position): (c: seq<Position>)
    requires WellFormed(P) && |terms| >= 1
    ensures |c| == |terms| && forall i :: 0 <= i < |terms| ==> c[i] == Bwd(P, terms, v, i)
  {
    seq(|terms|, (i: int) requires 0 <= i < |terms| => Bwd(P, terms, v, i))
  }

  /**
   * One round of NextPhrase from p, with v the end of the forward walk and
   * u the start of the backward one.  v is EOF exactly when no occurrence
   * of the phrase lies beyond p.  Otherwise u is a posting of the first term
   * beyond p, at or below every occurrence beyond p; the round's test
   * (same document, offsets |terms| - 1 apart) holds exactly when u is
   * itself an occurrence, and then v closes it.
   */
  lemma PhraseRound(P: Lists, terms: seq<Term>, p: Position)
    requires WellFormed(P) && |terms| >= 1
    ensures var n := |terms|;
      var v := Fwd(P, terms, p, n);
      && (v.offset.EOF? <==> v == EOFDocument)
      && (v == EOFDocument ==> forall s :: PhraseAt(P, terms, s) ==> !Beyond(p, s))
      && (v != EOFDocument ==>
            var u := Bwd(P, terms, v, 0);
            && IsReal(u) && IsReal(v) && u in P[terms[0]] && Beyond(p, u)
            && (forall s :: PhraseAt(P, terms, s) && Beyond(p, s) ==> Le(u, s))
            && (!PhraseAt(P, terms, u) ==> forall s :: PhraseAt(P, terms, s) && Beyond(p, s) ==> Beyond(u, s))
            && ((u.documentID == v.documentID && v.offset.n - u.offset.n == n - 1)
                  <==> PhraseAt(P, terms, u))
            && (PhraseAt(P, terms, u) ==> v == Plus(u, n - 1)))
  {
    var n := |terms|;
    var v := Fwd(P, terms, p, n);
    NextOfPosting(P, terms[n - 1], Fwd(P, terms, p, n - 1));
    forall s | PhraseAt(P, terms, s) && Beyond(p, s) ensures v != EOFDocument {
      FwdBound(P, terms, p, s, n);
    }
    if v != EOFDocument {
      FwdChain(P, terms, p, n);
      BwdChain(P, terms, p, 0);
      var u := Bwd(P, terms, v, 0);
      BeyondAfter(p, Fwd(P, terms, p, 1), u);
      forall s | PhraseAt(P, terms, s) && Beyond(p, s) ensures Le(u, s) {
        BwdBound(P, terms, p, s, 0);
        assert Plus(s, 0) == s;
      }
      var c := BwdRun(P, terms, v);
      assert c[0] == u && c[n - 1] == v;
      Ascending(c);
      assert Le(u, v);
      if u.documentID == v.documentID && v.offset.n - u.offset.n == n - 1 {
        SameDocRun(c);
        forall j | 0 <= j < n ensures terms[j] in P && Plus(u, j) in P[terms[j]] {
          assert c[j] == Plus(u, j);
        }
      }
      if PhraseAt(P, terms, u) {
        BwdBound(P, terms, p, u, n - 1);
        assert Le(v, Plus(u, n - 1));
        assert u.documentID == v.documentID;
        SameDocRun(c);
      }
    }
  }

  /**
   * The postings of t that a lookup from p may still reach, plus one for a
   * BOF offset: the measure that a phrase or cover search shrinks.
   */
  function Remaining(P: Lists, t: Term, p: Position): nat {
    if t !in P then 0
    else if p.offset.BOF? then |P[t]| + 1
    else if p.offset.EOF? then 0
    else CountAfter(P[t], p)
  }

  lemma {:induction false} CountAfterBound(s: seq<Position>, p: Position)
    ensures CountAfter(s, p) <= |s|
  {
    if s != [] {
      CountAfterBound(s[1..], p);
    }
  }

  /** Moving from p to a real position beyond it never raises the measure... */
  lemma RemainingMonotone(P: Lists, t: Term, p: Position, u: Position)
    requires IsReal(u) && Beyond(p, u)
    ensures Remaining(P, t, u) <= Remaining(P, t, p)
  {
    if t in P {
      if p.offset.BOF? {
        CountAfterBound(P[t], u);
      } else {
        CountAfterMonotone(P[t], p, u);
      }
    }
  }

  /** ... and moving to a posting of t lowers it for t. */
  lemma RemainingDrops(P: Lists, t: Term, p: Position, u: Position)
    requires t in P && u in P[t] && IsReal(u) && Beyond(p, u)
    ensures Remaining(P, t, u) < Remaining(P, t, p)
  {
    if p.offset.BOF? {
      CountAfterBound(P[t], u);
    } else {
      CountAfterStrict(P[t], p, u);
    }
  }

  /**
   * NextPhrase: walk forward through the terms to v; at EOF answer the EOF
   * pair; otherwise walk back to u, answer [u, v] when they span exactly
   * the phrase, else search again from u.
   */
  function Phrase(P: Lists, terms: seq<Term>, p: Position): (Position, Position)
    requires WellFormed(P) && |terms| >= 1
    decreases Remaining(P, terms[0], p)
  {
    var n := |terms|;
    var v := Fwd(P, terms, p, n);
    if v.offset.EOF? then (EOFDocument, EOFDocument)
    else
      PhraseRound(P, terms, p);
      var u := Bwd(P, terms, v, 0);
      if u.documentID == v.documentID && v.offset.n - u.offset.n == n - 1 then (u, v)
      else
        RemainingDrops(P, terms[0], p, u);
        Phrase(P, terms, u)
  }

  /** One round of Phrase, with the facts the round's arithmetic and its recursion need. */
  lemma PhraseStep(P: Lists, terms: seq<Term>, p: Position)
    requires WellFormed(P) && |terms| >= 1
    ensures var v := Fwd(P, terms, p, |terms|);
      && (v.offset.EOF? ==> Phrase(P, terms, p) == (EOFDocument, EOFDocument))
      && (!v.offset.EOF? ==>
            var u := Bwd(P, terms, v, 0);
            && IsReal(u) && IsReal(v) && Remaining(P, terms[0], u) < Remaining(P, terms[0], p)
            && Phrase(P, terms, p) ==
                 if u.documentID == v.documentID && v.offset.n - u.offset.n == |terms| - 1 then (u, v)
                 else Phrase(P, terms, u))
  {
    PhraseRound(P, terms, p);
    var v := Fwd(P, terms, p, |terms|);
    if !v.offset.EOF? {
      RemainingDrops(P, terms[0], p, Bwd(P, terms, v, 0));
    }
  }

  /**
   * NextPhrase finds the first occurrence of the phrase beyond p, as the
   * pair of its first and last positions, and the EOF pair exactly when
   * there is none.
   */
  lemma {:induction false} PhraseIsFirst(P: Lists, terms: seq<Term>, p: Position)
    requires WellFormed(P) && |terms| >= 1
    ensures var (u, v) := Phrase(P, terms, p);
      && (u == EOFDocument <==> forall s :: PhraseAt(P, terms, s) ==> !Beyond(p, s))
      && (u == EOFDocument ==> v == EOFDocument)
      && (u != EOFDocument ==>
            && PhraseAt(P, terms, u) && Beyond(p, u) && v == Plus(u, |terms| - 1)
            && forall s :: PhraseAt(P, terms, s) && Beyond(p, s) ==> Le(u, s))
    decreases Remaining(P, terms[0], p)
  {
    var n := |terms|;
    var v := Fwd(P, terms, p, n);
    PhraseRound(P, terms, p);
    if !v.offset.EOF? {
      var u := Bwd(P, terms, v, 0);
      if !(u.documentID == v.documentID && v.offset.n - u.offset.n == n - 1) {
        RemainingDrops(P, terms[0], p, u);
        PhraseIsFirst(P, terms, u);
        var (a, b) := Phrase(P, terms, u);
        if a != EOFDocument {
          BeyondAfter(p, u, a);
        }
      }
    }
  }

  /**
   * FindAllPhrases from u: NextPhrase from u, keeping each answer that is
   * not at EOF and moving to its start, until the start reaches the EOF
   * document.
   */
  function PhrasesFrom(P: Lists, terms: seq<Term>, u: Position): seq<seq<Position>>
    requires WellFormed(P) && |terms| >= 1
    decreases if u.documentID.EOF? then 0 else Remaining(P, terms[0], u) + 1
  {
    if u.documentID.EOF? then []
    else
      var (a, b) := Phrase(P, terms, u);
      PhraseIsFirst(P, terms, u);
      if a != EOFDocument then
        RemainingDrops(P, terms[0], u, a);
        [[a, b]] + PhrasesFrom(P, terms, a)
      else PhrasesFrom(P, terms, a)
  }

  /**
   * One round of PhrasesFrom: the answer a of NextPhrase is the EOF position
   * or a posting of the first term beyond u, and the walk goes on from a.
   */
  lemma PhrasesFromStep(P: Lists, terms: seq<Term>, u: Position)
    requires WellFormed(P) && |terms| >= 1 && !u.documentID.EOF?
    ensures var a := Phrase(P, terms, u).0;
      && (a == EOFDocument || (IsReal(a) && Remaining(P, terms[0], a) < Remaining(P, terms[0], u)))
      && PhrasesFrom(P, terms, u) ==
           if a != EOFDocument then [[a, Phrase(P, terms, u).1]] + PhrasesFrom(P, terms, a)
           else PhrasesFrom(P, terms, a)
  {
    PhraseIsFirst(P, terms, u);
    var a := Phrase(P, terms, u).0;
    if a != EOFDocument {
      RemainingDrops(P, terms[0], u, a);
    }
  }

  /**
   * The answers of FindAllPhrases from u are occurrences of the phrase
   * beyond u, in increasing order, and every occurrence beyond u is among
   * them.
   */
  lemma {:induction false} PhrasesFromFacts(P: Lists, terms: seq<Term>, u: Position)
    requires WellFormed(P) && |terms| >= 1
    ensures forall i :: 0 <= i < |PhrasesFrom(P, terms, u)| ==>
      var r := PhrasesFrom(P, terms, u)[i];
      |r| == 2 && PhraseAt(P, terms, r[0]) && Beyond(u, r[0]) && r[1] == Plus(r[0], |terms| - 1)
    ensures forall i, j :: 0 <= i < j < |PhrasesFrom(P, terms, u)| ==>
      Lt(PhrasesFrom(P, terms, u)[i][0], PhrasesFrom(P, terms, u)[j][0])
    ensures !u.documentID.EOF? ==>
      forall s :: PhraseAt(P, terms, s) && Beyond(u, s) ==> [s, Plus(s, |terms| - 1)] in PhrasesFrom(P, terms, u)
    decreases if u.documentID.EOF? then 0 else Remaining(P, terms[0], u) + 1
  {
    if !u.documentID.EOF? {
      var (a, b) := Phrase(P, terms, u);
      PhraseIsFirst(P, terms, u);
      if a != EOFDocument {
        RemainingDrops(P, terms[0], u, a);
        PhrasesFromFacts(P, terms, a);
        var rs := PhrasesFrom(P, terms, u);
        var rest := PhrasesFrom(P, terms, a);
        assert rs == [[a, b]] + rest;
        forall i | 0 <= i < |rs| ensures Beyond(u, rs[i][0]) {
          if i > 0 {
            assert Beyond(a, rest[i - 1][0]);
            BeyondAfter(u, a, rest[i - 1][0]);
          }
        }
        forall i, j | 0 <= i < j < |rs| ensures Lt(rs[i][0], rs[j][0]) {
          if i > 0 {
            assert Lt(rest[i - 1][0], rest[j - 1][0]);
          } else {
            assert Beyond(a, rest[j - 1][0]);
          }
        }
        forall s | PhraseAt(P, terms, s) && Beyond(u, s) ensures [s, Plus(s, |terms| - 1)] in rs {
          if s != a {
            assert Beyond(a, s);
            assert [s, Plus(s, |terms| - 1)] in rest;
          }
        }
      }
    }
  }

  /**
   * One round of NextPhrase exactly as index.go:171-195 writes it, for any
   * number of terms: None when the round answers, Some(u) when it calls
   * itself again from u.  The offsets of u and v are both integers except
   * when there are no terms, where u = v and the difference is 0.
   */
  function PhraseRoundAsWritten(P: Lists, terms: seq<Term>, p: Position): Option<Position>
    requires WellFormed(P)
  {
    var v := Fwd(P, terms, p, |terms|);
    if v.offset.EOF? then None
    else
      var u := if terms == [] then v else Bwd(P, terms, v, 0);
      var gap := if u.offset.Int? && v.offset.Int? then v.offset.n - u.offset.n else 0;
      if u.documentID == v.documentID && gap == |terms| - 1 then None else Some(u)
  }

  /**
   * With at least one term, a round that does not answer restarts from a
   * position with fewer postings of the first term left, and Phrase is what
   * the recursion computes.
   */
  lemma PhraseRoundProgress(P: Lists, terms: seq<Term>, p: Position)
    requires WellFormed(P) && |terms| >= 1
    ensures PhraseRoundAsWritten(P, terms, p).None? ==>
      var v := Fwd(P, terms, p, |terms|);
      Phrase(P, terms, p) == if v.offset.EOF? then (EOFDocument, EOFDocument) else (Bwd(P, terms, v, 0), v)
    ensures PhraseRoundAsWritten(P, terms, p).Some? ==>
      var u := PhraseRoundAsWritten(P, terms, p).value;
      Remaining(P, terms[0], u) < Remaining(P, terms[0], p) && Phrase(P, terms, p) == Phrase(P, terms, u)
  {
    PhraseStep(P, terms, p);
  }

  /**
   * With no terms, a round from any position whose offset is not EOF
   * restarts from that same position: NextPhrase as written never returns,
   * and FindAllPhrases, which starts from BOF, never ends.
   */
  lemma EmptyPhraseRestartsInPlace(P: Lists, p: Position)
    requires WellFormed(P) && !p.offset.EOF?
    ensures PhraseRoundAsWritten(P, [], p) == Some(p)
  {
    assert Fwd(P, [], p, 0) == p;
  }

  // ---------------------------------------------------------------------
  // Cover search (NextCover, index.go:215-261)
  // ---------------------------------------------------------------------

  /**
   * The first loop of NextCover from token j on, with v the greatest
   * forward lookup so far: the lexicographically greatest Next(token, p),
   * cut short by the first lookup that reaches the EOF document.
   */
  function CoverEndFrom(P: Lists, tokens: seq<Term>, p: Position, j: nat, v: Position): Position
    requires WellFormed(P) && j <= |tokens|
    decreases |tokens| - j
  {
    if j == |tokens| then v
    else
      var m := NextOf(P, tokens[j], p).0;
      if m.documentID.EOF? then m
      else CoverEndFrom(P, tokens, p, j + 1, if j == 0 || Lt(v, m) then m else v)
  }

  /**
   * The second loop of NextCover from token j on, with u the least backward
   * lookup so far from w = v + 1: the lexicographically least
   * Previous(token, w).  This is the corrected form of the test at
   * index.go:251, which CoverStartAsWrittenFrom follows as written.
   */
  function CoverStartFrom(P: Lists, tokens: seq<Term>, w: Position, j: nat, u: Position): Position
    requires WellFormed(P) && j <= |tokens|
    decreases |tokens| - j
  {
    if j == |tokens| then u
    else
      var m := PrevOf(P, tokens[j], w).0;
      CoverStartFrom(P, tokens, w, j + 1, if j == 0 || Lt(m, u) then m else u)
  }

  /**
   * The second loop of NextCover as written at index.go:251: a later token
   * replaces u only when its document is smaller, since the second
   * disjunct asks for two offsets that are both equal and ordered.
   */
  function CoverStartAsWrittenFrom(P: Lists, tokens: seq<Term>, w: Position, j: nat, u: Position): Position
    requires WellFormed(P) && j <= |tokens|
    decreases |tokens| - j
  {
    if j == |tokens| then u
    else
      var m := PrevOf(P, tokens[j], w).0;
      var smaller := CoordLt(m.documentID, u.documentID) || (m.offset == u.offset && CoordLt(m.offset, u.offset));
      CoverStartAsWrittenFrom(P, tokens, w, j + 1, if j == 0 || smaller then m else u)
  }

  /** The sum of the tokens' measures. */
  function Measure(P: Lists, tokens: seq<Term>, p: Position): nat {
    if tokens == [] then 0 else Remaining(P, tokens[0], p) + Measure(P, tokens[1..], p)
  }

  lemma {:induction false} MeasureDrops(P: Lists, tokens: seq<Term>, p: Position, u: Position, k: nat)
    requires k < |tokens| && tokens[k] in P && u in P[tokens[k]] && IsReal(u) && Beyond(p, u)
    ensures Measure(P, tokens, u) < Measure(P, tokens, p)
  {
    if k == 0 {
      RemainingDrops(P, tokens[0], p, u);
      MeasureMonotone(P, tokens[1..], p, u);
    } else {
      RemainingMonotone(P, tokens[0], p, u);
      MeasureDrops(P, tokens[1..], p, u, k - 1);
    }
  }

  lemma {:induction false} MeasureMonotone(P: Lists, tokens: seq<Term>, p: Position, u: Position)
    requires IsReal(u) && Beyond(p, u)
    ensures Measure(P, tokens, u) <= Measure(P, tokens, p)
  {
    if tokens != [] {
      RemainingMonotone(P, tokens[0], p, u);
      MeasureMonotone(P, tokens[1..], p, u);
    }
  }

  /**
   * What the first loop yields when it does not reach the EOF document:
   * every token's forward lookup is a posting at or below v, and v is one
   * of them.
   */
  lemma {:induction false} CoverEndFacts(P: Lists, tokens: seq<Term>, p: Position, j: nat, v: Position)
    requires WellFormed(P) && j <= |tokens| && 1 <= |tokens|
    requires j >= 1 ==> exists k :: 0 <= k < j && v == NextOf(P, tokens[k], p).0
    requires forall k :: 0 <= k < j ==>
      tokens[k] in P && NextOf(P, tokens[k], p).0 in P[tokens[k]] && Beyond(p, NextOf(P, tokens[k], p).0)
      && Le(NextOf(P, tokens[k], p).0, v)
    requires !CoverEndFrom(P, tokens, p, j, v).documentID.EOF?
    ensures var e := CoverEndFrom(P, tokens, p, j, v);
      && (exists k :: 0 <= k < |tokens| && e == NextOf(P, tokens[k], p).0)
      && forall k :: 0 <= k < |tokens| ==>
           tokens[k] in P && NextOf(P, tokens[k], p).0 in P[tokens[k]] && Beyond(p, NextOf(P, tokens[k], p).0)
           && Le(NextOf(P, tokens[k], p).0, e)
    decreases |tokens| - j
  {
    if j < |tokens| {
      var m := NextOf(P, tokens[j], p).0;
      NextOfPosting(P, tokens[j], p);
      var v' := if j == 0 || Lt(v, m) then m else v;
      forall k | 0 <= k < j + 1 ensures Le(NextOf(P, tokens[k], p).0, v') {
        if k < j && Lt(v, m) && NextOf(P, tokens[k], p).0 != v {
          LtTransitive(NextOf(P, tokens[k], p).0, v, m);
        }
        if k == j && v' == v {
          LtTotal(v, m);
        }
      }
      CoverEndFacts(P, tokens, p, j + 1, v');
    }
  }

  /** The corrected second loop picks one of the backward lookups, at or below all of them. */
  lemma {:induction false} CoverStartLeast(P: Lists, tokens: seq<Term>, w: Position, j: nat, u: Position)
    requires WellFormed(P) && j <= |tokens| && 1 <= |tokens|
    requires j >= 1 ==> exists k :: 0 <= k < j && u == PrevOf(P, tokens[k], w).0
    requires forall k :: 0 <= k < j ==> Le(u, PrevOf(P, tokens[k], w).0)
    ensures var s := CoverStartFrom(P, tokens, w, j, u);
      && (exists k :: 0 <= k < |tokens| && s == PrevOf(P, tokens[k], w).0)
      && forall k :: 0 <= k < |tokens| ==> Le(s, PrevOf(P, tokens[k], w).0)
    decreases |tokens| - j
  {
    if j < |tokens| {
      var m := PrevOf(P, tokens[j], w).0;
      var u' := if j == 0 || Lt(m, u) then m else u;
      forall k | 0 <= k < j + 1 ensures Le(u', PrevOf(P, tokens[k], w).0) {
        if k < j && Lt(m, u) && u != PrevOf(P, tokens[k], w).0 {
          LtTransitive(m, u, PrevOf(P, tokens[k], w).0);
        }
        if k == j && u' == u {
          LtTotal(m, u);
        }
      }
      CoverStartLeast(P, tokens, w, j + 1, u');
    }
  }

  /**
   * When the first loop of NextCover does not reach the EOF document, it
   * ends on a real v, and every backward lookup from v + 1 is a posting of
   * its token lying beyond p and at or below v.
   */
  lemma CoverLookups(P: Lists, tokens: seq<Term>, p: Position)
    requires WellFormed(P) && |tokens| >= 1
    requires !CoverEndFrom(P, tokens, p, 0, p).documentID.EOF?
    ensures var v := CoverEndFrom(P, tokens, p, 0, p);
      && IsReal(v)
      && forall k :: 0 <= k < |tokens| ==>
           var m := PrevOf(P, tokens[k], Plus(v, 1)).0;
           tokens[k] in P && m in P[tokens[k]] && IsReal(m) && Beyond(p, m) && Le(m, v)
  {
    var v := CoverEndFrom(P, tokens, p, 0, p);
    CoverEndFacts(P, tokens, p, 0, p);
    var w := Plus(v, 1);
    var kv :| 0 <= kv < |tokens| && v == NextOf(P, tokens[kv], p).0;
    assert IsReal(v);
    forall k | 0 <= k < |tokens|
      ensures var m := PrevOf(P, tokens[k], w).0;
        m in P[tokens[k]] && IsReal(m) && Beyond(p, m) && Le(m, v)
    {
      var f := NextOf(P, tokens[k], p).0;
      PrevOfGreatest(P, tokens[k], w);
      if f != v {
        LtTransitive(f, v, w);
      }
      var m := PrevOf(P, tokens[k], w).0;
      BeyondAfter(p, f, m);
      BelowNext(m, v);
    }
  }

  /**
   * One round of the corrected NextCover from p that does not reach the EOF
   * document: with v the end and u the start, every token has a posting in
   * [u, v], u is a posting of one of the tokens, lying beyond p, and v is
   * real.
   */
  lemma CoverRound(P: Lists, tokens: seq<Term>, p: Position)
    requires WellFormed(P) && |tokens| >= 1
    requires !CoverEndFrom(P, tokens, p, 0, p).documentID.EOF?
    ensures var v := CoverEndFrom(P, tokens, p, 0, p);
      var u := CoverStartFrom(P, tokens, Plus(v, 1), 0, BOFDocument);
      && IsReal(v) && IsReal(u) && Le(u, v) && Beyond(p, u)
      && (exists k :: 0 <= k < |tokens| && tokens[k] in P && u in P[tokens[k]])
      && forall k :: 0 <= k < |tokens| ==>
           tokens[k] in P && exists x :: x in P[tokens[k]] && Le(u, x) && Le(x, v)
  {
    var v := CoverEndFrom(P, tokens, p, 0, p);
    var w := Plus(v, 1);
    CoverLookups(P, tokens, p);
    CoverStartLeast(P, tokens, w, 0, BOFDocument);
    var u := CoverStartFrom(P, tokens, w, 0, BOFDocument);
    var ku :| 0 <= ku < |tokens| && u == PrevOf(P, tokens[ku], w).0;
    forall k | 0 <= k < |tokens| ensures exists x :: x in P[tokens[k]] && Le(u, x) && Le(x, v) {
      var m := PrevOf(P, tokens[k], w).0;
      assert m in P[tokens[k]] && Le(u, m) && Le(m, v);
    }
  }

  /** A cover round that recurses moves to a strictly smaller measure (or, with no tokens, to BOF). */
  lemma CoverProgress(P: Lists, tokens: seq<Term>, p: Position)
    requires WellFormed(P)
    requires !CoverEndFrom(P, tokens, p, 0, p).documentID.EOF?
    requires var v := CoverEndFrom(P, tokens, p, 0, p);
      CoverStartFrom(P, tokens, Plus(v, 1), 0, BOFDocument).documentID != v.documentID
    ensures var u := CoverStartFrom(P, tokens, Plus(CoverEndFrom(P, tokens, p, 0, p), 1), 0, BOFDocument);
      || Measure(P, tokens, u) < Measure(P, tokens, p)
      || (Measure(P, tokens, u) == Measure(P, tokens, p) && u.documentID.BOF? && !p.documentID.BOF?)
  {
    if |tokens| >= 1 {
      CoverRound(P, tokens, p);
      var v := CoverEndFrom(P, tokens, p, 0, p);
      var u := CoverStartFrom(P, tokens, Plus(v, 1), 0, BOFDocument);
      var k :| 0 <= k < |tokens| && tokens[k] in P && u in P[tokens[k]];
      MeasureDrops(P, tokens, p, u, k);
    }
  }

  /**
   * NextCover with the intended minimum: the first loop gives v; if it
   * reached the EOF document the answer is the EOF pair; otherwise u is
   * the least backward lookup from v + 1, and [u, v] is the answer when
   * both lie in one document, else the search restarts from u.
   */
  function Cover(P: Lists, tokens: seq<Term>, p: Position): (Position, Position)
    requires WellFormed(P)
    decreases Measure(P, tokens, p), if p.documentID.BOF? then 0 else 1
  {
    var v := CoverEndFrom(P, tokens, p, 0, p);
    if v.documentID.EOF? then (EOFDocument, EOFDocument)
    else
      var u := CoverStartFrom(P, tokens, Plus(v, 1), 0, BOFDocument);
      if u.documentID == v.documentID then (u, v)
      else
        CoverProgress(P, tokens, p);
        Cover(P, tokens, u)
  }

  /** One round of Cover, with the decrease its recursion makes. */
  lemma CoverStep(P: Lists, tokens: seq<Term>, p: Position)
    requires WellFormed(P)
    ensures var v := CoverEndFrom(P, tokens, p, 0, p);
      && (v.documentID.EOF? ==> Cover(P, tokens, p) == (EOFDocument, EOFDocument))
      && (!v.documentID.EOF? ==>
            var u := CoverStartFrom(P, tokens, Plus(v, 1), 0, BOFDocument);
            && Cover(P, tokens, p) == (if u.documentID == v.documentID then (u, v) else Cover(P, tokens, u))
            && (u.documentID != v.documentID ==>
                  || Measure(P, tokens, u) < Measure(P, tokens, p)
                  || (Measure(P, tokens, u) == Measure(P, tokens, p) && u.documentID.BOF? && !p.documentID.BOF?)))
  {
    var v := CoverEndFrom(P, tokens, p, 0, p);
    if !v.documentID.EOF? {
      var u := CoverStartFrom(P, tokens, Plus(v, 1), 0, BOFDocument);
      if u.documentID != v.documentID {
        CoverProgress(P, tokens, p);
      }
    }
  }

  /** [u, v] holds a posting of every token, in one document. */
  predicate IsCover(P: Lists, tokens: seq<Term>, u: Position, v: Position) {
    && IsReal(u) && IsReal(v) && u.documentID == v.documentID && Le(u, v)
    && forall k :: 0 <= k < |tokens| ==>
         tokens[k] in P && exists x :: x in P[tokens[k]] && Le(u, x) && Le(x, v)
  }

  /**
   * What the corrected NextCover returns for at least one token: the EOF
   * pair, or a cover [u, v] whose start is a posting of one of the tokens
   * beyond p.  When some token has no posting beyond p the answer is the
   * EOF pair.
   */
  lemma {:induction false} CoverIsCover(P: Lists, tokens: seq<Term>, p: Position)
    requires WellFormed(P) && |tokens| >= 1
    ensures var (u, v) := Cover(P, tokens, p);
      && (u == EOFDocument <==> v == EOFDocument)
      && (u != EOFDocument ==>
            && IsCover(P, tokens, u, v) && Beyond(p, u)
            && exists k :: 0 <= k < |tokens| && tokens[k] in P && u in P[tokens[k]])
      && ((exists k :: 0 <= k < |tokens| && (tokens[k] !in P || forall x :: x in P[tokens[k]] ==> !Beyond(p, x)))
            ==> u == EOFDocument)
    decreases Measure(P, tokens, p)
  {
    var v := CoverEndFrom(P, tokens, p, 0, p);
    if !v.documentID.EOF? {
      CoverRound(P, tokens, p);
      CoverEndFacts(P, tokens, p, 0, p);
      var u := CoverStartFrom(P, tokens, Plus(v, 1), 0, BOFDocument);
      if u.documentID != v.documentID {
        CoverProgress(P, tokens, p);
        CoverIsCover(P, tokens, u);
        var (u', v') := Cover(P, tokens, u);
        if u' != EOFDocument {
          BeyondAfter(p, u, u');
        }
      }
      forall k | 0 <= k < |tokens| ensures tokens[k] in P && exists x :: x in P[tokens[k]] && Beyond(p, x) {
        assert NextOf(P, tokens[k], p).0 in P[tokens[k]];
      }
    }
  }

  /** The as-written second loop also ends on one of the backward lookups. */
  lemma {:induction false} CoverStartAsWrittenPicks(P: Lists, tokens: seq<Term>, w: Position, j: nat, u: Position)
    requires WellFormed(P) && j <= |tokens| && 1 <= |tokens|
    requires j >= 1 ==> exists k :: 0 <= k < j && u == PrevOf(P, tokens[k], w).0
    ensures exists k :: 0 <= k < |tokens| && CoverStartAsWrittenFrom(P, tokens, w, j, u) == PrevOf(P, tokens[k], w).0
    decreases |tokens| - j
  {
    if j < |tokens| {
      var m := PrevOf(P, tokens[j], w).0;
      var smaller := CoordLt(m.documentID, u.documentID) || (m.offset == u.offset && CoordLt(m.offset, u.offset));
      CoverStartAsWrittenPicks(P, tokens, w, j + 1, if j == 0 || smaller then m else u);
    }
  }

  /**
   * NextCover exactly as index.go:215-261 writes it, with the test of
   * index.go:251.  It terminates for the same reason as Cover: the start it
   * restarts from is a posting of some token beyond p.
   */
  function CoverAsWritten(P: Lists, tokens: seq<Term>, p: Position): (Position, Position)
    requires WellFormed(P)
    decreases Measure(P, tokens, p), if p.documentID.BOF? then 0 else 1
  {
    var v := CoverEndFrom(P, tokens, p, 0, p);
    if v.documentID.EOF? then (EOFDocument, EOFDocument)
    else
      var u := CoverStartAsWrittenFrom(P, tokens, Plus(v, 1), 0, BOFDocument);
      if u.documentID == v.documentID then (u, v)
      else if tokens == [] then CoverAsWritten(P, tokens, u)
      else
        CoverLookups(P, tokens, p);
        CoverStartAsWrittenPicks(P, tokens, Plus(v, 1), 0, BOFDocument);
        var k :| 0 <= k < |tokens| && u == PrevOf(P, tokens[k], Plus(v, 1)).0;
        MeasureDrops(P, tokens, p, u, k);
        CoverAsWritten(P, tokens, u)
  }

  /** One round of CoverAsWritten, with the decrease its recursion makes. */
  lemma CoverAsWrittenStep(P: Lists, tokens: seq<Term>, p: Position)
    requires WellFormed(P)
    ensures var v := CoverEndFrom(P, tokens, p, 0, p);
      && (v.documentID.EOF? ==> CoverAsWritten(P, tokens, p) == (EOFDocument, EOFDocument))
      && (!v.documentID.EOF? ==>
            var u := CoverStartAsWrittenFrom(P, tokens, Plus(v, 1), 0, BOFDocument);
            && CoverAsWritten(P, tokens, p) == (if u.documentID == v.documentID then (u, v) else CoverAsWritten(P, tokens, u))
            && (u.documentID != v.documentID ==>
                  || Measure(P, tokens, u) < Measure(P, tokens, p)
                  || (Measure(P, tokens, u) == Measure(P, tokens, p) && u.documentID.BOF? && !p.documentID.BOF?)))
  {
    var v := CoverEndFrom(P, tokens, p, 0, p);
    if !v.documentID.EOF? && tokens != [] {
      var u := CoverStartAsWrittenFrom(P, tokens, Plus(v, 1), 0, BOFDocument);
      if u.documentID != v.documentID {
        CoverLookups(P, tokens, p);
        CoverStartAsWrittenPicks(P, tokens, Plus(v, 1), 0, BOFDocument);
        var k :| 0 <= k < |tokens| && u == PrevOf(P, tokens[k], Plus(v, 1)).0;
        MeasureDrops(P, tokens, p, u, k);
      }
    }
  }

  /** Token "a" at offset 1 and token "b" at offset 0 of document 1. */
  const TwoTokens: Lists := map[[97 as byte] := [Position(Int(1), Int(1))], [98 as byte] := [Position(Int(1), Int(0))]]

  /**
   * The as-written NextCover answers [(1,1), (1,1)] for the tokens a, b
   * over TwoTokens, a span that holds no posting of b; the corrected one
   * answers the cover [(1,0), (1,1)].
   */
  lemma CoverAsWrittenMissesToken()
    ensures WellFormed(TwoTokens)
    ensures CoverAsWritten(TwoTokens, [[97], [98]], BOFDocument) == (Position(Int(1), Int(1)), Position(Int(1), Int(1)))
    ensures !IsCover(TwoTokens, [[97], [98]], Position(Int(1), Int(1)), Position(Int(1), Int(1)))
    ensures Cover(TwoTokens, [[97], [98]], BOFDocument) == (Position(Int(1), Int(0)), Position(Int(1), Int(1)))
    ensures IsCover(TwoTokens, [[97], [98]], Position(Int(1), Int(0)), Position(Int(1), Int(1)))
  {
    var P, T := TwoTokens, [[97 as byte], [98 as byte]];
    var a, b := Position(Int(1), Int(1)), Position(Int(1), Int(0));
    assert NextOf(P, T[0], BOFDocument).0 == a;
    assert NextOf(P, T[1], BOFDocument).0 == b;
    assert CoverEndFrom(P, T, BOFDocument, 0, BOFDocument) == a;
    var w := Plus(a, 1);
    assert PrevOf(P, T[0], w).0 == a;
    assert PrevOf(P, T[1], w).0 == b;
    assert CoverStartAsWrittenFrom(P, T, w, 0, BOFDocument) == a;
    assert CoverStartFrom(P, T, w, 0, BOFDocument) == b;
    assert forall x :: x in P[T[1]] ==> x == b;
  }

  // ---------------------------------------------------------------------
  // Proximity ranking (RankProximity, index.go:268-300)
  // ---------------------------------------------------------------------

  /**
   * NextCover with the minimum test as written at index.go:251 (fixed
   * false) or with the corrected test (fixed true).
   */
  function CoverBy(P: Lists, tokens: seq<Term>, p: Position, fixed: bool): (Position, Position)
    requires WellFormed(P)
  {
    if fixed then Cover(P, tokens, p) else CoverAsWritten(P, tokens, p)
  }

  /** [u, v] runs forward through real positions of one document. */
  predicate IsSpan(u: Position, v: Position) {
    IsReal(u) && IsReal(v) && u.documentID == v.documentID && Le(u, v)
  }

  /**
   * What the as-written NextCover returns for at least one token: the EOF
   * pair, or a span [u, v] of one document whose start is a posting of one
   * of the tokens beyond p; the EOF pair whenever some token has no posting
   * beyond p.  Unlike Cover, the span need not hold a posting of every
   * token (CoverAsWrittenMissesToken).
   */
  lemma {:induction false} CoverAsWrittenFacts(P: Lists, tokens: seq<Term>, p: Position)
    requires WellFormed(P) && |tokens| >= 1
    ensures var (u, v) := CoverAsWritten(P, tokens, p);
      && (u == EOFDocument <==> v == EOFDocument)
      && (u != EOFDocument ==>
            && IsSpan(u, v) && Beyond(p, u)
            && exists k :: 0 <= k < |tokens| && tokens[k] in P && u in P[tokens[k]])
      && ((exists k :: 0 <= k < |tokens| && (tokens[k] !in P || forall x :: x in P[tokens[k]] ==> !Beyond(p, x)))
            ==> u == EOFDocument)
    decreases Measure(P, tokens, p)
  {
    var v := CoverEndFrom(P, tokens, p, 0, p);
    if !v.documentID.EOF? {
      CoverLookups(P, tokens, p);
      CoverEndFacts(P, tokens, p, 0, p);
      var w := Plus(v, 1);
      CoverStartAsWrittenPicks(P, tokens, w, 0, BOFDocument);
      var u := CoverStartAsWrittenFrom(P, tokens, w, 0, BOFDocument);
      var k :| 0 <= k < |tokens| && u == PrevOf(P, tokens[k], w).0;
      assert tokens[k] in P && u in P[tokens[k]] && Beyond(p, u) && Le(u, v);
      if u.documentID != v.documentID {
        MeasureDrops(P, tokens, p, u, k);
        CoverAsWrittenFacts(P, tokens, u);
        var (u', v') := CoverAsWritten(P, tokens, u);
        if u' != EOFDocument {
          BeyondAfter(p, u, u');
        }
      }
      forall k | 0 <= k < |tokens| ensures tokens[k] in P && exists x :: x in P[tokens[k]] && Beyond(p, x) {
        assert NextOf(P, tokens[k], p).0 in P[tokens[k]];
      }
    }
  }

  /**
   * Both forms of NextCover answer the EOF pair or a span of one document
   * starting at a posting beyond p, and the EOF pair when a token has no
   * posting beyond p; the corrected form's span is a cover.
   */
  lemma CoverByFacts(P: Lists, tokens: seq<Term>, p: Position, fixed: bool)
    requires WellFormed(P) && |tokens| >= 1
    ensures var (u, v) := CoverBy(P, tokens, p, fixed);
      && (u == EOFDocument <==> v == EOFDocument)
      && (u != EOFDocument ==>
            && IsSpan(u, v) && Beyond(p, u) && (fixed ==> IsCover(P, tokens, u, v))
            && exists k :: 0 <= k < |tokens| && tokens[k] in P && u in P[tokens[k]])
      && ((exists k :: 0 <= k < |tokens| && (tokens[k] !in P || forall x :: x in P[tokens[k]] ==> !Beyond(p, x)))
            ==> u == EOFDocument)
  {
    if fixed {
      CoverIsCover(P, tokens, p);
    } else {
      CoverAsWrittenFacts(P, tokens, p);
    }
  }

  /** The covers RankProximity visits: NextCover from BOF, then from each cover's start, until EOF. */
  function Covers(P: Lists, tokens: seq<Term>, p: Position, fixed: bool): (cs: seq<(Position, Position)>)
    requires WellFormed(P) && |tokens| >= 1
    ensures ValidCovers(cs)
    decreases Measure(P, tokens, p)
  {
    var c := CoverBy(P, tokens, p, fixed);
    if c.0.documentID.EOF? then []
    else
      CoverByFacts(P, tokens, p, fixed);
      var k :| 0 <= k < |tokens| && tokens[k] in P && c.0 in P[tokens[k]];
      MeasureDrops(P, tokens, p, c.0, k);
      var rest := Covers(P, tokens, c.0, fixed);
      assert forall i :: 0 < i <= |rest| ==> ([c] + rest)[i] == rest[i - 1];
      [c] + rest
  }

  /** One step of Covers: the cover from p is the EOF pair, or a span followed by those from its start. */
  lemma CoversStep(P: Lists, tokens: seq<Term>, p: Position, fixed: bool)
    requires WellFormed(P) && |tokens| >= 1
    ensures var c := CoverBy(P, tokens, p, fixed);
      && (c.0 == EOFDocument || (IsSpan(c.0, c.1) && Beyond(p, c.0) && (fixed ==> IsCover(P, tokens, c.0, c.1))))
      && (c.0.documentID.EOF? ==> c.0 == EOFDocument && Covers(P, tokens, p, fixed) == [])
      && (!c.0.documentID.EOF? ==>
            Covers(P, tokens, p, fixed) == [c] + Covers(P, tokens, c.0, fixed) && Measure(P, tokens, c.0) < Measure(P, tokens, p))
  {
    CoverByFacts(P, tokens, p, fixed);
    var c := CoverBy(P, tokens, p, fixed);
    if !c.0.documentID.EOF? {
      var k :| 0 <= k < |tokens| && tokens[k] in P && c.0 in P[tokens[k]];
      MeasureDrops(P, tokens, p, c.0, k);
    }
  }

  /**
   * Every visited pair is a span of one document beyond p, a cover in the
   * corrected form, and their starts increase strictly.
   */
  lemma {:induction false} CoversAscend(P: Lists, tokens: seq<Term>, p: Position, fixed: bool)
    requires WellFormed(P) && |tokens| >= 1
    ensures forall i :: 0 <= i < |Covers(P, tokens, p, fixed)| ==>
      var c := Covers(P, tokens, p, fixed)[i];
      IsSpan(c.0, c.1) && Beyond(p, c.0) && (fixed ==> IsCover(P, tokens, c.0, c.1))
    ensures forall i, j :: 0 <= i < j < |Covers(P, tokens, p, fixed)| ==>
      Lt(Covers(P, tokens, p, fixed)[i].0, Covers(P, tokens, p, fixed)[j].0)
    decreases Measure(P, tokens, p)
  {
    var c := CoverBy(P, tokens, p, fixed);
    CoverByFacts(P, tokens, p, fixed);
    if !c.0.documentID.EOF? {
      var k :| 0 <= k < |tokens| && tokens[k] in P && c.0 in P[tokens[k]];
      MeasureDrops(P, tokens, p, c.0, k);
      CoversAscend(P, tokens, c.0, fixed);
      var cs := Covers(P, tokens, p, fixed);
      var rest := Covers(P, tokens, c.0, fixed);
      assert cs == [c] + rest;
      forall i | 0 <= i < |cs| ensures Beyond(p, cs[i].0) {
        if i > 0 {
          assert Lt(c.0, rest[i - 1].0);
          BeyondAfter(p, c.0, cs[i].0);
        }
      }
      forall i, j | 0 <= i < j < |cs| ensures Lt(cs[i].0, cs[j].0) {
        if i > 0 {
          assert Lt(rest[i - 1].0, rest[j - 1].0);
        } else {
          assert Lt(c.0, rest[j - 1].0);
        }
      }
    }
  }

  /** A cover's proximity score: one over its length in positions. */
  function CoverScore(u: Position, v: Position): (r: real)
    requires u.offset.Int? && v.offset.Int? && u.offset.n <= v.offset.n
    ensures 0.0 < r <= 1.0
  {
    1.0 / (v.offset.n - u.offset.n + 1) as real
  }

  predicate ValidCovers(cs: seq<(Position, Position)>) {
    forall i :: 0 <= i < |cs| ==>
      cs[i].0.offset.Int? && cs[i].1.offset.Int? && cs[i].0.offset.n <= cs[i].1.offset.n
  }

  lemma AppendAssoc<T>(a: seq<T>, b: seq<T>, c: seq<T>)
    ensures (a + b) + c == a + (b + c)
  {
  }

  lemma ValidCoversAppend(a: seq<(Position, Position)>, b: seq<(Position, Position)>)
    requires ValidCovers(a) && ValidCovers(b)
    ensures ValidCovers(a + b)
  {
    forall i | 0 <= i < |a + b|
      ensures (a + b)[i].0.offset.Int? && (a + b)[i].1.offset.Int? && (a + b)[i].0.offset.n <= (a + b)[i].1.offset.n
    {
      if i >= |a| { assert (a + b)[i] == b[i - |a|]; }
    }
  }

  /**
   * Consecutive covers in one document, folded into one Match: the first
   * cover's pair, scored by the sum of the covers' scores.
   */
  function Group(cs: seq<(Position, Position)>): (ms: seq<Match>)
    requires ValidCovers(cs)
    ensures |ms| <= |cs|
    ensures forall i :: 0 <= i < |ms| ==> |ms[i].offsets| == 2
    ensures cs != [] ==> ms != [] && ms[|ms| - 1].offsets[0].documentID == cs[|cs| - 1].0.documentID
  {
    if cs == [] then []
    else
      var g := Group(cs[..|cs| - 1]);
      var c := cs[|cs| - 1];
      if g != [] && g[|g| - 1].offsets[0].documentID == c.0.documentID then
        g[..|g| - 1] + [Match(g[|g| - 1].offsets, g[|g| - 1].score + CoverScore(c.0, c.1))]
      else
        g + [Match([c.0, c.1], CoverScore(c.0, c.1))]
  }

  /**
   * One pass of RankProximity's loop over the cover c: a cover in a later
   * document closes the candidate match and opens a new one, a cover in the
   * candidate's document adds its score; either way the matches so far and
   * the candidate are the grouping of the covers seen.
   */
  lemma {:induction false} RankStep(cs: seq<(Position, Position)>, c: (Position, Position),
                  results: seq<Match>, candidate: seq<Position>, score: real,
                  results': seq<Match>, candidate': seq<Position>, score': real)
    requires ValidCovers(cs) && c.0.offset.Int? && c.1.offset.Int? && c.0.offset.n <= c.1.offset.n
    requires cs == [] ==> results == [] && candidate == [c.0, c.1] && score == 0.0
    requires cs != [] ==>
      && Group(cs) == results + [Match(candidate, score)]
      && candidate[0].documentID == cs[|cs| - 1].0.documentID && Lt(cs[|cs| - 1].0, c.0)
    requires CoordLt(candidate[0].documentID, c.0.documentID) ==>
      results' == results + [Match(candidate, score)] && candidate' == [c.0, c.1] && score' == CoverScore(c.0, c.1)
    requires !CoordLt(candidate[0].documentID, c.0.documentID) ==>
      results' == results && candidate' == candidate && score' == score + CoverScore(c.0, c.1)
    ensures ValidCovers(cs + [c])
    ensures Group(cs + [c]) == results' + [Match(candidate', score')]
    ensures candidate'[0].documentID == c.0.documentID
  {
    GroupSnoc(cs, c);
    var g := Group(cs);
    var sc := CoverScore(c.0, c.1);
    if cs == [] {
      assert !CoordLt(candidate[0].documentID, c.0.documentID);
      assert [] + [Match(candidate, 0.0 + sc)] == [Match([c.0, c.1], sc)];
    } else {
      SnocParts(results, Match(candidate, score));
      assert g[..|g| - 1] == results && g[|g| - 1] == Match(candidate, score);
      if candidate[0].documentID == c.0.documentID {
        assert !CoordLt(candidate[0].documentID, c.0.documentID);
        assert Group(cs + [c]) == results + [Match(candidate, score + sc)];
      } else {
        assert CoordLt(candidate[0].documentID, c.0.documentID);
        assert Group(cs + [c]) == g + [Match([c.0, c.1], sc)];
      }
    }
  }

  /** The two parts of a sequence with one more element. */
  lemma SnocParts<T>(s: seq<T>, x: T)
    ensures (s + [x])[..|s|] == s && (s + [x])[|s|] == x && |s + [x]| == |s| + 1
  {
  }

  /** Group of one more cover, in terms of the grouping of the covers before it. */
  lemma {:induction false} GroupSnoc(cs: seq<(Position, Position)>, c: (Position, Position))
    requires ValidCovers(cs) && c.0.offset.Int? && c.1.offset.Int? && c.0.offset.n <= c.1.offset.n
    ensures ValidCovers(cs + [c])
    ensures var g, sc := Group(cs), CoverScore(c.0, c.1);
      Group(cs + [c]) ==
        if g != [] && g[|g| - 1].offsets[0].documentID == c.0.documentID then
          g[..|g| - 1] + [Match(g[|g| - 1].offsets, g[|g| - 1].score + sc)]
        else
          g + [Match([c.0, c.1], sc)]
  {
    ValidCoversAppend(cs, [c]);
    var cs' := cs + [c];
    assert cs'[..|cs'| - 1] == cs && cs'[|cs'| - 1] == c;
  }

  /** The covers before the last one are valid covers too. */
  lemma ValidCoversFront(cs: seq<(Position, Position)>)
    requires ValidCovers(cs) && cs != []
    ensures ValidCovers(cs[..|cs| - 1])
    ensures var c := cs[|cs| - 1]; c.0.offset.Int? && c.1.offset.Int? && c.0.offset.n <= c.1.offset.n
  {
    var pre := cs[..|cs| - 1];
    forall i | 0 <= i < |pre|
      ensures pre[i].0.offset.Int? && pre[i].1.offset.Int? && pre[i].0.offset.n <= pre[i].1.offset.n
    {
      assert pre[i] == cs[i];
    }
  }

  /** Every match is scored above zero and carries the pair of one of the covers. */
  predicate PairsFrom(ms: seq<Match>, cs: seq<(Position, Position)>) {
    forall i :: 0 <= i < |ms| ==>
      ms[i].score > 0.0 && exists k :: 0 <= k < |cs| && ms[i].offsets == [cs[k].0, cs[k].1]
  }

  /** One more cover keeps every match's pair among the covers. */
  lemma PairsWiden(ms: seq<Match>, cs: seq<(Position, Position)>)
    requires cs != [] && PairsFrom(ms, cs[..|cs| - 1])
    ensures PairsFrom(ms, cs)
  {
    var pre := cs[..|cs| - 1];
    forall i | 0 <= i < |ms| ensures ms[i].score > 0.0 && exists k :: 0 <= k < |cs| && ms[i].offsets == [cs[k].0, cs[k].1] {
      var m := ms[i];
      assert m.score > 0.0 && exists k :: 0 <= k < |pre| && m.offsets == [pre[k].0, pre[k].1];
      var k :| 0 <= k < |pre| && m.offsets == [pre[k].0, pre[k].1];
      assert pre[k] == cs[k];
    }
  }

  /** Re-scoring the last match upwards keeps it among the covers' pairs. */
  lemma PairsRescoreLast(g: seq<Match>, cs: seq<(Position, Position)>, x: real)
    requires PairsFrom(g, cs) && g != [] && x > 0.0
    ensures PairsFrom(g[..|g| - 1] + [Match(g[|g| - 1].offsets, x)], cs)
  {
    var ms := g[..|g| - 1] + [Match(g[|g| - 1].offsets, x)];
    assert forall i :: 0 <= i < |ms| - 1 ==> ms[i] == g[i];
    assert ms[|ms| - 1].offsets == g[|g| - 1].offsets;
  }

  /** A new match on the pair of the last cover. */
  lemma PairsAppend(g: seq<Match>, cs: seq<(Position, Position)>, x: real)
    requires cs != [] && PairsFrom(g, cs[..|cs| - 1]) && x > 0.0
    ensures PairsFrom(g + [Match([cs[|cs| - 1].0, cs[|cs| - 1].1], x)], cs)
  {
    PairsWiden(g, cs);
    var ms := g + [Match([cs[|cs| - 1].0, cs[|cs| - 1].1], x)];
    assert forall i :: 0 <= i < |g| ==> ms[i] == g[i];
  }

  /** Every grouped match is scored above zero and carries the pair of one of the covers. */
  lemma {:induction false} GroupPairs(cs: seq<(Position, Position)>)
    requires ValidCovers(cs)
    ensures PairsFrom(Group(cs), cs)
  {
    if cs != [] {
      var n := |cs| - 1;
      var pre, c := cs[..n], cs[n];
      ValidCoversFront(cs);
      GroupPairs(pre);
      var g := Group(pre);
      var sc := CoverScore(c.0, c.1);
      if g != [] && g[|g| - 1].offsets[0].documentID == c.0.documentID {
        var last := g[|g| - 1];
        assert last.score > 0.0;
        PairsRescoreLast(g, pre, last.score + sc);
        PairsWiden(g[..|g| - 1] + [Match(last.offsets, last.score + sc)], cs);
      } else {
        PairsAppend(g, cs, sc);
      }
    }
  }

  lemma CoordLtTransitive(a: Coord, b: Coord, c: Coord)
    requires CoordLt(a, b) && CoordLt(b, c)
    ensures CoordLt(a, c)
  {
  }

  /** Matches whose pairs' documents increase strictly. */
  predicate DocsAscend(ms: seq<Match>) {
    forall i, j :: 0 <= i < j < |ms| && |ms[i].offsets| > 0 && |ms[j].offsets| > 0 ==>
      CoordLt(ms[i].offsets[0].documentID, ms[j].offsets[0].documentID)
  }

  /** Re-scoring the last match keeps the documents ascending. */
  lemma AscendRescoreLast(g: seq<Match>, x: real)
    requires DocsAscend(g) && g != []
    ensures DocsAscend(g[..|g| - 1] + [Match(g[|g| - 1].offsets, x)])
  {
    var ms := g[..|g| - 1] + [Match(g[|g| - 1].offsets, x)];
    assert forall i :: 0 <= i < |ms| ==> ms[i].offsets == g[i].offsets;
  }

  /** A match in a later document than the last one keeps the documents ascending. */
  lemma AscendAppend(g: seq<Match>, m: Match)
    requires DocsAscend(g) && |m.offsets| > 0
    requires forall i :: 0 <= i < |g| ==> |g[i].offsets| > 0
    requires g != [] ==> CoordLt(g[|g| - 1].offsets[0].documentID, m.offsets[0].documentID)
    ensures DocsAscend(g + [m])
  {
    var ms := g + [m];
    forall i, j | 0 <= i < j < |ms| && |ms[i].offsets| > 0 && |ms[j].offsets| > 0
      ensures CoordLt(ms[i].offsets[0].documentID, ms[j].offsets[0].documentID)
    {
      assert ms[i] == g[i];
      if j == |g| {
        if i < |g| - 1 {
          CoordLtTransitive(g[i].offsets[0].documentID, g[|g| - 1].offsets[0].documentID, m.offsets[0].documentID);
        }
      } else {
        assert ms[j] == g[j];
      }
    }
  }

  /**
   * For covers whose starts increase, the grouped matches have strictly
   * increasing documents: one match per document.
   */
  lemma {:induction false} GroupAscends(cs: seq<(Position, Position)>)
    requires ValidCovers(cs)
    requires forall i, j :: 0 <= i < j < |cs| ==> Lt(cs[i].0, cs[j].0)
    ensures DocsAscend(Group(cs))
  {
    if cs != [] {
      var n := |cs| - 1;
      var pre, c := cs[..n], cs[n];
      ValidCoversFront(cs);
      forall i, j | 0 <= i < j < |pre| ensures Lt(pre[i].0, pre[j].0) {
        assert pre[i] == cs[i] && pre[j] == cs[j];
      }
      GroupAscends(pre);
      var g := Group(pre);
      assert DocsAscend(g);
      if g != [] && g[|g| - 1].offsets[0].documentID == c.0.documentID {
        AscendRescoreLast(g, g[|g| - 1].score + CoverScore(c.0, c.1));
      } else {
        if g != [] {
          assert Lt(cs[n - 1].0, c.0) && pre[n - 1] == cs[n - 1];
        }
        AscendAppend(g, Match([c.0, c.1], CoverScore(c.0, c.1)));
      }
    }
  }

  /**
   * The loop of RankProximity from the state in which it has the matches
   * so far, the candidate match and its score, and looks up the cover from
   * q: an EOF cover ends the loop, closing the candidate if it is real;
   * any other cover is folded in as RankStep says and the loop goes on
   * from its start.
   */
  function RankFrom(P: Lists, tokens: seq<Term>, q: Position, results: seq<Match>, candidate: seq<Position>, score: real, fixed: bool): seq<Match>
    requires WellFormed(P) && |tokens| >= 1 && |candidate| >= 1
    decreases Measure(P, tokens, q)
  {
    var (u, v) := CoverBy(P, tokens, q, fixed);
    if !CoordLt(u.documentID, EOF) then
      if CoordLt(candidate[0].documentID, EOF) then results + [Match(candidate, score)] else results
    else
      CoverAdvances(P, tokens, q, fixed);
      if CoordLt(candidate[0].documentID, u.documentID) then
        RankFrom(P, tokens, u, results + [Match(candidate, score)], [u, v], CoverScore(u, v), fixed)
      else
        RankFrom(P, tokens, u, results, candidate, score + CoverScore(u, v), fixed)
  }

  /** A cover that is not the EOF pair has integer offsets in order and lowers the measure. */
  lemma CoverAdvances(P: Lists, tokens: seq<Term>, p: Position, fixed: bool)
    requires WellFormed(P) && |tokens| >= 1 && !CoverBy(P, tokens, p, fixed).0.documentID.EOF?
    ensures var c := CoverBy(P, tokens, p, fixed);
      && c.0.offset.Int? && c.1.offset.Int? && c.0.offset.n <= c.1.offset.n
      && Measure(P, tokens, c.0) < Measure(P, tokens, p)
  {
    CoversStep(P, tokens, p, fixed);
  }

  /**
   * One unfolding of RankFrom past a cover that is not the EOF pair, into the
   * state one pass of RankProximity's loop leaves.
   */
  lemma RankFromStep(P: Lists, tokens: seq<Term>, q: Position, results: seq<Match>, candidate: seq<Position>, score: real,
                     results': seq<Match>, candidate': seq<Position>, score': real, fixed: bool)
    requires WellFormed(P) && |tokens| >= 1 && |candidate| >= 1
    requires CoordLt(CoverBy(P, tokens, q, fixed).0.documentID, EOF)
    requires var c := CoverBy(P, tokens, q, fixed); c.0.offset.Int? && c.1.offset.Int? && c.0.offset.n <= c.1.offset.n
    requires var c := CoverBy(P, tokens, q, fixed); CoordLt(candidate[0].documentID, c.0.documentID) ==>
      results' == results + [Match(candidate, score)] && candidate' == [c.0, c.1] && score' == CoverScore(c.0, c.1)
    requires var c := CoverBy(P, tokens, q, fixed); !CoordLt(candidate[0].documentID, c.0.documentID) ==>
      results' == results && candidate' == candidate && score' == score + CoverScore(c.0, c.1)
    ensures |candidate'| >= 1
    ensures RankFrom(P, tokens, q, results, candidate, score, fixed) == RankFrom(P, tokens, CoverBy(P, tokens, q, fixed).0, results', candidate', score', fixed)
  {
  }

  /** RankFrom at the EOF pair closes the last candidate. */
  lemma RankFromEnd(P: Lists, tokens: seq<Term>, q: Position, results: seq<Match>, candidate: seq<Position>, score: real, fixed: bool)
    requires WellFormed(P) && |tokens| >= 1 && |candidate| >= 1
    requires !CoordLt(CoverBy(P, tokens, q, fixed).0.documentID, EOF)
    ensures RankFrom(P, tokens, q, results, candidate, score, fixed) ==
      if CoordLt(candidate[0].documentID, EOF) then results + [Match(candidate, score)] else results
  {
  }

  /**
   * Started from the first cover, the loop of RankProximity yields the
   * grouping of all covers: given the covers done so far, grouped into the
   * results and the candidate, it yields the grouping of those and of the
   * covers from q.
   */
  lemma {:induction false} RankFromIsGroup(P: Lists, tokens: seq<Term>, q: Position, done: seq<(Position, Position)>,
                                           results: seq<Match>, candidate: seq<Position>, score: real, fixed: bool)
    requires WellFormed(P) && |tokens| >= 1 && |candidate| >= 1 && ValidCovers(done)
    requires done == [] ==>
      results == [] && candidate == [CoverBy(P, tokens, q, fixed).0, CoverBy(P, tokens, q, fixed).1] && score == 0.0
    requires done != [] ==>
      && Group(done) == results + [Match(candidate, score)]
      && q == done[|done| - 1].0 && IsReal(q) && candidate[0].documentID == q.documentID
    ensures RankFrom(P, tokens, q, results, candidate, score, fixed) == Group(done + Covers(P, tokens, q, fixed))
    decreases Measure(P, tokens, q), 1
  {
    var c := CoverBy(P, tokens, q, fixed);
    if !CoordLt(c.0.documentID, EOF) {
      CoversStep(P, tokens, q, fixed);
      RankFromEnd(P, tokens, q, results, candidate, score, fixed);
      assert done + Covers(P, tokens, q, fixed) == done;
    } else {
      RankFromIsGroupStep(P, tokens, q, done, results, candidate, score, fixed);
    }
  }

  /** The inductive step of RankFromIsGroup, past a cover that is not the EOF pair. */
  lemma {:induction false} RankFromIsGroupStep(P: Lists, tokens: seq<Term>, q: Position, done: seq<(Position, Position)>,
                                               results: seq<Match>, candidate: seq<Position>, score: real, fixed: bool)
    requires WellFormed(P) && |tokens| >= 1 && |candidate| >= 1 && ValidCovers(done)
    requires done == [] ==>
      results == [] && candidate == [CoverBy(P, tokens, q, fixed).0, CoverBy(P, tokens, q, fixed).1] && score == 0.0
    requires done != [] ==>
      && Group(done) == results + [Match(candidate, score)]
      && q == done[|done| - 1].0 && IsReal(q) && candidate[0].documentID == q.documentID
    requires CoordLt(CoverBy(P, tokens, q, fixed).0.documentID, EOF)
    ensures RankFrom(P, tokens, q, results, candidate, score, fixed) == Group(done + Covers(P, tokens, q, fixed))
    decreases Measure(P, tokens, q), 0
  {
    var c := CoverBy(P, tokens, q, fixed);
    CoverAdvances(P, tokens, q, fixed);
    var next := CoordLt(candidate[0].documentID, c.0.documentID);
    var results' := if next then results + [Match(candidate, score)] else results;
    var candidate' := if next then [c.0, c.1] else candidate;
    var score' := if next then CoverScore(c.0, c.1) else score + CoverScore(c.0, c.1);
    RankFromStep(P, tokens, q, results, candidate, score, results', candidate', score', fixed);
    CoversStep(P, tokens, q, fixed);
    var done', rest := done + [c], Covers(P, tokens, c.0, fixed);
    RankStep(done, c, results, candidate, score, results', candidate', score');
    RankFromIsGroup(P, tokens, c.0, done', results', candidate', score', fixed);
    ValidCoversAppend(done', rest);
    AppendAssoc(done, [c], rest);
    assert done' + rest == done + Covers(P, tokens, q, fixed);
  }

  /**
   * What RankProximity groups, in either form: matches scored above zero,
   * one per document in increasing document order, each carrying a span of
   * one document that NextCover visited, which in the corrected form is a
   * cover of the tokens.
   */
  lemma RankedMatches(P: Lists, tokens: seq<Term>, fixed: bool)
    requires WellFormed(P) && |tokens| >= 1
    ensures var ms := Group(Covers(P, tokens, BOFDocument, fixed));
      && DocsAscend(ms)
      && forall i :: 0 <= i < |ms| ==>
           && ms[i].score > 0.0 && |ms[i].offsets| == 2
           && IsSpan(ms[i].offsets[0], ms[i].offsets[1])
           && (fixed ==> IsCover(P, tokens, ms[i].offsets[0], ms[i].offsets[1]))
  {
    var cs := Covers(P, tokens, BOFDocument, fixed);
    CoversAscend(P, tokens, BOFDocument, fixed);
    GroupPairs(cs);
    GroupAscends(cs);
    var ms := Group(cs);
    forall i | 0 <= i < |ms|
      ensures IsSpan(ms[i].offsets[0], ms[i].offsets[1])
      ensures fixed ==> IsCover(P, tokens, ms[i].offsets[0], ms[i].offsets[1])
    {
      var k :| 0 <= k < |cs| && ms[i].offsets == [cs[k].0, cs[k].1];
    }
  }

  /** The first min(k, |s|) elements: Go's s[:min(k, len(s))]. */
  function Take<T>(s: seq<T>, k: nat): (r: seq<T>)
    ensures |r| == if k < |s| then k else |s|
    ensures forall i :: 0 <= i < |r| ==> r[i] == s[i]
  {
    if k < |s| then s[..k] else s
  }
}
