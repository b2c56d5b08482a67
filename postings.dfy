/**
 * Postings: the (document, offset) positions stored in the skip lists of the
 * inverted index, their lexicographic order, and the neighbour functions that
 * the navigation operations are specified by.
 */
module Postings {

  /**
   * One coordinate of a position.  The source keeps coordinates in float64 only
   * so that they can hold the two sentinels BOF = -Inf and EOF = +Inf; every
   * other value it stores is an integer.
   */
  datatype Coord = BOF | Int(n: int) | EOF

  /** The float order on coordinates: -Inf < every integer < +Inf. */
  predicate CoordLt(a: Coord, b: Coord) {
    match a
    case BOF => !b.BOF?
    case Int(x) => b.EOF? || (b.Int? && x < b.n)
    case EOF => false
  }

  /** Adding an integer to a coordinate, as float addition does: the infinities absorb it. */
  function CoordAdd(c: Coord, k: int): (r: Coord)
    ensures r.Int? <==> c.Int?
    ensures c.Int? ==> r.n == c.n + k
  {
    if c.Int? then Int(c.n + k) else c
  }

  datatype Position = Position(documentID: Coord, offset: Coord)

  const BOFDocument := Position(BOF, BOF)
  const EOFDocument := Position(EOF, EOF)

  /** A position that holds no sentinel: the kind of position the index stores. */
  predicate IsReal(p: Position) {
    p.documentID.Int? && p.offset.Int?
  }

  /**
   * The lexicographic order on positions.  SkipList.Search advances past a node
   * exactly when the node's key is below the query in this order.
   */
  predicate Lt(p: Position, q: Position) {
    CoordLt(p.documentID, q.documentID)
    || (p.documentID == q.documentID && CoordLt(p.offset, q.offset))
  }

  predicate Le(p: Position, q: Position) {
    Lt(p, q) || p == q
  }

  /** The position k places further on in the same document. */
  function Plus(p: Position, k: int): Position {
    Position(p.documentID, CoordAdd(p.offset, k))
  }

  predicate StrictlySorted(s: seq<Position>) {
    forall i, j :: 0 <= i < j < |s| ==> Lt(s[i], s[j])
  }

  lemma LtTransitive(p: Position, q: Position, r: Position)
    requires Lt(p, q) && Lt(q, r)
    ensures Lt(p, r)
  {
  }

  lemma LtTotal(p: Position, q: Position)
    ensures Lt(p, q) || p == q || Lt(q, p)
    ensures !(Lt(p, q) && Lt(q, p))
    ensures !Lt(p, p)
  {
  }

  /** Between two integer positions there is nothing: p < q means p + 1 <= q. */
  lemma LtStep(p: Position, q: Position)
    requires p.offset.Int? && Lt(p, q)
    ensures Le(Plus(p, 1), q)
  {
  }

  /**
   * The first element of s above p, or EOFDocument: the answer of a forward
   * neighbour lookup.  For a sorted s it is the least element above p
   * (SuccIsLeast).
   */
  function Succ(s: seq<Position>, p: Position): (r: Position)
    ensures r == EOFDocument || (r in s && Lt(p, r))
  {
    if s == [] then EOFDocument
    else if Lt(p, s[0]) then s[0]
    else Succ(s[1..], p)
  }

  /**
   * The last element of s below p, or BOFDocument: the answer of a backward
   * neighbour lookup.  For a sorted s it is the greatest element below p
   * (PredIsGreatest).
   */
  function Pred(s: seq<Position>, p: Position): (r: Position)
    ensures r == BOFDocument || (r in s && Lt(r, p))
  {
    if s == [] then BOFDocument
    else if Lt(s[|s| - 1], p) then s[|s| - 1]
    else Pred(s[..|s| - 1], p)
  }

  lemma {:induction false} SuccIsLeast(s: seq<Position>, p: Position)
    requires StrictlySorted(s) && EOFDocument !in s
    ensures Succ(s, p) == EOFDocument <==> (forall x :: x in s ==> !Lt(p, x))
    ensures forall x :: x in s && Lt(p, x) ==> Le(Succ(s, p), x)
  {
    if s != [] {
      SuccIsLeast(s[1..], p);
      if Lt(p, s[0]) {
        forall x | x in s && Lt(p, x) ensures Le(s[0], x) {
          var i :| 0 <= i < |s| && s[i] == x;
        }
      } else {
        forall x | x in s && Lt(p, x) ensures x in s[1..] {
          var i :| 0 <= i < |s| && s[i] == x;
          assert i != 0;
        }
      }
    }
  }

  lemma {:induction false} PredIsGreatest(s: seq<Position>, p: Position)
    requires StrictlySorted(s) && BOFDocument !in s
    ensures Pred(s, p) == BOFDocument <==> (forall x :: x in s ==> !Lt(x, p))
    ensures forall x :: x in s && Lt(x, p) ==> Le(x, Pred(s, p))
  {
    if s != [] {
      var n := |s| - 1;
      PredIsGreatest(s[..n], p);
      if Lt(s[n], p) {
        forall x | x in s && Lt(x, p) ensures Le(x, s[n]) {
          var i :| 0 <= i < |s| && s[i] == x;
        }
      } else {
        forall x | x in s && Lt(x, p) ensures x in s[..n] {
          var i :| 0 <= i < |s| && s[i] == x;
          assert i != n;
        }
      }
    }
  }

  /** Succ read off by index: the element right after the last one at or below p. */
  lemma {:induction false} SuccAt(s: seq<Position>, p: Position, i: nat)
    requires StrictlySorted(s) && i <= |s|
    requires forall j :: 0 <= j < i ==> !Lt(p, s[j])
    requires forall j :: i <= j < |s| ==> Lt(p, s[j])
    ensures Succ(s, p) == if i < |s| then s[i] else EOFDocument
  {
    if i < |s| {
      SuccAt(s[1..], p, if i == 0 then 0 else i - 1);
    }
  }

  /** Pred read off by index: the element right before the first one at or above p. */
  lemma {:induction false} PredAt(s: seq<Position>, p: Position, i: nat)
    requires StrictlySorted(s) && i <= |s|
    requires forall j :: 0 <= j < i ==> Lt(s[j], p)
    requires forall j :: i <= j < |s| ==> !Lt(s[j], p)
    ensures Pred(s, p) == if i > 0 then s[i - 1] else BOFDocument
  {
    if i < |s| {
      PredAt(s[..|s| - 1], p, i);
    }
  }

  /** The number of elements of s strictly above p: a measure that shrinks as p advances. */
  function CountAfter(s: seq<Position>, p: Position): nat {
    if s == [] then 0
    else (if Lt(p, s[0]) then 1 else 0) + CountAfter(s[1..], p)
  }

  lemma {:induction false} CountAfterMonotone(s: seq<Position>, p: Position, q: Position)
    requires Le(p, q)
    ensures CountAfter(s, q) <= CountAfter(s, p)
  {
    if s != [] {
      CountAfterMonotone(s[1..], p, q);
      if Lt(q, s[0]) && p != q {
        LtTransitive(p, q, s[0]);
      }
    }
  }

  /** Moving past an element of s strictly lowers the count. */
  lemma {:induction false} CountAfterStrict(s: seq<Position>, p: Position, q: Position)
    requires Lt(p, q) && q in s
    ensures CountAfter(s, q) < CountAfter(s, p)
  {
    assert s != [];
    LtTotal(p, q);
    if s[0] == q {
      CountAfterMonotone(s[1..], p, q);
      LtTotal(q, q);
    } else {
      CountAfterStrict(s[1..], p, q);
      if Lt(q, s[0]) {
        LtTransitive(p, q, s[0]);
      }
    }
  }

  /**
   * A match returned by a ranking: the cover or phrase it stands for, and its
   * score.  The source's scores are float64; here they are exact reals.
   */
  datatype Match = Match(offsets: seq<Position>, score: real)
}
