/**
 * Reciprocal-rank fusion of a full-text result list and a semantic result
 * list (mergeResult of hybrid_search.go), and the sort-by-score and top-k
 * tail that mergeResult shares with the storage layer's Get.
 *
 * A match is identified by a key that the source computes with GetKey,
 * which is not part of this model; the key function is a parameter.
 */
module Fusion {
  import opened Wrappers
  import opened Postings

  /** The fused score of the full-text match at 0-based rank `rank`. */
  function FtsScore(rank: nat): (s: real)
    ensures 0.0 < s <= 1.1
  {
    1.1 / (rank as real + 1.0)
  }

  /** The fused score of the semantic match at 0-based rank `rank`. */
  function SemanticScore(rank: nat): (s: real)
    ensures 0.0 < s <= 1.0
  {
    1.0 / (rank as real + 1.0)
  }

  // ---------------------------------------------------------------------
  // The `seen` map after each step of the two loops
  // ---------------------------------------------------------------------

  /** `seen` after the first n full-text matches: each overwrites its key. */
  function SeenFts<K(==)>(fts: seq<Match>, key: Match -> K, n: nat): map<K, Match>
    requires n <= |fts|
  {
    if n == 0 then map[]
    else SeenFts(fts, key, n - 1)[key(fts[n - 1]) := Match(fts[n - 1].offsets, FtsScore(n - 1))]
  }

  /**
   * One step of the semantic loop: an existing entry gains the semantic
   * score, a new key gets the semantic match's offsets and score.
   */
  function AddSemantic<K(==)>(seen: map<K, Match>, id: K, m: Match, rank: nat): map<K, Match>
  {
    if id in seen then seen[id := seen[id].(score := seen[id].score + SemanticScore(rank))]
    else seen[id := Match(m.offsets, SemanticScore(rank))]
  }

  /** `seen` after the full-text loop and the first n semantic matches. */
  function SeenAll<K(==)>(fts: seq<Match>, sem: seq<Match>, key: Match -> K, n: nat): map<K, Match>
    requires n <= |sem|
  {
    if n == 0 then SeenFts(fts, key, |fts|)
    else AddSemantic(SeenAll(fts, sem, key, n - 1), key(sem[n - 1]), sem[n - 1], n - 1)
  }

  /** The fused entries, one per distinct key of either list. */
  function Fused<K(==)>(fts: seq<Match>, sem: seq<Match>, key: Match -> K): map<K, Match>
  {
    SeenAll(fts, sem, key, |sem|)
  }

  // ---------------------------------------------------------------------
  // A closed form of the fused entries
  // ---------------------------------------------------------------------

  /** The last rank below n whose match has key id. */
  function LastRank<K(==)>(ms: seq<Match>, key: Match -> K, id: K, n: nat): (r: Option<nat>)
    requires n <= |ms|
    ensures r.Some? ==> r.value < n && key(ms[r.value]) == id
    ensures r.Some? ==> forall j :: r.value < j < n ==> key(ms[j]) != id
    ensures r.None? ==> forall j :: 0 <= j < n ==> key(ms[j]) != id
  {
    if n == 0 then None
    else if key(ms[n - 1]) == id then Some(n - 1)
    else LastRank(ms, key, id, n - 1)
  }

  /** The first rank below n whose match has key id. */
  function FirstRank<K(==)>(ms: seq<Match>, key: Match -> K, id: K, n: nat): (r: Option<nat>)
    requires n <= |ms|
    ensures r.Some? ==> r.value < n && key(ms[r.value]) == id
    ensures r.Some? ==> forall j :: 0 <= j < r.value ==> key(ms[j]) != id
    ensures r.None? ==> forall j :: 0 <= j < n ==> key(ms[j]) != id
  {
    if n == 0 then None
    else
      var f := FirstRank(ms, key, id, n - 1);
      if f.Some? then f
      else if key(ms[n - 1]) == id then Some(n - 1)
      else None
  }

  /** The semantic scores of every rank below n whose match has key id. */
  function SemanticSum<K(==)>(sem: seq<Match>, key: Match -> K, id: K, n: nat): real
    requires n <= |sem|
  {
    if n == 0 then 0.0
    else SemanticSum(sem, key, id, n - 1) + (if key(sem[n - 1]) == id then SemanticScore(n - 1) else 0.0)
  }

  /** A key absent from the first n semantic matches gains nothing from them. */
  lemma {:induction false} SemanticSumAbsent<K>(sem: seq<Match>, key: Match -> K, id: K, n: nat)
    requires n <= |sem|
    requires FirstRank(sem, key, id, n).None?
    ensures SemanticSum(sem, key, id, n) == 0.0
  {
    if n > 0 {
      assert FirstRank(sem, key, id, n - 1).None?;
      SemanticSumAbsent(sem, key, id, n - 1);
    }
  }

  /** A key present at exactly one semantic rank gains that rank's score. */
  lemma {:induction false} SemanticSumSingle<K>(sem: seq<Match>, key: Match -> K, id: K, n: nat, r: nat)
    requires r < n <= |sem| && key(sem[r]) == id
    requires forall j :: 0 <= j < n && j != r ==> key(sem[j]) != id
    ensures SemanticSum(sem, key, id, n) == SemanticScore(r)
  {
    if n - 1 == r {
      SemanticSumAbsent(sem, key, id, r);
    } else {
      SemanticSumSingle(sem, key, id, n - 1, r);
    }
  }

  /** The entry a key gets in `seen` after the full-text loop. */
  lemma {:induction false} SeenFtsEntry<K>(fts: seq<Match>, key: Match -> K, id: K, n: nat)
    requires n <= |fts|
    ensures id in SeenFts(fts, key, n) <==> LastRank(fts, key, id, n).Some?
    ensures LastRank(fts, key, id, n).Some? ==>
      var r := LastRank(fts, key, id, n).value;
      SeenFts(fts, key, n)[id] == Match(fts[r].offsets, FtsScore(r))
  {
    if n > 0 {
      SeenFtsEntry(fts, key, id, n - 1);
    }
  }

  /**
   * The entry of a key after both loops: the key is present iff either
   * list holds it; its offsets are those of its last full-text match, or of
   * its first semantic match when the full-text list lacks it; its score is
   * 1.1/(r+1) for that last full-text rank r (0 without one) plus 1/(s+1)
   * for every semantic rank s holding the key.
   */
  lemma {:induction false} SeenAllEntry<K>(fts: seq<Match>, sem: seq<Match>, key: Match -> K, id: K, n: nat)
    requires n <= |sem|
    ensures id in SeenAll(fts, sem, key, n) <==>
      LastRank(fts, key, id, |fts|).Some? || FirstRank(sem, key, id, n).Some?
    ensures id in SeenAll(fts, sem, key, n) ==>
      var last, first := LastRank(fts, key, id, |fts|), FirstRank(sem, key, id, n);
      SeenAll(fts, sem, key, n)[id] ==
        Match(if last.Some? then fts[last.value].offsets else sem[first.value].offsets,
              (if last.Some? then FtsScore(last.value) else 0.0) + SemanticSum(sem, key, id, n))
  {
    if n == 0 {
      SeenFtsEntry(fts, key, id, |fts|);
    } else {
      SeenAllEntry(fts, sem, key, id, n - 1);
      if key(sem[n - 1]) == id && id !in SeenAll(fts, sem, key, n - 1) {
        SemanticSumAbsent(sem, key, id, n - 1);
      }
    }
  }

  /** SeenAllEntry for the whole of both lists. */
  lemma FusedEntry<K>(fts: seq<Match>, sem: seq<Match>, key: Match -> K, id: K)
    ensures id in Fused(fts, sem, key) <==>
      LastRank(fts, key, id, |fts|).Some? || FirstRank(sem, key, id, |sem|).Some?
    ensures id in Fused(fts, sem, key) ==>
      var last, first := LastRank(fts, key, id, |fts|), FirstRank(sem, key, id, |sem|);
      Fused(fts, sem, key)[id] ==
        Match(if last.Some? then fts[last.value].offsets else sem[first.value].offsets,
              (if last.Some? then FtsScore(last.value) else 0.0) + SemanticSum(sem, key, id, |sem|))
  {
    SeenAllEntry(fts, sem, key, id, |sem|);
  }

  /**
   * A key held once in each list: the full-text offsets and the sum of the
   * two reciprocal ranks.
   */
  lemma InBoth<K>(fts: seq<Match>, sem: seq<Match>, key: Match -> K, id: K, r: nat, s: nat)
    requires r < |fts| && key(fts[r]) == id && forall j :: 0 <= j < |fts| && j != r ==> key(fts[j]) != id
    requires s < |sem| && key(sem[s]) == id && forall j :: 0 <= j < |sem| && j != s ==> key(sem[j]) != id
    ensures id in Fused(fts, sem, key)
    ensures Fused(fts, sem, key)[id] == Match(fts[r].offsets, FtsScore(r) + SemanticScore(s))
  {
    FusedEntry(fts, sem, key, id);
    SemanticSumSingle(sem, key, id, |sem|, s);
  }

  /** A key held once in the full-text list only: 1.1/(r+1). */
  lemma FtsOnly<K>(fts: seq<Match>, sem: seq<Match>, key: Match -> K, id: K, r: nat)
    requires r < |fts| && key(fts[r]) == id && forall j :: 0 <= j < |fts| && j != r ==> key(fts[j]) != id
    requires forall j :: 0 <= j < |sem| ==> key(sem[j]) != id
    ensures id in Fused(fts, sem, key)
    ensures Fused(fts, sem, key)[id] == Match(fts[r].offsets, FtsScore(r))
  {
    FusedEntry(fts, sem, key, id);
    SemanticSumAbsent(sem, key, id, |sem|);
  }

  /** A key held once in the semantic list only: 1/(s+1). */
  lemma SemanticOnly<K>(fts: seq<Match>, sem: seq<Match>, key: Match -> K, id: K, s: nat)
    requires forall j :: 0 <= j < |fts| ==> key(fts[j]) != id
    requires s < |sem| && key(sem[s]) == id && forall j :: 0 <= j < |sem| && j != s ==> key(sem[j]) != id
    ensures id in Fused(fts, sem, key)
    ensures Fused(fts, sem, key)[id] == Match(sem[s].offsets, SemanticScore(s))
  {
    FusedEntry(fts, sem, key, id);
    SemanticSumSingle(sem, key, id, |sem|, s);
  }

  // ---------------------------------------------------------------------
  // Sorting by score and the top k
  // ---------------------------------------------------------------------

  /** Scores never increase along s. */
  predicate NonIncreasing(s: seq<Match>) {
    forall i, j :: 0 <= i < j < |s| ==> s[i].score >= s[j].score
  }

  /** m placed into s before the first score not above m's. */
  function InsertByScore(m: Match, s: seq<Match>): (r: seq<Match>)
    ensures multiset(r) == multiset(s) + multiset{m}
  {
    if s == [] || s[0].score <= m.score then [m] + s
    else
      assert s == [s[0]] + s[1..];
      [s[0]] + InsertByScore(m, s[1..])
  }

  /** Inserting into a non-increasing sequence keeps it non-increasing. */
  lemma {:induction false} InsertKeepsOrder(m: Match, s: seq<Match>)
    requires NonIncreasing(s)
    ensures NonIncreasing(InsertByScore(m, s))
  {
    var r := InsertByScore(m, s);
    if s == [] || s[0].score <= m.score {
      forall i, j | 0 <= i < j < |r| ensures r[i].score >= r[j].score {
        if i > 0 { assert r[i] == s[i - 1] && r[j] == s[j - 1]; }
        else { assert r[j] == s[j - 1] && s[0].score >= s[j - 1].score; }
      }
    } else {
      var rest := InsertByScore(m, s[1..]);
      InsertKeepsOrder(m, s[1..]);
      assert r == [s[0]] + rest;
      forall i, j | 0 <= i < j < |r| ensures r[i].score >= r[j].score {
        if i > 0 {
          assert r[i] == rest[i - 1] && r[j] == rest[j - 1];
        } else {
          var x := rest[j - 1];
          assert x in multiset(rest);
          if x != m {
            assert x in multiset(s[1..]);
            var l :| 0 <= l < |s[1..]| && s[1..][l] == x;
            assert s[0].score >= s[l + 1].score;
          }
        }
      }
    }
  }

  /**
   * The matches ordered by non-increasing score: what sort.Slice leaves
   * with the comparison "score greater than". Ties keep an order of this
   * function's choosing; the source does not fix one.
   */
  function SortByScore(s: seq<Match>): (r: seq<Match>)
    ensures multiset(r) == multiset(s)
    ensures NonIncreasing(r)
  {
    if s == [] then []
    else
      assert s == [s[0]] + s[1..];
      InsertKeepsOrder(s[0], SortByScore(s[1..]));
      InsertByScore(s[0], SortByScore(s[1..]))
  }

  /**
   * r is a possible outcome of keeping the k best of all: min(k, |all|)
   * matches taken from all, by non-increasing score, and none left behind
   * scoring higher than one kept.
   */
  predicate IsTopK(r: seq<Match>, all: seq<Match>, k: nat) {
    && |r| == (if k < |all| then k else |all|)
    && multiset(r) <= multiset(all)
    && NonIncreasing(r)
    && forall m, i :: m in multiset(all) - multiset(r) && 0 <= i < |r| ==> m.score <= r[i].score
  }

  /** The first k of a non-increasing arrangement of all are a top k. */
  lemma SortedPrefixIsTopK(s: seq<Match>, all: seq<Match>, k: nat)
    requires multiset(s) == multiset(all) && NonIncreasing(s)
    ensures IsTopK(s[..if k < |s| then k else |s|], all, k)
  {
    var n := if k < |s| then k else |s|;
    assert |s| == |all| by {
      assert |multiset(s)| == |s| && |multiset(all)| == |all|;
    }
    MultisetSplit(s, n);
    SplitOrdered(s, n);
    LeftoversBelow(s[..n], s[n..], all);
  }

  /** A split of s shares out its elements. */
  lemma MultisetSplit(s: seq<Match>, n: nat)
    requires n <= |s|
    ensures multiset(s) == multiset(s[..n]) + multiset(s[n..])
  {
    assert s == s[..n] + s[n..];
  }

  /** The first part of a non-increasing sequence is non-increasing and above the rest. */
  lemma SplitOrdered(s: seq<Match>, n: nat)
    requires n <= |s| && NonIncreasing(s)
    ensures NonIncreasing(s[..n])
    ensures forall i, j :: 0 <= i < n && 0 <= j < |s| - n ==> s[..n][i].score >= s[n..][j].score
  {
    forall i, j | 0 <= i < j < n ensures s[..n][i].score >= s[..n][j].score {
      assert s[..n][i] == s[i] && s[..n][j] == s[j];
    }
    forall i, j | 0 <= i < n && 0 <= j < |s| - n ensures s[..n][i].score >= s[n..][j].score {
      assert s[..n][i] == s[i] && s[n..][j] == s[n + j];
    }
  }

  /** What a split leaves behind scores no higher than anything it keeps. */
  lemma LeftoversBelow(p: seq<Match>, q: seq<Match>, all: seq<Match>)
    requires multiset(all) == multiset(p) + multiset(q)
    requires forall i, j :: 0 <= i < |p| && 0 <= j < |q| ==> p[i].score >= q[j].score
    ensures forall m, i :: m in multiset(all) - multiset(p) && 0 <= i < |p| ==> m.score <= p[i].score
  {
    forall m, i | m in multiset(all) - multiset(p) && 0 <= i < |p|
      ensures m.score <= p[i].score
    {
      assert m in multiset(q);
      var j :| 0 <= j < |q| && q[j] == m;
    }
  }

  /**
   * The tail of mergeResult and of the storage layer's Get: sort by
   * non-increasing score, then keep min(k, len) matches. A negative k makes
   * the slice expression fail, which the source does not guard against.
   */
  method TopK(matches: seq<Match>, k: int) returns (r: Result<seq<Match>>)
    ensures k < 0 ==> r.Failure?
    ensures k >= 0 ==> r.Success? && IsTopK(r.value, matches, k)
  {
    var sorted := SortByScore(matches);
    var n := if k < |sorted| then k else |sorted|;
    if n < 0 {
      return Failure("slice bounds out of range");
    }
    SortedPrefixIsTopK(sorted, matches, k);
    r := Success(sorted[..n]);
  }

  // ---------------------------------------------------------------------
  // mergeResult
  // ---------------------------------------------------------------------

  /** order lists every key of F exactly once. */
  ghost predicate Listing<K(!new)>(order: seq<K>, F: map<K, Match>) {
    && (forall i, j :: 0 <= i < j < |order| ==> order[i] != order[j])
    && (forall id :: id in F <==> id in order)
  }

  /** The entries of F in the order given. */
  function Image<K(==)>(F: map<K, Match>, order: seq<K>): (r: seq<Match>)
    requires forall id :: id in order ==> id in F
    ensures |r| == |order|
    ensures forall i :: 0 <= i < |order| ==> r[i] == F[order[i]]
  {
    if order == [] then [] else Image(F, order[..|order| - 1]) + [F[order[|order| - 1]]]
  }

  /**
   * mergeResult: fuse the two lists by reciprocal rank and keep the k best.
   * The map is visited in an order Go leaves unspecified; `order` is the
   * order this run chose, and the result is a top k of the fused entries
   * taken in that order.
   */
  method MergeResult<K(==, !new)>(fts: seq<Match>, sem: seq<Match>, k: int, key: Match -> K)
    returns (r: Result<seq<Match>>, ghost order: seq<K>)
    ensures Listing(order, Fused(fts, sem, key))
    ensures k < 0 ==> r.Failure?
    ensures k >= 0 ==> r.Success? && IsTopK(r.value, Image(Fused(fts, sem, key), order), k)
  {
    var seen: map<K, Match> := map[];
    var rank := 0;
    while rank < |fts|
      invariant rank <= |fts|
      invariant seen == SeenFts(fts, key, rank)
    {
      seen := seen[key(fts[rank]) := Match(fts[rank].offsets, FtsScore(rank))];
      rank := rank + 1;
    }
    rank := 0;
    while rank < |sem|
      invariant rank <= |sem|
      invariant seen == SeenAll(fts, sem, key, rank)
    {
      var id := key(sem[rank]);
      if id in seen {
        var val := seen[id];
        val := val.(score := val.score + SemanticScore(rank));
        seen := seen[id := val];
      } else {
        seen := seen[id := Match(sem[rank].offsets, SemanticScore(rank))];
      }
      rank := rank + 1;
    }
    var merged: seq<Match> := [];
    var todo := seen.Keys;
    order := [];
    while todo != {}
      invariant forall i, j :: 0 <= i < j < |order| ==> order[i] != order[j]
      invariant forall id :: id in seen <==> id in todo || id in order
      invariant forall id :: id in todo ==> id !in order
      invariant merged == Image(seen, order)
      decreases |todo|
    {
      var id :| id in todo;
      merged := merged + [seen[id]];
      order := order + [id];
      todo := todo - {id};
    }
    r := TopK(merged, k);
  }

  // ---------------------------------------------------------------------
  // The reciprocal-rank example of hybrid_search_test.go
  // ---------------------------------------------------------------------

  function Pair(doc: int, a: int, b: int): seq<Position> {
    [Position(Int(doc), Int(a)), Position(Int(doc), Int(b))]
  }

  const ExampleFts := [Match(Pair(1, 2, 3), 0.20), Match(Pair(2, 3, 4), 0.50), Match(Pair(3, 5, 6), 0.20)]
  const ExampleSemantic := [Match(Pair(1, 0, 0), 0.80), Match(Pair(4, 0, 0), 0.61), Match(Pair(9, 0, 0), 0.01)]
  const ExampleFused := map[
    Int(1) := Match(Pair(1, 2, 3), 2.1),
    Int(2) := Match(Pair(2, 3, 4), 0.55),
    Int(3) := Match(Pair(3, 5, 6), 1.1 / 3.0),
    Int(4) := Match(Pair(4, 0, 0), 0.5),
    Int(9) := Match(Pair(9, 0, 0), 1.0 / 3.0)]

  /**
   * With matches keyed by their document, the example fuses to five
   * entries: document 1 (in both lists) scores 1.1 + 1 = 2.1 with its
   * full-text offsets, document 2 scores 1.1/2 = 0.55, document 3 scores
   * 1.1/3, and the semantic-only documents 4 and 9 score 1/2 and 1/3.
   */
  lemma MergeExample(key: Match -> Coord)
    requires forall i :: 0 <= i < 3 ==> key(ExampleFts[i]) == ExampleFts[i].offsets[0].documentID
    requires forall i :: 0 <= i < 3 ==> key(ExampleSemantic[i]) == ExampleSemantic[i].offsets[0].documentID
    ensures Fused(ExampleFts, ExampleSemantic, key) == ExampleFused
  {
    var fts, sem := ExampleFts, ExampleSemantic;
    var F := Fused(fts, sem, key);
    assert key(fts[0]) == Int(1) && key(fts[1]) == Int(2) && key(fts[2]) == Int(3);
    assert key(sem[0]) == Int(1) && key(sem[1]) == Int(4) && key(sem[2]) == Int(9);
    InBoth(fts, sem, key, Int(1), 0, 0);
    FtsOnly(fts, sem, key, Int(2), 1);
    FtsOnly(fts, sem, key, Int(3), 2);
    SemanticOnly(fts, sem, key, Int(4), 1);
    SemanticOnly(fts, sem, key, Int(9), 2);
    forall id | id in F ensures id in {Int(1), Int(2), Int(3), Int(4), Int(9)} {
      FusedEntry(fts, sem, key, id);
      var last, first := LastRank(fts, key, id, 3), FirstRank(sem, key, id, 3);
      if last.Some? {
        assert id == key(fts[last.value]);
      } else {
        assert id == key(sem[first.value]);
      }
    }
    assert F.Keys == ExampleFused.Keys;
  }

  /**
   * The test's expectation: whatever order the map is visited in, the top
   * two of the example are document 1 at 2.1 and document 2 at 0.55.
   */
  lemma MergeExampleTopTwo(key: Match -> Coord, order: seq<Coord>, r: seq<Match>)
    requires forall i :: 0 <= i < 3 ==> key(ExampleFts[i]) == ExampleFts[i].offsets[0].documentID
    requires forall i :: 0 <= i < 3 ==> key(ExampleSemantic[i]) == ExampleSemantic[i].offsets[0].documentID
    requires Listing(order, Fused(ExampleFts, ExampleSemantic, key))
    requires IsTopK(r, Image(Fused(ExampleFts, ExampleSemantic, key), order), 2)
    ensures r == [Match(Pair(1, 2, 3), 2.1), Match(Pair(2, 3, 4), 0.55)]
  {
    MergeExample(key);
    ExampleTopTwo(order, r);
  }

  /** The top two of the example's fused entries, in any visiting order. */
  lemma ExampleTopTwo(order: seq<Coord>, r: seq<Match>)
    requires Listing(order, ExampleFused)
    requires IsTopK(r, Image(ExampleFused, order), 2)
    ensures r == [Match(Pair(1, 2, 3), 2.1), Match(Pair(2, 3, 4), 0.55)]
  {
    ExampleImage(order);
    TopTwo(r, Image(ExampleFused, order), ExampleFused[Int(1)], ExampleFused[Int(2)]);
  }

  /** The example's entries in any visiting order: two leaders, then lower scores. */
  lemma ExampleImage(order: seq<Coord>)
    requires Listing(order, ExampleFused)
    ensures var all := Image(ExampleFused, order);
      && (forall i, j :: 0 <= i < j < |all| ==> all[i] != all[j])
      && ExampleFused[Int(1)] in all && ExampleFused[Int(2)] in all
      && (forall x :: x in all ==> x == ExampleFused[Int(1)] || x == ExampleFused[Int(2)] || x.score < 0.55)
  {
    var F := ExampleFused;
    var all := Image(F, order);
    ExampleEntries();
    assert Int(1) in order && Int(2) in order;
    var i1 :| 0 <= i1 < |order| && order[i1] == Int(1);
    var i2 :| 0 <= i2 < |order| && order[i2] == Int(2);
    assert all[i1] == F[Int(1)] && all[i2] == F[Int(2)];
    forall x | x in all ensures x == F[Int(1)] || x == F[Int(2)] || x.score < 0.55 {
      var i :| 0 <= i < |all| && all[i] == x;
      assert order[i] in F;
    }
    forall i, j | 0 <= i < j < |all| ensures all[i] != all[j] {
      assert order[i] != order[j];
      assert all[i].offsets[0].documentID == order[i];
    }
  }

  /** Each example entry carries its own document and all but two score below 0.55. */
  lemma ExampleEntries()
    ensures forall id :: id in ExampleFused ==>
      && |ExampleFused[id].offsets| == 2
      && ExampleFused[id].offsets[0].documentID == id
      && (id == Int(1) || id == Int(2) || ExampleFused[id].score < 0.55)
  {
  }

  /**
   * When all holds one match scoring above another, and every other match
   * scores below both, its top two are those two.
   */
  lemma TopTwo(r: seq<Match>, all: seq<Match>, m1: Match, m2: Match)
    requires IsTopK(r, all, 2)
    requires forall i, j :: 0 <= i < j < |all| ==> all[i] != all[j]
    requires m1 in all && m2 in all && m1.score > m2.score
    requires forall x :: x in all ==> x == m1 || x == m2 || x.score < m2.score
    ensures r == [m1, m2]
  {
    DistinctOnce(all, m1);
    assert m1 in multiset(all) && m2 in multiset(all);
    assert m1 != m2;
    assert |all| >= 2 by {
      var i :| 0 <= i < |all| && all[i] == m1;
      var j :| 0 <= j < |all| && all[j] == m2;
      assert i != j;
    }
    assert |r| == 2;
    assert r[0] in multiset(all) && r[1] in multiset(all);
    assert r[0] in all && r[1] in all;
    assert r[0] == m1;
    assert multiset(r) == multiset{r[0]} + multiset{r[1]} by { assert r == [r[0]] + [r[1]]; }
    assert multiset(r)[m1] <= 1;
    assert r[1] != m1;
    assert r[1] != m2 ==> m2 in multiset(all) - multiset(r);
  }

  /** A sequence without repeats holds each of its elements once. */
  lemma {:induction false} DistinctOnce(s: seq<Match>, x: Match)
    requires forall i, j :: 0 <= i < j < |s| ==> s[i] != s[j]
    ensures multiset(s)[x] <= 1
  {
    if s != [] {
      var init := s[..|s| - 1];
      assert s == init + [s[|s| - 1]];
      DistinctOnce(init, x);
      if x == s[|s| - 1] {
        assert x !in init;
      }
    }
  }
}
