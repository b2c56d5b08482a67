/**
 * The binary image of the inverted index written by InvertedIndex.Encode and
 * read back by InvertedIndex.Decode (internal/index/index.go:302-483).
 *
 * For each token, in the order the postings map yields them, Encode writes
 *   - the token's length as a little-endian uint32 and the token's bytes;
 *   - 8 times the number of nodes (the head included) as a uint32, then the
 *     key of every node in level-0 order, head first, as two uint32 words;
 *   - for every node in the same order, its tower: the levels from 0 up to
 *     the first nil slot, each as the uint16 number of the node it links to,
 *     preceded by the tower's byte length as a uint32 -- or, for a tower
 *     whose slot 0 is nil, the length 2 and a single uint16 0.
 * Nodes are numbered from 1 (the head) in level-0 order, through a map from
 * truncated keys to numbers.  Decode reads the image back into, per token,
 * the nodes' keys, the 32 tower slots of every node as node numbers (0 for
 * nil) and the list's height.
 */
module Codec {
  import opened Postings
  import opened Bytes
  import opened Wrappers
  import opened SkipLists
  import opened Queries

  // ---------------------------------------------------------------------
  // The shape of a valid list's towers
  // ---------------------------------------------------------------------

  /** Whether slot l of node i (i = -1: the head) links to a node, in a valid list with tower heights hs. */
  predicate Linked(hs: seq<nat>, i: int, l: nat)
    requires -1 <= i < |hs|
  {
    (i < 0 || l < hs[i]) && NextAt(hs, i, l) < |hs|
  }

  /** A slot that links to a node has every slot below it linked too. */
  lemma LinkedDown(hs: seq<nat>, i: int, l: nat, m: nat)
    requires -1 <= i < |hs| && m <= l && Linked(hs, i, l)
    ensures Linked(hs, i, m)
  {
    NextAtSkips(hs, i, m);
    var j := NextAt(hs, i, l);
    assert hs[j] > m;
  }

  /** The slots of a valid list's tower as the node numbers Encode gives them, 0 for nil. */
  function Slots(hs: seq<nat>, i: int): (s: seq<nat>)
    requires -1 <= i < |hs|
    ensures |s| == MaxHeight
    ensures forall l :: 0 <= l < MaxHeight ==> s[l] == if Linked(hs, i, l) then NextAt(hs, i, l) + 2 else 0
  {
    seq(MaxHeight, (l: int) requires 0 <= l => if Linked(hs, i, l) then NextAt(hs, i, l) + 2 else 0)
  }

  /** The numbering is the heap's tower: slot l of node i is 0 for nil, and n for the node at index n - 2. */
  lemma SlotsAreTower(ns: seq<Node>, hs: seq<nat>, i: int, l: nat)
    requires |ns| == |hs| && -1 <= i < |hs| && l < MaxHeight
    ensures var n := Slots(hs, i)[l];
      (n == 0 <==> LinkOf(ns, hs, i, l) == null) && (n != 0 ==> 2 <= n < |hs| + 2 && LinkOf(ns, hs, i, l) == ns[n - 2])
  {
  }

  // ---------------------------------------------------------------------
  // Encoding
  // ---------------------------------------------------------------------

  /** Go's uint32 conversion of an integer coordinate. */
  lemma AllRealHead(ks: seq<Position>)
    requires AllReal(ks)
    ensures AllReal([HeadKey] + ks)
  {
    forall x | x in [HeadKey] + ks ensures IsReal(x) {
      if x != HeadKey {
        assert x in ks;
      }
    }
  }

  lemma AllRealParts(ps: seq<Position>)
    requires AllReal(ps) && ps != []
    ensures IsReal(ps[0]) && AllReal(ps[1..])
  {
    assert ps[0] in ps;
    forall x | x in ps[1..] ensures IsReal(x) {
      assert x in ps;
    }
  }

  function Word(c: Coord): nat
    requires c.Int?
  {
    Trunc32(c.n)
  }

  /** The truncatedOffset of a position: the map key Encode numbers nodes by. */
  function TKey(p: Position): (nat, nat)
    requires IsReal(p)
  {
    (Word(p.documentID), Word(p.offset))
  }

  /** The node numbers map after numbering the nodes all (head first): later nodes overwrite earlier ones with the same truncated key. */
  function NumberMap(all: seq<Position>): map<(nat, nat), nat>
    requires AllReal(all)
  {
    if all == [] then map[]
    else
      var n := |all| - 1;
      NumberMap(all[..n])[TKey(all[n]) := n + 1]
  }

  /** nodes[offset] in Encode: the number a position's truncated key is mapped to, Go's zero value when absent. */
  function NumberOf(nodes: map<(nat, nat), nat>, p: Position): nat
    requires IsReal(p)
  {
    if TKey(p) in nodes then nodes[TKey(p)] else 0
  }

  /** The uint16 numbers of the nodes that the slots of node i's tower link to, from level l up to the first nil slot. */
  function TowerNums(nodes: map<(nat, nat), nat>, all: seq<Position>, hs: seq<nat>, i: int, l: nat): (ns: seq<nat>)
    requires |all| == |hs| + 1 && AllReal(all) && -1 <= i < |hs|
    ensures forall k :: 0 <= k < |ns| ==> ns[k] < TwoTo16
    decreases MaxHeight - l
  {
    if l >= MaxHeight || !Linked(hs, i, l) then []
    else [Trunc16(NumberOf(nodes, all[NextAt(hs, i, l) + 1]))] + TowerNums(nodes, all, hs, i, l + 1)
  }

  /** The two uint32 words of each position. */
  function PairBytes(ps: seq<Position>): (b: seq<byte>)
    requires AllReal(ps)
    ensures |b| == 8 * |ps|
  {
    if ps == [] then []
    else
      AllRealParts(ps);
      U32(Word(ps[0].documentID)) + U32(Word(ps[0].offset)) + PairBytes(ps[1..])
  }

  /** The uint16 words of a sequence of numbers. */
  function U16s(ns: seq<nat>): (b: seq<byte>)
    requires forall k :: 0 <= k < |ns| ==> ns[k] < TwoTo16
    ensures |b| == 2 * |ns|
  {
    if ns == [] then [] else U16(ns[0]) + U16s(ns[1..])
  }

  lemma TakeSnoc<T>(s: seq<T>, j: nat)
    requires j < |s|
    ensures s[..j + 1] == s[..j] + [s[j]]
  {
  }

  /** Writing one more number appends its two bytes. */
  lemma {:induction false} U16sSnoc(ns: seq<nat>, n: nat)
    requires forall k :: 0 <= k < |ns| ==> ns[k] < TwoTo16
    requires n < TwoTo16
    ensures U16s(ns + [n]) == U16s(ns) + U16(n)
    decreases |ns|
  {
    if ns == [] {
      assert ns + [n] == [n];
      assert U16s([n]) == U16(n) + U16s([]);
    } else {
      assert (ns + [n])[1..] == ns[1..] + [n];
      U16sSnoc(ns[1..], n);
      AppendAssoc(U16(ns[0]), U16s(ns[1..]), U16(n));
    }
  }

  /** One tower: its byte length and its node numbers, or the length 2 and a 0 for an empty tower. */
  function TowerBytes(ns: seq<nat>): seq<byte>
    requires forall k :: 0 <= k < |ns| ==> ns[k] < TwoTo16
  {
    if ns == [] then U32(2) + U16(0) else U32(Trunc32(2 * |ns|)) + U16s(ns)
  }

  /** The towers of the nodes from index i on (i = -1: the head). */
  function TowersBytes(nodes: map<(nat, nat), nat>, all: seq<Position>, hs: seq<nat>, i: int): seq<byte>
    requires |all| == |hs| + 1 && AllReal(all) && -1 <= i <= |hs|
    decreases |hs| - i
  {
    if i == |hs| then []
    else TowerBytes(TowerNums(nodes, all, hs, i, 0)) + TowersBytes(nodes, all, hs, i + 1)
  }

  /** The image of one token's list, with keys ks and tower heights hs (the head excluded). */
  function ListBytes(t: Term, ks: seq<Position>, hs: seq<nat>): seq<byte>
    requires |ks| == |hs| && AllReal(ks)
  {
    var all := [HeadKey] + ks;
    AllRealHead(ks);
    U32(Trunc32(|t|)) + t + U32(Trunc32(8 * |all|)) + PairBytes(all) + TowersBytes(NumberMap(all), all, hs, -1)
  }

  /** One token's list as Encode sees it: the token, its keys in level-0 order and its nodes' tower heights. */
  datatype Entry = Entry(term: Term, keys: seq<Position>, heights: seq<nat>)

  predicate EntryOk(e: Entry) {
    |e.keys| == |e.heights| && AllReal(e.keys)
  }

  /** One list's image. */
  function Image(e: Entry): seq<byte>
    requires EntryOk(e)
  {
    ListBytes(e.term, e.keys, e.heights)
  }

  /** The images img of the items es, in that order: each one appended after the ones before. */
  function Join<E>(es: seq<E>, img: E --> seq<byte>): seq<byte>
    requires forall k :: 0 <= k < |es| ==> img.requires(es[k])
  {
    if es == [] then [] else Join(es[..|es| - 1], img) + img(es[|es| - 1])
  }

  /** Read from the front, the joined images are the first item's image followed by the rest's. */
  lemma {:induction false} JoinFront<E>(es: seq<E>, img: E --> seq<byte>)
    requires es != [] && forall k :: 0 <= k < |es| ==> img.requires(es[k])
    ensures img.requires(es[0]) && Join(es, img) == img(es[0]) + Join(es[1..], img)
  {
    var n := |es| - 1;
    if n == 0 {
      assert es[..0] == [] && es[1..] == [];
    } else {
      var f, g := es[..n], es[1..];
      JoinFront(f, img);
      assert f[1..] == g[..n - 1] && g[n - 1] == es[n] && f[0] == es[0];
      AppendAssoc(img(es[0]), Join(f[1..], img), img(es[n]));
    }
  }

  /** The image of the lists es, in that order: each list's image appended after the ones before. */
  function IndexBytes(es: seq<Entry>): seq<byte>
    requires forall k :: 0 <= k < |es| ==> EntryOk(es[k])
  {
    Join(es, Image)
  }

  /** Read from the front, the image is the first list's image followed by the rest's. */
  lemma IndexBytesFront(es: seq<Entry>)
    requires es != [] && forall k :: 0 <= k < |es| ==> EntryOk(es[k])
    ensures EntryOk(es[0])
    ensures IndexBytes(es) == ListBytes(es[0].term, es[0].keys, es[0].heights) + IndexBytes(es[1..])
  {
    JoinFront(es, Image);
  }

  /** Writing one more list appends its image. */
  lemma IndexBytesSnoc(es: seq<Entry>, e: Entry)
    requires forall k :: 0 <= k < |es| ==> EntryOk(es[k])
    requires EntryOk(e)
    ensures forall k :: 0 <= k < |es + [e]| ==> EntryOk((es + [e])[k])
    ensures IndexBytes(es + [e]) == IndexBytes(es) + ListBytes(e.term, e.keys, e.heights)
  {
    assert (es + [e])[..|es|] == es;
  }

  // ---------------------------------------------------------------------
  // Decoding
  // ---------------------------------------------------------------------

  /**
   * A recovered list: the keys of its nodes, head first (positionMap), the
   * 32 tower slots of each node as node numbers with 0 for nil, and its
   * height.
   */
  datatype DList = DList(keys: seq<Position>, towers: seq<seq<nat>>, height: nat)

  const Truncated := "slice bounds out of range"
  const TowerOverflow := "index out of range"

  /** The positions of count (document, offset) word pairs at the front of s. */
  function PairsOf(s: seq<byte>, count: nat): (ps: seq<Position>)
    requires 8 * count <= |s|
    ensures |ps| == count
  {
    if count == 0 then []
    else [Position(Int(ReadU32(s)), Int(ReadU32(s[4..])))] + PairsOf(s[8..], count - 1)
  }

  /** A tower of MaxHeight nil slots. */
  function Blank(): (s: seq<nat>)
    ensures |s| == MaxHeight && forall l :: 0 <= l < MaxHeight ==> s[l] == 0
  {
    seq(MaxHeight, _ => 0)
  }

  /** The towers of count fresh nodes. */
  function Blanks(count: nat): (ts: seq<seq<nat>>)
    ensures |ts| == count && forall x :: 0 <= x < count ==> ts[x] == Blank()
  {
    seq(count, _ => Blank())
  }

  /**
   * The inner loop of Decode's tower loop from entry j of m: a non-zero
   * number sets slot j to that node (nil when there is no such node) and
   * raises the height to the count nz of such numbers; a slot above the
   * tower's 32 panics.
   */
  function SlotsOf(s: seq<byte>, m: nat, j: nat, slots: seq<nat>, nz: nat, count: nat, h: nat): (r: Result<(seq<nat>, nat, seq<byte>)>)
    requires |slots| == MaxHeight
    ensures r.Success? ==> |r.value.0| == MaxHeight && |r.value.2| <= |s|
    decreases m - j
  {
    if j >= m then Success((slots, h, s))
    else if |s| < 2 then Failure(Truncated)
    else
      var node := ReadU16(s);
      if node == 0 then SlotsOf(s[2..], m, j + 1, slots, nz, count, h)
      else if j >= MaxHeight then Failure(TowerOverflow)
      else SlotsOf(s[2..], m, j + 1, slots[j := if node <= count then node else 0], nz + 1, count, Max(h, nz + 1))
  }

  function Max(a: nat, b: nat): nat { if a < b then b else a }

  /** Decode's tower loop from node i + 1 of count: each tower's uint32 byte length kn, then kn / 2 uint16 numbers. */
  function TowersOf(s: seq<byte>, count: nat, i: nat, ts: seq<seq<nat>>, h: nat): (r: Result<(seq<seq<nat>>, nat, seq<byte>)>)
    requires |ts| == count && i <= count && forall x :: 0 <= x < count ==> |ts[x]| == MaxHeight
    ensures r.Success? ==> |r.value.0| == count && |r.value.2| <= |s|
    decreases count - i
  {
    if i == count then Success((ts, h, s))
    else if |s| < 4 then Failure(Truncated)
    else
      var kn := ReadU32(s);
      match SlotsOf(s[4..], kn / 2, 0, ts[i], 0, count, h)
      case Failure(e) => Failure(e)
      case Success((slots, h', rest)) => TowersOf(rest, count, i + 1, ts[i := slots], h')
  }

  /** Decode's tower loop over count fresh nodes, starting at height 1. */
  function TowersFrom(s: seq<byte>, count: nat): (r: Result<(seq<seq<nat>>, nat, seq<byte>)>)
    ensures r.Success? ==> |r.value.0| == count && |r.value.2| <= |s|
  {
    TowersOf(s, count, 0, Blanks(count), 1)
  }

  /**
   * One round of Decode's outer loop at the front of s: the token, its node
   * keys, then the towers; the rest of s follows.  Bytes run out: a panic.
   */
  function ListOf(s: seq<byte>): (r: Result<(Term, DList, seq<byte>)>)
    ensures r.Success? ==> |r.value.2| < |s|
  {
    if |s| < 4 then Failure(Truncated)
    else
      var n := ReadU32(s);
      var s1 := s[4..];
      if |s1| < n then Failure(Truncated)
      else
        var t, s2 := s1[..n], s1[n..];
        if |s2| < 4 then Failure(Truncated)
        else
          var un := ReadU32(s2);
          var s3 := s2[4..];
          if |s3| < 4 * (un / 4) then Failure(Truncated)
          else
            var count := un / 8;
            var keys := PairsOf(s3, count);
            match TowersFrom(s3[4 * (un / 4)..], count)
            case Failure(e) => Failure(e)
            case Success((ts, h, rest)) => Success((t, DList(keys, ts, h), rest))
  }

  /**
   * Decode's outer loop from the front of s, with the lists recovered so
   * far in m: a later list of the same token replaces an earlier one.
   */
  function DecodeFrom(m: map<Term, DList>, s: seq<byte>): Result<map<Term, DList>>
    decreases |s|
  {
    if s == [] then Success(m)
    else
      match ListOf(s)
      case Failure(e) => Failure(e)
      case Success((t, d, rest)) => DecodeFrom(m[t := d], rest)
  }

  /** Decode: the recovered lists of the image b, or the panic that reading it runs into. */
  function DecodeIndex(b: seq<byte>): Result<map<Term, DList>> {
    DecodeFrom(map[], b)
  }

  // ---------------------------------------------------------------------
  // The round trip
  // ---------------------------------------------------------------------

  /** A position whose coordinates survive Encode's uint32 conversion. */
  predicate Fits(p: Position) {
    IsReal(p) && 0 <= p.documentID.n < TwoTo32 && 0 <= p.offset.n < TwoTo32
  }

  /**
   * What a list needs for its image to read back as itself: the token's
   * length and every coordinate fit in a uint32, the node numbers (the head
   * included) fit in a uint16, and the keys and towers are those of a
   * valid list.
   */
  predicate Encodable(e: Entry) {
    && EntryOk(e) && |e.term| < TwoTo32 && |e.keys| + 1 < TwoTo16 && StrictlySorted(e.keys)
    && (forall k :: 0 <= k < |e.keys| ==> Fits(e.keys[k]))
    && (forall k :: 0 <= k < |e.heights| ==> 1 <= e.heights[k] <= MaxHeight)
  }

  lemma Octets(n: nat)
    ensures (8 * n) / 8 == n && 4 * ((8 * n) / 4) == 8 * n
  {
  }

  lemma Reassoc5<T>(a: seq<T>, b: seq<T>, c: seq<T>, d: seq<T>, e: seq<T>, f: seq<T>)
    ensures ((((a + b) + c) + d) + e) + f == a + (b + (c + (d + (e + f))))
  {
  }

  /** The towers of all nodes of a valid list, the head first, as node numbers. */
  function AllSlots(hs: seq<nat>): (ts: seq<seq<nat>>)
    ensures |ts| == |hs| + 1 && forall x :: 0 <= x < |ts| ==> ts[x] == Slots(hs, x - 1)
  {
    seq(|hs| + 1, (x: int) requires 0 <= x <= |hs| => Slots(hs, x - 1))
  }

  /** The list that Decode recovers from the image of a valid list with keys ks and tower heights hs. */
  function Recovered(ks: seq<Position>, hs: seq<nat>): DList {
    DList([HeadKey] + ks, AllSlots(hs), Max(1, MaxOf(hs)))
  }

  /** Slot l of node x of a recovered list is the number of the node that slot l of node x links to, or 0 for nil. */
  lemma RecoveredLinks(ns: seq<Node>, ks: seq<Position>, hs: seq<nat>, x: nat, l: nat)
    requires |ns| == |ks| == |hs| && x <= |hs| && l < MaxHeight
    ensures var d := Recovered(ks, hs); var n := d.towers[x][l];
      && (n == 0 <==> LinkOf(ns, hs, x - 1, l) == null)
      && (n != 0 ==> 2 <= n < |d.keys| + 1 && LinkOf(ns, hs, x - 1, l) == ns[n - 2] && d.keys[n - 1] == ks[n - 2])
  {
  }

  // The numbering of the nodes

  /** Whether every node but the head is numbered by its place in level-0 order, counting from 1. */
  predicate Numbered(nodes: map<(nat, nat), nat>, all: seq<Position>) {
    forall j :: 1 <= j < |all| ==> IsReal(all[j]) && NumberOf(nodes, all[j]) == j + 1
  }

  /** A node whose truncated key no later node shares keeps the number it was given. */
  lemma {:induction false} NumberOfLast(all: seq<Position>, j: nat)
    requires AllReal(all) && j < |all|
    requires forall k :: j < k < |all| ==> IsReal(all[k]) && TKey(all[k]) != TKey(all[j])
    ensures IsReal(all[j]) && NumberOf(NumberMap(all), all[j]) == j + 1
  {
    assert all[j] in all;
    var n := |all| - 1;
    var f := all[..n];
    assert AllReal(f) by {
      forall x | x in f ensures IsReal(x) {
        assert x in all;
      }
    }
    if j < n {
      assert f[j] == all[j];
      NumberOfLast(f, j);
    }
  }

  /** Distinct keys that fit in uint32 words get the numbers of their places. */
  lemma NumberedKeys(ks: seq<Position>)
    requires AllReal(ks) && StrictlySorted(ks) && forall k :: 0 <= k < |ks| ==> Fits(ks[k])
    ensures AllReal([HeadKey] + ks) && Numbered(NumberMap([HeadKey] + ks), [HeadKey] + ks)
  {
    var all := [HeadKey] + ks;
    assert AllReal(all) by {
      forall x | x in all ensures IsReal(x) {
        if x != HeadKey {
          assert x in ks;
        }
      }
    }
    forall j | 1 <= j < |all|
      ensures IsReal(all[j]) && NumberOf(NumberMap(all), all[j]) == j + 1
    {
      forall k | j < k < |all|
        ensures IsReal(all[k]) && TKey(all[k]) != TKey(all[j])
      {
        assert all[j] == ks[j - 1] && all[k] == ks[k - 1];
        assert Lt(ks[j - 1], ks[k - 1]);
        assert Fits(ks[j - 1]) && Fits(ks[k - 1]);
      }
      NumberOfLast(all, j);
    }
  }

  // The towers

  /** The number of linked slots of node i's tower from level l up to the first unlinked one. */
  function Reach(hs: seq<nat>, i: int, l: nat): (r: nat)
    requires -1 <= i < |hs|
    ensures l <= MaxHeight ==> l + r <= MaxHeight
    decreases MaxHeight - l
  {
    if l >= MaxHeight || !Linked(hs, i, l) then 0 else 1 + Reach(hs, i, l + 1)
  }

  /** The linked slots of a tower are exactly the ones below its reach. */
  lemma {:induction false} ReachShape(hs: seq<nat>, i: int, l: nat)
    requires -1 <= i < |hs| && l <= MaxHeight
    ensures forall k :: l <= k < l + Reach(hs, i, l) ==> Linked(hs, i, k)
    ensures forall k :: l + Reach(hs, i, l) <= k < MaxHeight ==> !Linked(hs, i, k)
    decreases MaxHeight - l
  {
    if l == MaxHeight {
    } else if !Linked(hs, i, l) {
      forall k | l <= k < MaxHeight ensures !Linked(hs, i, k) {
        if Linked(hs, i, k) {
          LinkedDown(hs, i, k, l);
        }
      }
    } else {
      ReachShape(hs, i, l + 1);
    }
  }

  /** A node's tower reaches no higher than its height. */
  lemma ReachBelowHeight(hs: seq<nat>, i: nat)
    requires i < |hs|
    ensures Reach(hs, i, 0) <= hs[i]
  {
    ReachShape(hs, i, 0);
    assert !Linked(hs, i, hs[i]);
  }

  /** The head's tower reaches as high as the tallest node. */
  lemma ReachOfHead(hs: seq<nat>)
    requires forall k :: 0 <= k < |hs| ==> hs[k] <= MaxHeight
    ensures Reach(hs, -1, 0) == MaxOf(hs)
  {
    var m := MaxOf(hs);
    ReachShape(hs, -1, 0);
    forall l | 0 <= l < m
      ensures Linked(hs, -1, l)
    {
      NextAtSkips(hs, -1, l);
      var w :| 0 <= w < |hs| && hs[w] == m;
    }
    assert NextAt(hs, -1, m) == |hs| && !Linked(hs, -1, m);
    var r := Reach(hs, -1, 0);
    var top := Linked(hs, -1, r);
  }

  /** The tallest reach among the towers of the nodes from index i on. */
  function ReachMax(hs: seq<nat>, i: int): (r: nat)
    requires -1 <= i <= |hs|
    ensures forall x :: i <= x < |hs| ==> Reach(hs, x, 0) <= r
    decreases |hs| - i
  {
    if i == |hs| then 0 else Max(Reach(hs, i, 0), ReachMax(hs, i + 1))
  }

  lemma {:induction false} ReachMaxOfNodes(hs: seq<nat>, i: nat)
    requires i <= |hs|
    ensures ReachMax(hs, i) <= MaxOf(hs)
    decreases |hs| - i
  {
    if i < |hs| {
      ReachBelowHeight(hs, i);
      ReachMaxOfNodes(hs, i + 1);
    }
  }

  /** Node i's tower from level l on holds one number per linked level. */
  lemma {:induction false} TowerNumsLength(nodes: map<(nat, nat), nat>, all: seq<Position>, hs: seq<nat>, i: int, l: nat)
    requires |all| == |hs| + 1 && AllReal(all) && -1 <= i < |hs|
    ensures |TowerNums(nodes, all, hs, i, l)| == Reach(hs, i, l)
    decreases MaxHeight - l
  {
    if l < MaxHeight && Linked(hs, i, l) {
      TowerNumsLength(nodes, all, hs, i, l + 1);
    }
  }

  /** Level m of node i's tower, counted from level l, holds the (truncated) number of the node linked there. */
  lemma {:induction false} TowerNumsAt(nodes: map<(nat, nat), nat>, all: seq<Position>, hs: seq<nat>, i: int, l: nat, m: nat)
    requires |all| == |hs| + 1 && AllReal(all) && -1 <= i < |hs| && l <= m < l + Reach(hs, i, l)
    ensures |TowerNums(nodes, all, hs, i, l)| == Reach(hs, i, l) && Linked(hs, i, m)
    ensures TowerNums(nodes, all, hs, i, l)[m - l] == Trunc16(NumberOf(nodes, all[NextAt(hs, i, m) + 1]))
    decreases m - l
  {
    TowerNumsLength(nodes, all, hs, i, l);
    if m > l {
      TowerNumsAt(nodes, all, hs, i, l + 1, m);
      assert TowerNums(nodes, all, hs, i, l)[m - l] == TowerNums(nodes, all, hs, i, l + 1)[m - (l + 1)];
    }
  }

  /** Level j of node i's tower holds the (truncated) number of the node linked there. */
  lemma TowerNumAt(nodes: map<(nat, nat), nat>, all: seq<Position>, hs: seq<nat>, i: int, j: nat)
    requires |all| == |hs| + 1 && AllReal(all) && -1 <= i < |hs| && j < Reach(hs, i, 0)
    ensures |TowerNums(nodes, all, hs, i, 0)| == Reach(hs, i, 0) && Linked(hs, i, j)
    ensures TowerNums(nodes, all, hs, i, 0)[j] == Trunc16(NumberOf(nodes, all[NextAt(hs, i, j) + 1]))
  {
    TowerNumsAt(nodes, all, hs, i, 0, j);
    assert j - 0 == j;
  }

  /** With the nodes numbered by their places, the numbers of node i's tower are its linked slots' node numbers. */
  lemma TowerNumsShape(nodes: map<(nat, nat), nat>, all: seq<Position>, hs: seq<nat>, i: int)
    requires |all| == |hs| + 1 && AllReal(all) && Numbered(nodes, all) && |all| < TwoTo16 && -1 <= i < |hs|
    ensures |TowerNums(nodes, all, hs, i, 0)| == Reach(hs, i, 0)
    ensures forall k :: 0 <= k < Reach(hs, i, 0) ==> TowerNums(nodes, all, hs, i, 0)[k] == NextAt(hs, i, k) + 2
  {
    TowerNumsLength(nodes, all, hs, i, 0);
    forall k | 0 <= k < Reach(hs, i, 0) ensures TowerNums(nodes, all, hs, i, 0)[k] == NextAt(hs, i, k) + 2 {
      TowerNumAt(nodes, all, hs, i, k);
      var j := NextAt(hs, i, k);
      assert 1 <= j + 1 < |all|;
      assert NumberOf(nodes, all[j + 1]) == j + 2 < TwoTo16;
      assert Trunc16(j + 2) == j + 2;
    }
  }

  // Reading the image back

  lemma {:induction false} PairsRead(ps: seq<Position>, rest: seq<byte>)
    requires AllReal(ps) && forall k :: 0 <= k < |ps| ==> Fits(ps[k])
    ensures 8 * |ps| <= |PairBytes(ps) + rest| && PairsOf(PairBytes(ps) + rest, |ps|) == ps
  {
    if ps != [] {
      AllRealParts(ps);
      var p := ps[0];
      assert Fits(p);
      var d, o := Word(p.documentID), Word(p.offset);
      var tail := PairBytes(ps[1..]) + rest;
      var s := PairBytes(ps) + rest;
      assert s == U32(d) + (U32(o) + tail);
      ReadU32Written(d, U32(o) + tail);
      assert s[4..] == U32(o) + tail;
      ReadU32Written(o, tail);
      assert s[8..] == tail;
      PairsRead(ps[1..], rest);
      assert Position(Int(d), Int(o)) == p;
      assert PairsOf(s, |ps|) == [p] + PairsOf(tail, |ps| - 1);
      assert ps == [p] + ps[1..];
    }
  }

  /**
   * Reading the uint16 numbers ns (none 0, none above count) into slots j
   * onwards of a tower whose other slots already hold what is wanted.
   */
  lemma {:induction false} SlotsRead(ns: seq<nat>, rest: seq<byte>, j: nat, slots: seq<nat>, want: seq<nat>, count: nat, h: nat)
    requires |slots| == |want| == MaxHeight && j + |ns| <= MaxHeight && j <= h
    requires forall k :: 0 <= k < |ns| ==> 0 < ns[k] <= count && ns[k] < TwoTo16 && want[j + k] == ns[k]
    requires forall l :: 0 <= l < MaxHeight && (l < j || j + |ns| <= l) ==> slots[l] == want[l]
    ensures SlotsOf(U16s(ns) + rest, j + |ns|, j, slots, j, count, h) == Success((want, Max(h, j + |ns|), rest))
    decreases |ns|
  {
    var s := U16s(ns) + rest;
    if ns == [] {
      assert s == rest;
      assert slots == want;
    } else {
      assert s == U16(ns[0]) + (U16s(ns[1..]) + rest);
      ReadU16Written(ns[0], U16s(ns[1..]) + rest);
      assert s[2..] == U16s(ns[1..]) + rest;
      var slots' := slots[j := ns[0]];
      forall k | 0 <= k < |ns[1..]|
        ensures 0 < ns[1..][k] <= count && ns[1..][k] < TwoTo16 && want[j + 1 + k] == ns[1..][k]
      {
        assert ns[1..][k] == ns[k + 1];
      }
      SlotsRead(ns[1..], rest, j + 1, slots', want, count, Max(h, j + 1));
    }
  }

  /** Encode's numbers for node i's tower are its linked slots, in order, and every slot above them is nil. */
  lemma NodeTower(nodes: map<(nat, nat), nat>, all: seq<Position>, hs: seq<nat>, i: int)
    requires |all| == |hs| + 1 && AllReal(all) && Numbered(nodes, all) && |all| < TwoTo16 && -1 <= i < |hs|
    ensures var ns, want := TowerNums(nodes, all, hs, i, 0), Slots(hs, i);
      && |ns| == Reach(hs, i, 0) <= MaxHeight
      && (forall k :: 0 <= k < |ns| ==> 0 < ns[k] <= |all| && want[k] == ns[k])
      && (forall l :: |ns| <= l < MaxHeight ==> want[l] == 0)
  {
    var ns, want := TowerNums(nodes, all, hs, i, 0), Slots(hs, i);
    TowerNumsShape(nodes, all, hs, i);
    ReachShape(hs, i, 0);
    forall k | 0 <= k < |ns| ensures 0 < ns[k] <= |all| && want[k] == ns[k] {
      assert Linked(hs, i, k) && ns[k] == NextAt(hs, i, k) + 2;
    }
    forall l | |ns| <= l < MaxHeight ensures want[l] == 0 {
      assert !Linked(hs, i, l);
    }
  }

  /** Reading one tower's image into a fresh tower gives the wanted slots; the height rises to the tower's count. */
  lemma TowerRead(ns: seq<nat>, want: seq<nat>, tail: seq<byte>, count: nat, h: nat)
    requires |ns| <= MaxHeight && |want| == MaxHeight
    requires forall k :: 0 <= k < |ns| ==> 0 < ns[k] <= count && ns[k] < TwoTo16 && want[k] == ns[k]
    requires forall l :: |ns| <= l < MaxHeight ==> want[l] == 0
    ensures var s := TowerBytes(ns) + tail;
      |s| >= 4 && SlotsOf(s[4..], ReadU32(s) / 2, 0, Blank(), 0, count, h) == Success((want, Max(h, |ns|), tail))
  {
    var s := TowerBytes(ns) + tail;
    if ns == [] {
      AppendAssoc(U32(2), U16(0), tail);
      ReadU32Written(2, U16(0) + tail);
      assert s[4..] == U16(0) + tail;
      ReadU16Written(0, tail);
      assert (U16(0) + tail)[2..] == tail;
      assert SlotsOf(s[4..], 1, 0, Blank(), 0, count, h) == SlotsOf(tail, 1, 1, Blank(), 0, count, h);
      assert want == Blank();
    } else {
      AppendAssoc(U32(2 * |ns|), U16s(ns), tail);
      ReadU32Written(2 * |ns|, U16s(ns) + tail);
      assert s[4..] == U16s(ns) + tail;
      SlotsRead(ns, tail, 0, Blank(), want, count, h);
      assert ReadU32(s) / 2 == |ns|;
    }
  }

  /** Reading the towers of the nodes from index i on (i = -1: the head) into a table whose earlier rows are done. */
  lemma {:induction false} TowersRead(nodes: map<(nat, nat), nat>, all: seq<Position>, hs: seq<nat>, i: int, rest: seq<byte>, ts: seq<seq<nat>>, h: nat)
    requires |all| == |hs| + 1 && AllReal(all) && Numbered(nodes, all) && |all| < TwoTo16 && -1 <= i <= |hs|
    requires |ts| == |all| && 1 <= h && forall x :: 0 <= x < |all| ==> |ts[x]| == MaxHeight
    requires forall x :: 0 <= x < |all| ==> ts[x] == if x <= i then Slots(hs, x - 1) else Blank()
    ensures TowersOf(TowersBytes(nodes, all, hs, i) + rest, |all|, i + 1, ts, h) == Success((AllSlots(hs), Max(h, ReachMax(hs, i)), rest))
    decreases |hs| - i
  {
    var count := |all|;
    if i == |hs| {
      assert TowersBytes(nodes, all, hs, i) + rest == rest;
      assert ts == AllSlots(hs);
    } else {
      var ts' := ts[i + 1 := Slots(hs, i)];
      TowersStep(nodes, all, hs, i, rest, ts, h);
      forall x | 0 <= x < count
        ensures |ts'[x]| == MaxHeight && ts'[x] == if x <= i + 1 then Slots(hs, x - 1) else Blank()
      {
        if x != i + 1 {
          assert ts'[x] == ts[x];
        }
      }
      TowersRead(nodes, all, hs, i + 1, rest, ts', Max(h, Reach(hs, i, 0)));
    }
  }

  /** One round of reading the towers: node i's tower fills row i + 1 of the table. */
  lemma TowersStep(nodes: map<(nat, nat), nat>, all: seq<Position>, hs: seq<nat>, i: int, rest: seq<byte>, ts: seq<seq<nat>>, h: nat)
    requires |all| == |hs| + 1 && AllReal(all) && Numbered(nodes, all) && |all| < TwoTo16 && -1 <= i < |hs|
    requires |ts| == |all| && (forall x :: 0 <= x < |all| ==> |ts[x]| == MaxHeight) && ts[i + 1] == Blank()
    ensures TowersOf(TowersBytes(nodes, all, hs, i) + rest, |all|, i + 1, ts, h)
         == TowersOf(TowersBytes(nodes, all, hs, i + 1) + rest, |all|, i + 2, ts[i + 1 := Slots(hs, i)], Max(h, Reach(hs, i, 0)))
    ensures Max(Max(h, Reach(hs, i, 0)), ReachMax(hs, i + 1)) == Max(h, ReachMax(hs, i))
  {
    var ns := TowerNums(nodes, all, hs, i, 0);
    NodeTower(nodes, all, hs, i);
    var tail := TowersBytes(nodes, all, hs, i + 1) + rest;
    AppendAssoc(TowerBytes(ns), TowersBytes(nodes, all, hs, i + 1), rest);
    TowerRead(ns, Slots(hs, i), tail, |all|, h);
  }

  /** The image of a list's nodes, all of whose coordinates fit, reads back as its keys and towers. */
  lemma ImageRead(t: Term, all: seq<Position>, hs: seq<nat>, rest: seq<byte>)
    requires |t| < TwoTo32 && |all| == |hs| + 1 && |all| < TwoTo16
    requires AllReal(all) && Numbered(NumberMap(all), all) && forall k :: 0 <= k < |all| ==> Fits(all[k])
    ensures ListOf(U32(|t|) + t + U32(8 * |all|) + PairBytes(all) + TowersBytes(NumberMap(all), all, hs, -1) + rest)
         == Success((t, DList(all, AllSlots(hs), Max(1, ReachMax(hs, -1))), rest))
  {
    var nodes := NumberMap(all);
    var ys := TowersBytes(nodes, all, hs, -1) + rest;
    var xs := PairBytes(all) + ys;
    var ws := U32(8 * |all|) + xs;
    var s := U32(|t|) + t + U32(8 * |all|) + PairBytes(all) + TowersBytes(nodes, all, hs, -1) + rest;
    Reassoc5(U32(|t|), t, U32(8 * |all|), PairBytes(all), TowersBytes(nodes, all, hs, -1), rest);
    assert s == U32(|t|) + (t + ws);
    ReadU32Written(|t|, t + ws);
    assert s[4..] == t + ws && (t + ws)[..|t|] == t && (t + ws)[|t|..] == ws;
    ReadU32Written(8 * |all|, xs);
    assert ws[4..] == xs;
    PairsRead(all, ys);
    assert xs[8 * |all|..] == ys;
    Octets(|all|);
    TowersRead(nodes, all, hs, -1, rest, Blanks(|all|), 1);
  }

  /** The image of a list reads back as the recovered list, whatever follows it. */
  lemma ListRead(e: Entry, rest: seq<byte>)
    requires Encodable(e)
    ensures ListOf(ListBytes(e.term, e.keys, e.heights) + rest) == Success((e.term, Recovered(e.keys, e.heights), rest))
  {
    var t, ks, hs := e.term, e.keys, e.heights;
    var all := [HeadKey] + ks;
    NumberedKeys(ks);
    forall k | 0 <= k < |all| ensures Fits(all[k]) {
      if k > 0 {
        assert all[k] == ks[k - 1];
      }
    }
    ImageRead(t, all, hs, rest);
    ReachOfHead(hs);
    ReachMaxOfNodes(hs, 0);
    assert ReachMax(hs, -1) == MaxOf(hs);
    assert Trunc32(|t|) == |t| && Trunc32(8 * |all|) == 8 * |all|;
    assert ListBytes(t, ks, hs) == U32(|t|) + t + U32(8 * |all|) + PairBytes(all) + TowersBytes(NumberMap(all), all, hs, -1);
  }

  /** The lists recovered after reading the images of es on top of m: each one replaces any earlier list of its token. */
  function Override(m: map<Term, DList>, es: seq<Entry>): map<Term, DList>
    decreases |es|
  {
    if es == [] then m else Override(m[es[0].term := Recovered(es[0].keys, es[0].heights)], es[1..])
  }

  /** Reading an image made of the lists es, on top of m, recovers each of them. */
  lemma {:induction false} IndexRead(m: map<Term, DList>, es: seq<Entry>)
    requires forall k :: 0 <= k < |es| ==> Encodable(es[k])
    ensures forall k :: 0 <= k < |es| ==> EntryOk(es[k])
    ensures DecodeFrom(m, IndexBytes(es)) == Success(Override(m, es))
    decreases |es|
  {
    if es != [] {
      var e, more := es[0], es[1..];
      forall k | 0 <= k < |more| ensures Encodable(more[k]) {
        assert more[k] == es[k + 1];
      }
      IndexBytesFront(es);
      DecodeStep(m, e, IndexBytes(more));
      IndexRead(m[e.term := Recovered(e.keys, e.heights)], more);
    }
  }

  /** One round of Decode over a list's image recovers that list. */
  lemma DecodeStep(m: map<Term, DList>, e: Entry, more: seq<byte>)
    requires Encodable(e)
    ensures DecodeFrom(m, ListBytes(e.term, e.keys, e.heights) + more) == DecodeFrom(m[e.term := Recovered(e.keys, e.heights)], more)
  {
    ListRead(e, more);
    assert |ListBytes(e.term, e.keys, e.heights) + more| > 0;
  }

  /** The tokens after reading es on top of m: those of m and those of es. */
  lemma {:induction false} OverrideKeys(m: map<Term, DList>, es: seq<Entry>)
    ensures forall t :: t in Override(m, es) <==> t in m || exists k :: 0 <= k < |es| && es[k].term == t
    decreases |es|
  {
    if es != [] {
      var e, tail := es[0], es[1..];
      var m' := m[e.term := Recovered(e.keys, e.heights)];
      OverrideKeys(m', tail);
      forall t ensures t in Override(m, es) <==> t in m || exists k :: 0 <= k < |es| && es[k].term == t {
        if exists k :: 0 <= k < |tail| && tail[k].term == t {
          var k :| 0 <= k < |tail| && tail[k].term == t;
          assert es[k + 1].term == t;
        }
        if exists k :: 0 <= k < |es| && es[k].term == t {
          var k :| 0 <= k < |es| && es[k].term == t;
          if k > 0 {
            assert tail[k - 1].term == t;
          }
        }
      }
    }
  }

  /** A token that es does not mention keeps its list from m. */
  lemma {:induction false} OverrideKeeps(m: map<Term, DList>, es: seq<Entry>, t: Term)
    requires t in m && forall k :: 0 <= k < |es| ==> es[k].term != t
    ensures t in Override(m, es) && Override(m, es)[t] == m[t]
    decreases |es|
  {
    if es != [] {
      var e, tail := es[0], es[1..];
      forall j | 0 <= j < |tail| ensures tail[j].term != t {
        assert tail[j] == es[j + 1];
      }
      OverrideKeeps(m[e.term := Recovered(e.keys, e.heights)], tail, t);
    }
  }

  /** With distinct tokens, each list of es ends up recovered under its token. */
  lemma {:induction false} OverrideValues(m: map<Term, DList>, es: seq<Entry>)
    requires forall j, k :: 0 <= j < k < |es| ==> es[j].term != es[k].term
    ensures forall k :: 0 <= k < |es| ==>
      es[k].term in Override(m, es) && Override(m, es)[es[k].term] == Recovered(es[k].keys, es[k].heights)
    decreases |es|
  {
    if es != [] {
      var e, tail := es[0], es[1..];
      var m' := m[e.term := Recovered(e.keys, e.heights)];
      forall j, k | 0 <= j < k < |tail| ensures tail[j].term != tail[k].term {
        assert tail[j] == es[j + 1] && tail[k] == es[k + 1];
      }
      OverrideValues(m', tail);
      forall j | 0 <= j < |tail| ensures tail[j].term != e.term {
        assert tail[j] == es[j + 1];
      }
      OverrideKeeps(m', tail, e.term);
      forall k | 0 <= k < |es|
        ensures es[k].term in Override(m, es) && Override(m, es)[es[k].term] == Recovered(es[k].keys, es[k].heights)
      {
        if k > 0 {
          assert es[k] == tail[k - 1];
        }
      }
    }
  }

  /** Decoding the image of lists Encode can write without loss succeeds with the lists read on top of the empty index. */
  lemma DecodesToOverride(es: seq<Entry>)
    requires forall k :: 0 <= k < |es| ==> Encodable(es[k])
    ensures forall k :: 0 <= k < |es| ==> EntryOk(es[k])
    ensures DecodeIndex(IndexBytes(es)) == Success(Override(map[], es))
  {
    IndexRead(map[], es);
  }

  /** Reading es on top of the empty index yields exactly the tokens of es. */
  lemma OverrideEmptyKeys(es: seq<Entry>)
    ensures forall t :: t in Override(map[], es) <==> exists k :: 0 <= k < |es| && es[k].term == t
  {
    OverrideKeys(map[], es);
  }

  /** Reading es, with distinct tokens, on top of the empty index recovers each list of es under its token. */
  lemma OverrideEmptyValues(es: seq<Entry>)
    requires forall j, k :: 0 <= j < k < |es| ==> es[j].term != es[k].term
    ensures forall k :: 0 <= k < |es| ==>
      es[k].term in Override(map[], es) && Override(map[], es)[es[k].term] == Recovered(es[k].keys, es[k].heights)
  {
    OverrideValues(map[], es);
  }

  /**
   * The round trip: decoding the image of lists with distinct tokens that
   * Encode can write without loss recovers exactly those tokens, each with
   * its list's keys (the head's first), the node numbers of its towers and
   * its height.
   */
  lemma RoundTrip(es: seq<Entry>)
    requires forall k :: 0 <= k < |es| ==> Encodable(es[k])
    requires forall j, k :: 0 <= j < k < |es| ==> es[j].term != es[k].term
    ensures forall k :: 0 <= k < |es| ==> EntryOk(es[k])
    ensures var r := DecodeIndex(IndexBytes(es));
      && r.Success?
      && (forall t :: t in r.value <==> exists k :: 0 <= k < |es| && es[k].term == t)
      && (forall k :: 0 <= k < |es| ==> es[k].term in r.value && r.value[es[k].term] == Recovered(es[k].keys, es[k].heights))
  {
    DecodesToOverride(es);
    OverrideEmptyKeys(es);
    OverrideEmptyValues(es);
  }

  // ---------------------------------------------------------------------
  // The image of a whole index
  // ---------------------------------------------------------------------

  /** es lists, once each, the lists of the tokens of L outside todo. */
  ghost predicate Enumerated(es: seq<Entry>, L: Lists, H: map<Term, seq<nat>>, todo: set<Term>) {
    && (forall j, k :: 0 <= j < k < |es| ==> es[j].term != es[k].term)
    && (forall k :: 0 <= k < |es| ==> es[k].term in L && es[k].term in H && es[k].term !in todo
                                       && es[k].keys == L[es[k].term] && es[k].heights == H[es[k].term])
    && (forall t :: t in L && t !in todo ==> exists k :: 0 <= k < |es| && es[k].term == t)
  }

  /** Encode's loop: the lists ps, valid with keys L and tower heights H, written one after the other. */
  method EncodeLists(ps: map<Term, SkipList>, ghost L: Lists, ghost H: map<Term, seq<nat>>) returns (b: seq<byte>, ghost es: seq<Entry>)
    requires ps.Keys == L.Keys == H.Keys
    requires forall t {:trigger ps[t].Valid()} :: t in ps ==> ps[t].Valid()
    requires forall t :: t in ps ==> AllReal(L[t]) && ps[t].keys == L[t] && ps[t].heights == H[t]
    ensures forall k :: 0 <= k < |es| ==> EntryOk(es[k])
    ensures Enumerates(es, L, H) && b == IndexBytes(es)
  {
    b, es := [], [];
    var todo := ps.Keys;
    while todo != {}
      invariant todo <= ps.Keys && Written(b, es, L, H, todo)
      decreases |todo|
    {
      var t :| t in todo;
      var lb := EncodeList(t, ps[t]);
      WrittenStep(b, es, L, H, todo, t, lb);
      b, es := b + lb, es + [Entry(t, L[t], H[t])];
      todo := todo - {t};
    }
    EnumeratedAll(es, L, H);
  }

  /** After the tokens outside todo: b is the image of es, which lists their lists once each. */
  ghost predicate Written(b: seq<byte>, es: seq<Entry>, L: Lists, H: map<Term, seq<nat>>, todo: set<Term>) {
    && (forall k :: 0 <= k < |es| ==> EntryOk(es[k]))
    && b == IndexBytes(es)
    && Enumerated(es, L, H, todo)
  }

  /** Writing the image of one more token's list. */
  lemma WrittenStep(b: seq<byte>, es: seq<Entry>, L: Lists, H: map<Term, seq<nat>>, todo: set<Term>, t: Term, lb: seq<byte>)
    requires Written(b, es, L, H, todo) && t in todo && t in L && t in H
    requires EntryOk(Entry(t, L[t], H[t])) && lb == ListBytes(t, L[t], H[t])
    ensures Written(b + lb, es + [Entry(t, L[t], H[t])], L, H, todo - {t})
  {
    IndexBytesSnoc(es, Entry(t, L[t], H[t]));
    EnumeratedStep(es, L, H, todo, t);
  }

  /** Listing one more token of todo keeps the enumeration. */
  lemma EnumeratedStep(es: seq<Entry>, L: Lists, H: map<Term, seq<nat>>, todo: set<Term>, t: Term)
    requires Enumerated(es, L, H, todo) && t in todo && t in L && t in H
    ensures Enumerated(es + [Entry(t, L[t], H[t])], L, H, todo - {t})
  {
    var es' := es + [Entry(t, L[t], H[t])];
    forall u | u in L && u !in todo - {t} ensures exists k :: 0 <= k < |es'| && es'[k].term == u {
      if u == t {
        assert es'[|es|].term == u;
      } else {
        var k :| 0 <= k < |es| && es[k].term == u;
        assert es'[k].term == u;
      }
    }
  }

  /** With nothing left to do the enumeration is complete. */
  lemma EnumeratedAll(es: seq<Entry>, L: Lists, H: map<Term, seq<nat>>)
    requires Enumerated(es, L, H, {})
    ensures Enumerates(es, L, H)
  {
  }

  /** H gives, for each token of L, one tower height in [1, MaxHeight] per key. */
  ghost predicate Towered(L: Lists, H: map<Term, seq<nat>>) {
    && H.Keys == L.Keys
    && forall t :: t in H ==> |H[t]| == |L[t]| && forall i :: 0 <= i < |H[t]| ==> 1 <= H[t][i] <= MaxHeight
  }

  /**
   * es lists every token's list exactly once, each with its keys and its
   * nodes' tower heights: the lists in an order Encode may visit them.
   */
  ghost predicate Enumerates(es: seq<Entry>, L: Lists, H: map<Term, seq<nat>>) {
    && (forall j, k :: 0 <= j < k < |es| ==> es[j].term != es[k].term)
    && (forall k :: 0 <= k < |es| ==> es[k].term in L && es[k].term in H && es[k].keys == L[es[k].term] && es[k].heights == H[es[k].term])
    && (forall t :: t in L ==> exists k :: 0 <= k < |es| && es[k].term == t)
  }

  /** What the image keeps without loss: token lengths and coordinates fit in a uint32, node numbers in a uint16. */
  predicate Storable(L: Lists) {
    forall t :: t in L ==>
      && |t| < TwoTo32 && |L[t]| + 1 < TwoTo16
      && (forall p :: p in L[t] ==> Fits(p))
  }

  /** The lists Decode reads back from the image of lists L with tower heights H. */
  function Recovery(L: Lists, H: map<Term, seq<nat>>): map<Term, DList> {
    map t | t in L && t in H :: Recovered(L[t], H[t])
  }

  /** A list of well-formed, storable lists, with one tower height in [1, MaxHeight] per key, can be written without loss. */
  lemma EntryEncodable(L: Lists, H: map<Term, seq<nat>>, e: Entry)
    requires WellFormed(L) && Towered(L, H) && Storable(L)
    requires e.term in L && e.keys == L[e.term] && e.heights == H[e.term]
    ensures Encodable(e)
  {
    assert AllReal(e.keys) && StrictlySorted(e.keys);
    forall i | 0 <= i < |e.keys| ensures Fits(e.keys[i]) {
      assert e.keys[i] in L[e.term];
    }
  }

  /** The lists read back from an enumeration of L are L's lists, recovered. */
  lemma RecoveredAll(L: Lists, H: map<Term, seq<nat>>, es: seq<Entry>, r: map<Term, DList>)
    requires H.Keys == L.Keys && Enumerates(es, L, H)
    requires forall t :: t in r <==> exists k :: 0 <= k < |es| && es[k].term == t
    requires forall k :: 0 <= k < |es| ==> es[k].term in r && r[es[k].term] == Recovered(es[k].keys, es[k].heights)
    ensures r == Recovery(L, H)
  {
    EnumeratedMap(L, H, es, r, Recovered);
  }

  /** A map holding, under each token of an enumeration of L, f of that token's keys and heights, is f over L. */
  lemma EnumeratedMap<V>(L: Lists, H: map<Term, seq<nat>>, es: seq<Entry>, r: map<Term, V>, f: (seq<Position>, seq<nat>) -> V)
    requires H.Keys == L.Keys && Enumerates(es, L, H)
    requires forall t :: t in r <==> exists k :: 0 <= k < |es| && es[k].term == t
    requires forall k :: 0 <= k < |es| ==> es[k].term in r && r[es[k].term] == f(es[k].keys, es[k].heights)
    ensures r == map t | t in L && t in H :: f(L[t], H[t])
  {
    var R := map t | t in L && t in H :: f(L[t], H[t]);
    forall t | t in R ensures t in r && r[t] == R[t] {
      var k :| 0 <= k < |es| && es[k].term == t;
    }
    assert r.Keys == R.Keys;
  }

  /** Any enumeration of well-formed, storable lists encodes to an image that decodes to exactly those lists. */
  lemma EncodedReadsBack(L: Lists, H: map<Term, seq<nat>>, es: seq<Entry>)
    requires WellFormed(L) && Towered(L, H) && Enumerates(es, L, H)
    requires forall k :: 0 <= k < |es| ==> EntryOk(es[k])
    ensures Storable(L) ==> DecodeIndex(IndexBytes(es)) == Success(Recovery(L, H))
  {
    if Storable(L) {
      forall k | 0 <= k < |es| ensures Encodable(es[k]) {
        EntryEncodable(L, H, es[k]);
      }
      RoundTrip(es);
      RecoveredAll(L, H, es, DecodeIndex(IndexBytes(es)).value);
    }
  }

  // ---------------------------------------------------------------------
  // Encode's loops over one list
  // ---------------------------------------------------------------------

  lemma AllRealPrefix(s: seq<Position>, k: nat)
    requires AllReal(s) && k <= |s|
    ensures AllReal(s[..k])
  {
    forall x | x in s[..k] ensures IsReal(x) {
      assert x in s;
    }
  }

  /** Appending a position appends its two words. */
  lemma {:induction false} PairBytesSnoc(ps: seq<Position>, p: Position)
    requires AllReal(ps) && IsReal(p)
    ensures AllReal(ps + [p])
    ensures PairBytes(ps + [p]) == PairBytes(ps) + U32(Word(p.documentID)) + U32(Word(p.offset))
  {
    var q := ps + [p];
    assert AllReal(q) by {
      forall x | x in q ensures IsReal(x) {
        if x != p {
          assert x in ps;
        }
      }
    }
    if ps != [] {
      AllRealParts(ps);
      AllRealParts(q);
      assert q[1..] == ps[1..] + [p];
      PairBytesSnoc(ps[1..], p);
      assert q[0] == ps[0];
    } else {
      assert q[1..] == [];
    }
  }

  /** A tower whose slots below r are linked and whose slot r (if any) is not reaches exactly r. */
  lemma {:induction false} ReachIs(hs: seq<nat>, i: int, l: nat, r: nat)
    requires -1 <= i < |hs| && l <= r <= MaxHeight
    requires forall m :: l <= m < r ==> Linked(hs, i, m)
    requires r < MaxHeight ==> !Linked(hs, i, r)
    ensures Reach(hs, i, l) == r - l
    decreases r - l
  {
    if l < r {
      ReachIs(hs, i, l + 1, r);
    }
  }

  /** A tower's slot is nil exactly where it is not linked. */
  lemma LinkNil(ns: seq<Node>, hs: seq<nat>, i: int, l: nat)
    requires |ns| == |hs| && -1 <= i < |hs|
    ensures LinkOf(ns, hs, i, l) == null <==> !Linked(hs, i, l)
    ensures LinkOf(ns, hs, i, l) != null ==> LinkOf(ns, hs, i, l) == ns[NextAt(hs, i, l)]
  {
  }

  /** The first loop of Encode's work on a list: number the nodes and write their keys, following the level-0 links from the head. */
  method NumberNodes(sk: SkipList) returns (nodes: map<(nat, nat), nat>, nodeBytes: seq<byte>)
    requires sk.Laid() && AllReal(sk.keys)
    ensures AllReal([HeadKey] + sk.keys)
    ensures nodes == NumberMap([HeadKey] + sk.keys) && nodeBytes == PairBytes([HeadKey] + sk.keys)
  {
    ghost var all := [HeadKey] + sk.keys;
    AllRealHead(sk.keys);
    nodes, nodeBytes := map[], [];
    var counter := 1;
    var cur: Node? := sk.head;
    ghost var k := 0;
    while cur != null
      invariant 0 <= k <= |all| && counter == k + 1
      invariant k < |all| ==> cur == sk.Holder(k - 1)
      invariant k == |all| ==> cur == null
      invariant AllReal(all[..k]) && nodes == NumberMap(all[..k]) && nodeBytes == PairBytes(all[..k])
      decreases |all| - k
    {
      var key := cur.key;
      assert key == all[k] && all[..k + 1] == all[..k] + [key];
      PairBytesSnoc(all[..k], key);
      nodes := nodes[TKey(key) := counter];
      counter := counter + 1;
      nodeBytes := nodeBytes + U32(Word(key.documentID)) + U32(Word(key.offset));
      NextAtZero(sk.heights, k - 1);
      assert cur.tower == TowerOf(sk.nodes, sk.heights, k - 1);
      cur := cur.tower[0];
      k := k + 1;
    }
    assert all[..k] == all;
  }

  /**
   * The tower loop of Encode for node i (i = -1: the head), over that node's
   * slots tw: the nodes they link to, up to the first nil one.
   */
  method LinkedNodes(tw: seq<Node?>, ghost ns: seq<Node>, ghost hs: seq<nat>, ghost i: int) returns (tower: seq<Node>)
    requires |ns| == |hs| && -1 <= i < |hs| && tw == TowerOf(ns, hs, i)
    ensures |tower| == Reach(hs, i, 0)
    ensures forall m :: 0 <= m < |tower| ==> Linked(hs, i, m) && tower[m] == ns[NextAt(hs, i, m)]
  {
    tower := [];
    var level := 0;
    while level < MaxHeight
      invariant 0 <= level <= MaxHeight && |tower| == level
      invariant forall m :: 0 <= m < level ==> Linked(hs, i, m) && tower[m] == ns[NextAt(hs, i, m)]
      decreases MaxHeight - level
    {
      LinkNil(ns, hs, i, level);
      if tw[level] == null {
        break;
      }
      tower := tower + [tw[level]];
      level := level + 1;
    }
    LinkNil(ns, hs, i, level);
    ReachIs(hs, i, 0, level);
  }

  /**
   * The numbers and bytes Encode writes for the tower of node i (i = -1: the
   * head), from the nodes that tower links to and the node numbers.
   */
  method TowerImage(tower: seq<Node>, nodes: map<(nat, nat), nat>, ghost ns: seq<nat>) returns (tb: seq<byte>)
    requires |ns| == |tower| && forall m :: 0 <= m < |tower| ==> IsReal(tower[m].key)
    requires forall m :: 0 <= m < |ns| ==> ns[m] == Trunc16(NumberOf(nodes, tower[m].key))
    ensures forall m :: 0 <= m < |ns| ==> ns[m] < TwoTo16
    ensures tb == TowerBytes(ns)
  {
    var towerKeys: seq<nat> := [];
    var towerNodeBytes: seq<byte> := [];
    var j := 0;
    while j < |tower|
      invariant 0 <= j <= |tower| && towerKeys == ns[..j]
      invariant towerNodeBytes == U16s(towerKeys)
    {
      var key := tower[j].key;
      var num := if TKey(key) in nodes then nodes[TKey(key)] else 0;
      var n := Trunc16(num);
      TakeSnoc(ns, j);
      U16sSnoc(towerKeys, n);
      towerKeys := towerKeys + [n];
      towerNodeBytes := towerNodeBytes + U16(n);
      j := j + 1;
    }
    assert towerKeys == ns;
    if |towerKeys| == 0 {
      tb := U32(2) + U16(0);
    } else {
      assert |towerNodeBytes| == 2 * |ns|;
      tb := U32(Trunc32(|towerNodeBytes|)) + towerNodeBytes;
    }
  }

  /** The numbers of node i's tower, read off the keys ks of the nodes its slots link to. */
  lemma TowerNumsOfKeys(nodes: map<(nat, nat), nat>, all: seq<Position>, hs: seq<nat>, i: int, ks: seq<Position>)
    requires |all| == |hs| + 1 && AllReal(all) && -1 <= i < |hs| && |ks| == Reach(hs, i, 0)
    requires forall m :: 0 <= m < |ks| ==> Linked(hs, i, m) && ks[m] == all[NextAt(hs, i, m) + 1]
    ensures |TowerNums(nodes, all, hs, i, 0)| == |ks|
    ensures forall m :: 0 <= m < |ks| ==> IsReal(ks[m])
    ensures forall m :: 0 <= m < |ks| ==> TowerNums(nodes, all, hs, i, 0)[m] == Trunc16(NumberOf(nodes, ks[m]))
  {
    TowerNumsLength(nodes, all, hs, i, 0);
    forall m | 0 <= m < |ks|
      ensures IsReal(ks[m]) && TowerNums(nodes, all, hs, i, 0)[m] == Trunc16(NumberOf(nodes, ks[m]))
    {
      TowerNumOfKey(nodes, all, hs, i, m, ks[m]);
    }
  }

  lemma TowerNumOfKey(nodes: map<(nat, nat), nat>, all: seq<Position>, hs: seq<nat>, i: int, m: nat, key: Position)
    requires |all| == |hs| + 1 && AllReal(all) && -1 <= i < |hs| && m < Reach(hs, i, 0)
    requires Linked(hs, i, m) && key == all[NextAt(hs, i, m) + 1]
    ensures IsReal(key) && |TowerNums(nodes, all, hs, i, 0)| == Reach(hs, i, 0)
    ensures TowerNums(nodes, all, hs, i, 0)[m] == Trunc16(NumberOf(nodes, key))
  {
    TowerNumAt(nodes, all, hs, i, m);
  }

  /** One round of Encode's tower loop: the bytes of node i's tower (i = -1: the head), and the node after it. */
  method NodeImage(sk: SkipList, cur: Node, ghost i: int, nodes: map<(nat, nat), nat>) returns (tb: seq<byte>, next: Node?)
    requires sk.Laid() && -1 <= i < |sk.nodes| && cur == sk.Holder(i) && AllReal(sk.keys)
    ensures |sk.keys| == |sk.heights| && AllReal([HeadKey] + sk.keys)
    ensures tb == TowerBytes(TowerNums(nodes, [HeadKey] + sk.keys, sk.heights, i, 0))
    ensures i + 1 < |sk.nodes| ==> next == sk.Holder(i + 1)
    ensures i + 1 == |sk.nodes| ==> next == null
  {
    AllRealHead(sk.keys);
    ghost var all := [HeadKey] + sk.keys;
    assert cur.tower == TowerOf(sk.nodes, sk.heights, i);
    var tower := LinkedNodes(cur.tower, sk.nodes, sk.heights, i);
    ghost var ks := seq(|tower|, m reads tower requires 0 <= m < |tower| => tower[m].key);
    forall m | 0 <= m < |tower|
      ensures ks[m] == tower[m].key == all[NextAt(sk.heights, i, m) + 1]
    {
      var j := NextAt(sk.heights, i, m);
      assert sk.nodes[j].key == sk.keys[j] == all[j + 1];
    }
    TowerNumsOfKeys(nodes, all, sk.heights, i, ks);
    tb := TowerImage(tower, nodes, TowerNums(nodes, all, sk.heights, i, 0));
    NextAtZero(sk.heights, i);
    assert cur.tower == TowerOf(sk.nodes, sk.heights, i);
    next := cur.tower[0];
  }

  /**
   * Encode's work for the token t and its list sk: the token, the keys of
   * the nodes in level-0 order, and then every node's tower as the numbers
   * of the nodes it links to.
   */
  method EncodeList(t: Term, sk: SkipList) returns (b: seq<byte>)
    requires sk.Valid() && AllReal(sk.keys)
    ensures AllReal(sk.keys) && |sk.keys| == |sk.heights|
    ensures b == ListBytes(t, sk.keys, sk.heights)
  {
    sk.ValidIsLaid();
    var nodes, nodeBytes := NumberNodes(sk);
    var towers := TowersImage(sk, nodes);
    b := U32(Trunc32(|t|)) + t + U32(Trunc32(|nodeBytes|)) + nodeBytes + towers;
  }

  /** The towers of the first k nodes in level-0 order (the head first). */
  function TowersBefore(nodes: map<(nat, nat), nat>, all: seq<Position>, hs: seq<nat>, k: nat): seq<byte>
    requires |all| == |hs| + 1 && AllReal(all) && k <= |all|
  {
    if k == 0 then [] else TowersBefore(nodes, all, hs, k - 1) + TowerBytes(TowerNums(nodes, all, hs, k - 2, 0))
  }

  /** The towers before node k - 1 and those from it on make up all the towers. */
  lemma {:induction false} TowersSplit(nodes: map<(nat, nat), nat>, all: seq<Position>, hs: seq<nat>, k: nat)
    requires |all| == |hs| + 1 && AllReal(all) && k <= |all|
    ensures TowersBefore(nodes, all, hs, k) + TowersBytes(nodes, all, hs, k - 1) == TowersBytes(nodes, all, hs, -1)
    decreases k
  {
    if k == 0 {
      assert [] + TowersBytes(nodes, all, hs, -1) == TowersBytes(nodes, all, hs, -1);
    } else {
      TowersSplit(nodes, all, hs, k - 1);
      AppendAssoc(TowersBefore(nodes, all, hs, k - 1), TowerBytes(TowerNums(nodes, all, hs, k - 2, 0)), TowersBytes(nodes, all, hs, k - 1));
    }
  }

  /** Encode's tower loop: every node's tower in level-0 order, the head first, given the node numbers. */
  method TowersImage(sk: SkipList, nodes: map<(nat, nat), nat>) returns (b: seq<byte>)
    requires sk.Laid() && AllReal(sk.keys)
    ensures |sk.keys| == |sk.heights| && AllReal([HeadKey] + sk.keys)
    ensures b == TowersBytes(nodes, [HeadKey] + sk.keys, sk.heights, -1)
  {
    AllRealHead(sk.keys);

    ghost var all := [HeadKey] + sk.keys;
    ghost var hs := sk.heights;
    b := [];
    var cur: Node? := sk.head;
    ghost var k := 0;
    while cur != null
      invariant 0 <= k <= |all|
      invariant k < |all| ==> cur == sk.Holder(k - 1)
      invariant k == |all| ==> cur == null
      invariant b == TowersBefore(nodes, all, hs, k)
      decreases |all| - k
    {
      var tb;
      tb, cur := NodeImage(sk, cur, k - 1, nodes);
      TowersBeforeStep(nodes, all, hs, k, b, tb);
      b := b + tb;
      k := k + 1;
    }
    TowersAll(nodes, all, hs, b);
  }

  /** One more tower extends the towers before node k - 1. */
  lemma TowersBeforeStep(nodes: map<(nat, nat), nat>, all: seq<Position>, hs: seq<nat>, k: nat, b: seq<byte>, tb: seq<byte>)
    requires |all| == |hs| + 1 && AllReal(all) && k < |all|
    requires b == TowersBefore(nodes, all, hs, k) && tb == TowerBytes(TowerNums(nodes, all, hs, k - 1, 0))
    ensures b + tb == TowersBefore(nodes, all, hs, k + 1)
  {
  }

  /** The towers before the end are all the towers. */
  lemma TowersAll(nodes: map<(nat, nat), nat>, all: seq<Position>, hs: seq<nat>, b: seq<byte>)
    requires |all| == |hs| + 1 && AllReal(all) && b == TowersBefore(nodes, all, hs, |all|)
    ensures b == TowersBytes(nodes, all, hs, -1)
  {
    TowersSplit(nodes, all, hs, |all|);
    assert b + [] == b;
  }
}
