/**
 * The positional skip list of internal/index/skip_list.go: an ordered set of
 * postings held in nodes whose towers link each level of the list.
 *
 * The source's Node.Tower is a [MaxHeight]*Node array stored by value inside
 * the node, so it is modelled as a seq<Node?> field that is reassigned one
 * slot at a time.  The abstract view is kept in ghost fields: the nodes in
 * level-0 order (head excluded), their keys, and the height of each node's
 * tower.  Valid() ties every tower slot to that view: slot l of a node whose
 * tower reaches level l points to the next node whose tower reaches level l,
 * and every other slot is nil.
 */
module SkipLists {
  import opened Postings
  import opened Wrappers

  const MaxHeight: int := 32

  /** The key the head node carries: the zero Position of a fresh Node. */
  const HeadKey := Position(Int(0), Int(0))

  function EmptyTower(): (t: seq<Node?>)
    ensures |t| == MaxHeight && forall l :: 0 <= l < MaxHeight ==> t[l] == null
  {
    seq(MaxHeight, _ => null)
  }

  class Node {
    var key: Position
    var tower: seq<Node?>

    constructor (key: Position)
      ensures this.key == key && tower == EmptyTower()
    {
      this.key := key;
      tower := EmptyTower();
    }
  }

  /** s with x inserted at index i. */
  function InsertAt<T>(s: seq<T>, i: int, x: T): (r: seq<T>)
    requires 0 <= i <= |s|
    ensures |r| == |s| + 1
    ensures forall k {:trigger r[k]} :: 0 <= k < i ==> r[k] == s[k]
    ensures r[i] == x
    ensures forall k {:trigger r[k]} :: i < k < |r| ==> r[k] == s[k - 1]
  {
    s[..i] + [x] + s[i..]
  }

  /** Where index i of a sequence ends up once an element is inserted at index r. */
  function Shift(i: int, r: int): int {
    if i < r then i else i + 1
  }

  /**
   * The index of the first node after index i (i = -1 stands for the head)
   * whose tower reaches level l, or |hs| when there is none.
   */
  function NextAt(hs: seq<nat>, i: int, l: nat): (j: int)
    requires -1 <= i < |hs|
    ensures i < j <= |hs|
    ensures j < |hs| ==> hs[j] > l
    decreases |hs| - i
  {
    if i + 1 == |hs| then |hs|
    else if hs[i + 1] > l then i + 1
    else NextAt(hs, i + 1, l)
  }

  /** No node strictly between i and NextAt(hs, i, l) reaches level l. */
  lemma {:induction false} NextAtSkips(hs: seq<nat>, i: int, l: nat)
    requires -1 <= i < |hs|
    ensures forall k :: i < k < NextAt(hs, i, l) ==> hs[k] <= l
    decreases |hs| - i
  {
    if i + 1 < |hs| && hs[i + 1] <= l {
      NextAtSkips(hs, i + 1, l);
    }
  }

  /** The index of the last node before index j whose tower reaches level l, or -1 (the head). */
  function PrevAt(hs: seq<nat>, j: int, l: nat): (i: int)
    requires 0 <= j <= |hs|
    ensures -1 <= i < j
    ensures i >= 0 ==> hs[i] > l
  {
    if j == 0 then -1
    else if hs[j - 1] > l then j - 1
    else PrevAt(hs, j - 1, l)
  }

  /** No node strictly between PrevAt(hs, j, l) and j reaches level l. */
  lemma {:induction false} PrevAtSkips(hs: seq<nat>, j: int, l: nat)
    requires 0 <= j <= |hs|
    ensures forall k :: PrevAt(hs, j, l) < k < j ==> hs[k] <= l
  {
    if j > 0 && hs[j - 1] <= l {
      PrevAtSkips(hs, j - 1, l);
    }
  }

  lemma NextAtUnique(hs: seq<nat>, i: int, l: nat, j: int)
    requires -1 <= i < j <= |hs|
    requires j < |hs| ==> hs[j] > l
    requires forall k :: i < k < j ==> hs[k] <= l
    ensures NextAt(hs, i, l) == j
  {
    NextAtSkips(hs, i, l);
  }

  lemma PrevAtUnique(hs: seq<nat>, j: int, l: nat, i: int)
    requires -1 <= i < j <= |hs|
    requires i >= 0 ==> hs[i] > l
    requires forall k :: i < k < j ==> hs[k] <= l
    ensures PrevAt(hs, j, l) == i
  {
    PrevAtSkips(hs, j, l);
  }

  /** The tallest tower, 0 for no nodes. */
  function MaxOf(hs: seq<nat>): (m: nat)
    ensures forall i :: 0 <= i < |hs| ==> hs[i] <= m
    ensures |hs| == 0 ==> m == 0
    ensures |hs| > 0 ==> exists i :: 0 <= i < |hs| && hs[i] == m
  {
    if hs == [] then 0
    else
      var m := MaxOf(hs[1..]);
      assert forall i :: 1 <= i < |hs| ==> hs[i] == hs[1..][i - 1];
      if hs[0] > m then hs[0] else m
  }

  function NodeAt(ns: seq<Node>, j: int): Node?
    requires 0 <= j <= |ns|
  {
    if j < |ns| then ns[j] else null
  }

  /**
   * What slot l of the tower of node i (i = -1: the head) holds in a valid
   * list with nodes ns and tower heights hs.
   */
  function LinkOf(ns: seq<Node>, hs: seq<nat>, i: int, l: nat): Node?
    requires |ns| == |hs| && -1 <= i < |hs|
  {
    if i >= 0 && l >= hs[i] then null else NodeAt(ns, NextAt(hs, i, l))
  }

  /** The whole tower of node i (i = -1: the head) in a valid list. */
  function TowerOf(ns: seq<Node>, hs: seq<nat>, i: int): (t: seq<Node?>)
    requires |ns| == |hs| && -1 <= i < |hs|
    ensures |t| == MaxHeight
    ensures forall l :: 0 <= l < MaxHeight ==> t[l] == LinkOf(ns, hs, i, l)
  {
    seq(MaxHeight, (l: int) requires 0 <= l => LinkOf(ns, hs, i, l))
  }

  /** Where each link lands once node x, with a tower of height h, is inserted at index r. */
  lemma NextAtShift(hs: seq<nat>, r: int, h: nat, i: int, l: nat)
    requires 0 <= r <= |hs| && -1 <= i < |hs|
    ensures var hs' := InsertAt(hs, r, h);
      NextAt(hs', Shift(i, r), l)
        == if l < h && i < r <= NextAt(hs, i, l) then r else Shift(NextAt(hs, i, l), r)
  {
    var hs' := InsertAt(hs, r, h);
    var j := NextAt(hs, i, l);
    NextAtSkips(hs, i, l);
    if l < h && i < r <= j {
      NextAtUnique(hs', Shift(i, r), l, r);
    } else {
      forall k | Shift(i, r) < k < Shift(j, r) ensures hs'[k] <= l {
        if k != r {
          var k0 := if k < r then k else k - 1;
          assert i < k0 < j;
        }
      }
      NextAtUnique(hs', Shift(i, r), l, Shift(j, r));
    }
  }

  /** The successor of an inserted node at a level its tower reaches. */
  lemma NextAtInserted(hs: seq<nat>, r: int, h: nat, l: nat)
    requires 0 <= r <= |hs| && l < h
    ensures NextAt(InsertAt(hs, r, h), r, l) == Shift(NextAt(hs, PrevAt(hs, r, l), l), r)
  {
    var hs' := InsertAt(hs, r, h);
    var p := PrevAt(hs, r, l);
    var j := NextAt(hs, p, l);
    PrevAtSkips(hs, r, l);
    NextAtSkips(hs, p, l);
    forall k | r < k < j + 1 ensures hs'[k] <= l {
      assert p < k - 1 < j;
    }
    NextAtUnique(hs', r, l, j + 1);
  }

  /**
   * Insertion at index r splices the new node behind the last node before r
   * at every level below h, and leaves every other link as it was.
   */
  lemma LinkAfterInsert(ns: seq<Node>, hs: seq<nat>, x: Node, r: int, h: nat, i: int, l: nat)
    requires |ns| == |hs| && 0 <= r <= |hs| && -1 <= i < |hs|
    ensures LinkOf(InsertAt(ns, r, x), InsertAt(hs, r, h), Shift(i, r), l)
      == if l < h && i == PrevAt(hs, r, l) then x else LinkOf(ns, hs, i, l)
  {
    if i >= 0 && l >= hs[i] {
      assert InsertAt(hs, r, h)[Shift(i, r)] == hs[i];
    } else if l < h && i < r <= NextAt(hs, i, l) {
      LinkToInserted(ns, hs, x, r, h, i, l);
    } else {
      LinkPastInserted(ns, hs, x, r, h, i, l);
    }
  }

  /** A level-l link that spans index r is redirected to the inserted node. */
  lemma LinkToInserted(ns: seq<Node>, hs: seq<nat>, x: Node, r: int, h: nat, i: int, l: nat)
    requires |ns| == |hs| && 0 <= r <= |hs| && -1 <= i < |hs|
    requires !(i >= 0 && l >= hs[i]) && l < h && i < r <= NextAt(hs, i, l)
    ensures i == PrevAt(hs, r, l)
    ensures LinkOf(InsertAt(ns, r, x), InsertAt(hs, r, h), Shift(i, r), l) == x
  {
    NextAtShift(hs, r, h, i, l);
    NextAtSkips(hs, i, l);
    PrevAtUnique(hs, r, l, i);
  }

  /** The level-l link out of PrevAt(hs, r, l) spans index r. */
  lemma PrevAtReaches(hs: seq<nat>, r: int, l: nat)
    requires 0 <= r <= |hs|
    ensures PrevAt(hs, r, l) < r <= NextAt(hs, PrevAt(hs, r, l), l)
  {
    PrevAtSkips(hs, r, l);
    var j := NextAt(hs, PrevAt(hs, r, l), l);
  }

  /** Any other live link keeps its target, which only moves to its shifted index. */
  lemma LinkPastInserted(ns: seq<Node>, hs: seq<nat>, x: Node, r: int, h: nat, i: int, l: nat)
    requires |ns| == |hs| && 0 <= r <= |hs| && -1 <= i < |hs|
    requires !(i >= 0 && l >= hs[i]) && !(l < h && i < r <= NextAt(hs, i, l))
    ensures !(l < h && i == PrevAt(hs, r, l))
    ensures LinkOf(InsertAt(ns, r, x), InsertAt(hs, r, h), Shift(i, r), l) == LinkOf(ns, hs, i, l)
  {
    NextAtShift(hs, r, h, i, l);
    PrevAtReaches(hs, r, l);
    ShiftedLink(ns, hs, x, r, h, i, l);
  }

  /** A live link whose target moves only by the shift keeps pointing at the same node. */
  lemma ShiftedLink(ns: seq<Node>, hs: seq<nat>, x: Node, r: int, h: nat, i: int, l: nat)
    requires |ns| == |hs| && 0 <= r <= |hs| && -1 <= i < |hs| && !(i >= 0 && l >= hs[i])
    requires NextAt(InsertAt(hs, r, h), Shift(i, r), l) == Shift(NextAt(hs, i, l), r)
    ensures LinkOf(InsertAt(ns, r, x), InsertAt(hs, r, h), Shift(i, r), l) == LinkOf(ns, hs, i, l)
  {
    var j := NextAt(hs, i, l);
    var ns', hs', i' := InsertAt(ns, r, x), InsertAt(hs, r, h), Shift(i, r);
    if i >= 0 {
      assert hs'[i'] == hs[i];
    }
    if j < |hs| {
      assert ns'[Shift(j, r)] == ns[j];
    }
  }

  /** The links of an inserted node: what its predecessor at each level pointed to. */
  lemma LinkOfInserted(ns: seq<Node>, hs: seq<nat>, x: Node, r: int, h: nat, l: nat)
    requires |ns| == |hs| && 0 <= r <= |hs|
    ensures LinkOf(InsertAt(ns, r, x), InsertAt(hs, r, h), r, l)
      == if l < h then LinkOf(ns, hs, PrevAt(hs, r, l), l) else null
  {
    if l < h {
      var ns' := InsertAt(ns, r, x);
      NextAtInserted(hs, r, h, l);
      var j := NextAt(hs, PrevAt(hs, r, l), l);
      if j < |hs| {
        assert ns'[Shift(j, r)] == ns[j];
      }
    }
  }

  /** The towers of a valid list with nodes ns and heights hs, the head's first. */
  function Towers(ns: seq<Node>, hs: seq<nat>): (ts: seq<seq<Node?>>)
    requires |ns| == |hs|
    ensures |ts| == |ns| + 1
    ensures forall k :: 0 <= k < |ts| ==> ts[k] == TowerOf(ns, hs, k - 1)
  {
    seq(|ns| + 1, (k: int) requires 0 <= k <= |ns| => TowerOf(ns, hs, k - 1))
  }

  /**
   * The towers the head and the nodes ns must have once node x, with a tower
   * of height h, sits at index r: those of the new list, read off at the
   * shifted indices.
   */
  function SplicedTowers(ns: seq<Node>, hs: seq<nat>, x: Node, r: int, h: nat): (ts: seq<seq<Node?>>)
    requires |ns| == |hs| && 0 <= r <= |hs|
    ensures |ts| == |ns| + 1
    ensures forall k :: 0 <= k < |ts| ==>
      ts[k] == TowerOf(InsertAt(ns, r, x), InsertAt(hs, r, h), Shift(k - 1, r))
  {
    seq(|ns| + 1, (k: int) requires 0 <= k <= |ns| =>
      TowerOf(InsertAt(ns, r, x), InsertAt(hs, r, h), Shift(k - 1, r)))
  }

  /** The last node before index r at each level (-1: the head). */
  function Preds(hs: seq<nat>, r: int): (ps: seq<int>)
    requires 0 <= r <= |hs|
    ensures |ps| == MaxHeight
    ensures forall l :: 0 <= l < MaxHeight ==> ps[l] == PrevAt(hs, r, l)
  {
    seq(MaxHeight, (l: int) requires 0 <= l => PrevAt(hs, r, l))
  }

  /**
   * What splicing x in at index r does to the towers: at each level below h,
   * the slot of that level's predecessor becomes x and x takes over what it
   * held; every other slot keeps its link.
   */
  lemma SpliceFacts(ns: seq<Node>, hs: seq<nat>, x: Node, r: int, h: nat)
    requires |ns| == |hs| && 0 <= r <= |hs|
    ensures var olds, news, ps := Towers(ns, hs), SplicedTowers(ns, hs, x, r, h), Preds(hs, r);
      && (forall k, l {:trigger news[k][l]} :: 0 <= k < |olds| && 0 <= l < MaxHeight ==>
            news[k][l] == if l < h && k == ps[l] + 1 then x else olds[k][l])
      && (forall l :: 0 <= l < MaxHeight ==>
            TowerOf(InsertAt(ns, r, x), InsertAt(hs, r, h), r)[l]
              == if l < h then olds[ps[l] + 1][l] else null)
  {
    var olds, news, ps := Towers(ns, hs), SplicedTowers(ns, hs, x, r, h), Preds(hs, r);
    forall k, l | 0 <= k < |olds| && 0 <= l < MaxHeight
      ensures news[k][l] == if l < h && k == ps[l] + 1 then x else olds[k][l]
    {
      LinkAfterInsert(ns, hs, x, r, h, k - 1, l);
    }
    forall l | 0 <= l < MaxHeight
      ensures TowerOf(InsertAt(ns, r, x), InsertAt(hs, r, h), r)[l]
        == if l < h then olds[ps[l] + 1][l] else null
    {
      LinkOfInserted(ns, hs, x, r, h, l);
    }
  }

  /** Tower a with its slots below d taken from tower b. */
  function Mix(a: seq<Node?>, b: seq<Node?>, d: int): (t: seq<Node?>)
    requires |a| == |b| == MaxHeight
    ensures |t| == MaxHeight
    ensures forall l :: 0 <= l < MaxHeight ==> t[l] == if l < d then b[l] else a[l]
  {
    seq(MaxHeight, (l: int) requires 0 <= l < MaxHeight => if l < d then b[l] else a[l])
  }

  /** Once every slot where a and b differ is taken from b, the mix is b. */
  lemma MixDone(a: seq<Node?>, b: seq<Node?>, d: int)
    requires |a| == |b| == MaxHeight
    requires 0 <= d && forall l :: d <= l < MaxHeight ==> a[l] == b[l]
    ensures Mix(a, b, d) == b
  {
  }

  /** At level 0 every node is on the chain, so each link is to the next node. */
  lemma NextAtZero(hs: seq<nat>, i: int)
    requires -1 <= i < |hs|
    requires forall k :: 0 <= k < |hs| ==> hs[k] >= 1
    ensures NextAt(hs, i, 0) == i + 1
  {
  }

  /**
   * The indices visited by following level-l links from node i (i = -1: the
   * head) to the end of the list.
   */
  function ChainFrom(hs: seq<nat>, i: int, l: nat): (c: seq<int>)
    requires -1 <= i < |hs|
    ensures forall x :: x in c <==> i < x < |hs| && hs[x] > l
    ensures forall a, b :: 0 <= a < b < |c| ==> c[a] < c[b]
    decreases |hs| - i
  {
    var j := NextAt(hs, i, l);
    NextAtSkips(hs, i, l);
    if j == |hs| then []
    else
      var rest := ChainFrom(hs, j, l);
      [j] + rest
  }

  /** The search step's test, as the source spells it out: stop at next unless next.key < key. */
  predicate StopsAt(key: Position, next: Position)
    ensures StopsAt(key, next) <==> !Lt(next, key)
  {
    var kd, ko, nd, no := key.documentID, key.offset, next.documentID, next.offset;
    || (CoordLt(kd, nd) && CoordLt(ko, no))
    || (CoordLt(kd, nd) && CoordLt(no, ko))
    || (CoordLt(kd, nd) && ko == no)
    || (kd == nd && CoordLt(ko, no))
    || (kd == nd && ko == no)
  }

  /** The number of keys below key, i.e. where key sits (or would sit) in a sorted list. */
  function LowerBound(s: seq<Position>, key: Position): (r: nat)
    requires StrictlySorted(s)
    ensures r <= |s|
    ensures forall j :: 0 <= j < r ==> Lt(s[j], key)
    ensures forall j :: r <= j < |s| ==> !Lt(s[j], key)
  {
    if s == [] || !Lt(s[0], key) then
      assert forall j :: 0 < j < |s| ==> Lt(s[0], s[j]);
      0
    else
      1 + LowerBound(s[1..], key)
  }

  /** A sorted sequence holds key exactly when key sits at its lower bound. */
  lemma LowerBoundFinds(s: seq<Position>, key: Position)
    requires StrictlySorted(s)
    ensures key in s <==> LowerBound(s, key) < |s| && s[LowerBound(s, key)] == key
  {
    var r := LowerBound(s, key);
    if key in s {
      var j :| 0 <= j < |s| && s[j] == key;
      LtTotal(key, key);
    }
  }

  /** Past key itself when present, the keys above key are those from its lower bound on. */
  lemma AbovePartition(s: seq<Position>, key: Position)
    requires StrictlySorted(s)
    ensures var a := if key in s then LowerBound(s, key) + 1 else LowerBound(s, key);
      && a <= |s|
      && (forall j :: 0 <= j < a ==> !Lt(key, s[j]))
      && (forall j :: a <= j < |s| ==> Lt(key, s[j]))
  {
    var r := LowerBound(s, key);
    LowerBoundFinds(s, key);
    forall j | 0 <= j < |s| && j != r ensures Lt(key, s[j]) <==> r <= j {
      LtTotal(key, s[j]);
      if key in s && r < j {
        assert Lt(s[r], s[j]);
      }
    }
    if key in s {
      LtTotal(key, key);
    }
  }

  predicate Distinct<T(==)>(s: seq<T>) {
    forall i, j :: 0 <= i < j < |s| ==> s[i] != s[j]
  }

  /** Inserting key at its lower bound keeps a strictly sorted sequence strictly sorted. */
  lemma InsertKeepsSorted(s: seq<Position>, key: Position)
    requires StrictlySorted(s) && key !in s
    ensures StrictlySorted(InsertAt(s, LowerBound(s, key), key))
  {
    var r := LowerBound(s, key);
    var s' := InsertAt(s, r, key);
    LowerBoundFinds(s, key);
    forall i, j | 0 <= i < j < |s'| ensures Lt(s'[i], s'[j]) {
      if j == r {
      } else if i == r {
        LtTotal(s[j - 1], key);
      } else if i < r < j {
        LtTotal(s[j - 1], key);
        LtTransitive(s[i], key, s[j - 1]);
      }
    }
  }

  /**
   * Once node x sits at index r of ns, the keys and towers held at the old
   * indices, read off by the new ones, are those at the new indices.
   */
  lemma Reindex(ns: seq<Node>, ks: seq<Position>, x: Node, key: Position, r: int, ts: seq<seq<Node?>>)
    requires |ns| == |ks| && 0 <= r <= |ns| && |ts| == |ns| + 2
    requires x.key == key && x.tower == ts[r + 1]
    requires forall i :: 0 <= i < |ns| ==> ns[i].key == ks[i] && ns[i].tower == ts[Shift(i, r) + 1]
    ensures var ns', ks' := InsertAt(ns, r, x), InsertAt(ks, r, key);
      forall i :: 0 <= i < |ns'| ==> ns'[i].key == ks'[i] && ns'[i].tower == ts[i + 1]
  {
    var ns', ks' := InsertAt(ns, r, x), InsertAt(ks, r, key);
    forall i | 0 <= i < |ns'| ensures ns'[i].key == ks'[i] && ns'[i].tower == ts[i + 1] {
      if i > r {
        assert ns'[i] == ns[i - 1] && Shift(i - 1, r) == i;
      }
    }
  }

  class SkipList {
    var head: Node
    var height: int

    /** The nodes in level-0 order, the head excluded. */
    ghost var nodes: seq<Node>
    /** The key of each node: the ordered set of postings the list holds. */
    ghost var keys: seq<Position>
    /** How many levels each node's tower takes part in. */
    ghost var heights: seq<nat>
    ghost var Repr: set<object>

    ghost predicate Valid()
      reads this, Repr
      ensures Valid() ==> this in Repr
    {
      && this in Repr && head in Repr
      && |nodes| == |keys| == |heights|
      && (forall i :: 0 <= i < |nodes| ==> nodes[i] in Repr)
      && (forall i :: 0 <= i < |nodes| ==> nodes[i] != head)
      && 0 <= height <= MaxHeight
      && (forall i :: 0 <= i < |heights| ==> 1 <= heights[i] <= height)
      && StrictlySorted(keys)
      && head.key == HeadKey
      && head.tower == TowerOf(nodes, heights, -1)
      && (forall i :: 0 <= i < |nodes| ==> nodes[i].key == keys[i])
      && (forall i {:trigger nodes[i].tower} :: 0 <= i < |nodes| ==> nodes[i].tower == TowerOf(nodes, heights, i))
    }

    /**
     * The links and keys of a valid list, without its footprint, its order and
     * its height bound: what walking the list's towers relies on.
     */
    ghost predicate Laid()
      reads this, head, nodes
    {
      && |nodes| == |keys| == |heights|
      && (forall i :: 0 <= i < |heights| ==> 1 <= heights[i] <= MaxHeight)
      && head.key == HeadKey
      && head.tower == TowerOf(nodes, heights, -1)
      && (forall i :: 0 <= i < |nodes| ==> nodes[i].key == keys[i])
      && (forall i {:trigger nodes[i].tower} :: 0 <= i < |nodes| ==> nodes[i].tower == TowerOf(nodes, heights, i))
    }

    lemma ValidIsLaid()
      requires Valid()
      ensures Laid()
    {
    }

    /** The node at index i, the head for i = -1. */
    ghost function Holder(i: int): Node
      reads this
      requires -1 <= i < |nodes|
    {
      if i < 0 then head else nodes[i]
    }

    /** NewSkipList: an empty list of height 1. */
    constructor ()
      ensures Valid() && fresh(Repr)
      ensures keys == [] && height == 1
    {
      head := new Node(HeadKey);
      height := 1;
      nodes, keys, heights := [], [], [];
      Repr := {this, head};
    }

    /**
     * Search walks down from the top level, advancing along each level while
     * the next key is below the query.  found is the node holding key, if
     * any; journey[l] is the last node at level l below key (the head if
     * none), for each level below height, and nil above.
     */
    method Search(key: Position) returns (found: Node?, journey: seq<Node?>)
      requires Valid()
      ensures |journey| == MaxHeight
      ensures found != null <==> key in keys
      ensures found != null ==> found == nodes[LowerBound(keys, key)] && found.key == key
      ensures forall l :: 0 <= l < MaxHeight ==>
        journey[l] == if l < height then Holder(PrevAt(heights, LowerBound(keys, key), l)) else null
    {
      var next;
      journey, next := Descend(key);
      LowerBoundFinds(keys, key);
      if next != null && key == next.key {
        found := next;
      } else {
        found := null;
      }
    }

    /**
     * The walk of Search, from the top level down to level 0.  At the end,
     * next is the first node whose key is not below key.
     */
    method Descend(key: Position) returns (journey: seq<Node?>, next: Node?)
      requires Valid()
      ensures |journey| == MaxHeight
      ensures next == NodeAt(nodes, LowerBound(keys, key))
      ensures forall l :: 0 <= l < MaxHeight ==>
        journey[l] == if l < height then Holder(PrevAt(heights, LowerBound(keys, key), l)) else null
    {
      ghost var r: int := LowerBound(keys, key);
      journey := EmptyTower();
      var prev := head;
      ghost var p := -1;
      next := null;
      var level := height - 1;
      while level >= 0
        invariant -1 <= level < height
        invariant -1 <= p < r && prev == Holder(p)
        invariant p >= 0 ==> heights[p] > level
        invariant |journey| == MaxHeight
        invariant forall l :: 0 <= l < MaxHeight ==>
          journey[l] == if level < l < height then Holder(PrevAt(heights, r, l)) else null
        invariant level + 1 == height ==> next == null
        invariant level + 1 < height ==>
          p == PrevAt(heights, r, level + 1) && next == NodeAt(nodes, NextAt(heights, p, level + 1))
      {
        journey, prev, next, p := DescendLevel(key, journey, prev, p, level);
        level := level - 1;
      }
      assert heights != [] ==> 1 <= heights[0] <= height;
      if height > 0 {
        PrevAtUnique(heights, r, 0, r - 1);
        NextAtZero(heights, r - 1);
      }
    }

    /** One round of Search's walk: level is walked and its last node below key joins the journey. */
    method DescendLevel(key: Position, journey0: seq<Node?>, prev0: Node, ghost p0: int, level: int)
      returns (journey: seq<Node?>, prev: Node, next: Node?, ghost p: int)
      requires Valid() && 0 <= level < height
      requires -1 <= p0 < LowerBound(keys, key) && prev0 == Holder(p0)
      requires p0 >= 0 ==> heights[p0] > level
      requires |journey0| == MaxHeight
      requires forall l :: 0 <= l < MaxHeight ==>
        journey0[l] == if level < l < height then Holder(PrevAt(heights, LowerBound(keys, key), l)) else null
      ensures -1 <= p < LowerBound(keys, key) && prev == Holder(p)
      ensures p >= 0 ==> heights[p] > level - 1
      ensures |journey| == MaxHeight
      ensures forall l :: 0 <= l < MaxHeight ==>
        journey[l] == if level - 1 < l < height then Holder(PrevAt(heights, LowerBound(keys, key), l)) else null
      ensures p == PrevAt(heights, LowerBound(keys, key), level) && next == NodeAt(nodes, NextAt(heights, p, level))
    {
      prev, next, p := WalkLevel(key, prev0, p0, level);
      journey := journey0[level := prev];
    }

    /**
     * One level of Search: from prev, advance along the given level while the
     * next node's key is below key.  It stops at the last node of that level
     * below key, with next the node after it on that level.
     */
    method WalkLevel(key: Position, prev0: Node, ghost p0: int, level: int)
      returns (prev: Node, next: Node?, ghost p: int)
      requires Valid() && 0 <= level < MaxHeight
      requires -1 <= p0 < LowerBound(keys, key) && prev0 == Holder(p0)
      requires p0 >= 0 ==> heights[p0] > level
      ensures p == PrevAt(heights, LowerBound(keys, key), level) && prev == Holder(p)
      ensures next == NodeAt(nodes, NextAt(heights, p, level))
    {
      ghost var r: int := LowerBound(keys, key);
      prev, p := prev0, p0;
      next := prev.tower[level];
      while next != null && !StopsAt(key, next.key)
        invariant -1 <= p < r && prev == Holder(p)
        invariant p >= 0 ==> heights[p] > level
        invariant next == NodeAt(nodes, NextAt(heights, p, level))
        decreases |nodes| - p
      {
        prev := next;
        p := NextAt(heights, p, level);
        next := next.tower[level];
      }
      NextAtSkips(heights, p, level);
      PrevAtUnique(heights, r, level, p);
    }

    /** Find: the key itself when present, EOF with an error otherwise. */
    method Find(key: Position) returns (p: Position, err: Option<string>)
      requires Valid()
      ensures key in keys ==> p == key && err == None
      ensures key !in keys ==> p == EOFDocument && err == Some("key not found")
    {
      var found, _ := Search(key);
      if found == null {
        return EOFDocument, Some("key not found");
      }
      return found.key, None;
    }

    /**
     * FindLessThan: the greatest key below the query, or BOF with an error
     * when there is none.  The message depends on whether the search had any
     * level to walk (height 0 only after Shrink on an empty list).
     */
    method FindLessThan(key: Position) returns (p: Position, err: Option<string>)
      requires Valid()
      ensures p == Pred(keys, key)
      ensures err == None <==> exists i :: 0 <= i < |keys| && Lt(keys[i], key)
      ensures err != None ==> err == Some(if height == 0 then "key not found" else "no element found")
    {
      var _, journey := Search(key);
      ghost var r: int := LowerBound(keys, key);
      PredAt(keys, key, r);
      assert heights != [] ==> 1 <= heights[0] <= height;
      if journey[0] == null {
        return BOFDocument, Some("key not found");
      }
      PrevAtUnique(heights, r, 0, r - 1);
      if journey[0] == head {
        return BOFDocument, Some("no element found");
      }
      return journey[0].key, None;
    }

    /** FindGreaterThan: the least key above the query, or EOF with an error when there is none. */
    method FindGreaterThan(key: Position) returns (p: Position, err: Option<string>)
      requires Valid()
      ensures p == Succ(keys, key)
      ensures err == None <==> exists i :: 0 <= i < |keys| && Lt(key, keys[i])
      ensures err != None ==> err == Some("no element found")
    {
      var after, s := NodeAbove(key);
      AbovePartition(keys, key);
      SuccAt(keys, key, s);
      if after != null {
        assert Lt(key, keys[s]);
        return after.key, None;
      }
      assert forall i :: 0 <= i < |keys| ==> !Lt(key, keys[i]);
      return EOFDocument, Some("no element found");
    }

    /** The first node whose key is above key (nil when there is none), found by Search and one step on level 0. */
    method NodeAbove(key: Position) returns (after: Node?, ghost s: nat)
      requires Valid()
      ensures s == if key in keys then LowerBound(keys, key) + 1 else LowerBound(keys, key)
      ensures s <= |nodes| && after == NodeAt(nodes, s)
    {
      var found, journey := Search(key);
      ghost var r: int := LowerBound(keys, key);
      s := if found != null then r + 1 else r;
      if found != null {
        FollowZero(r);
        after := found.tower[0];
      } else {
        assert heights != [] ==> 1 <= heights[0] <= height;
        if height > 0 {
          PrevAtUnique(heights, r, 0, r - 1);
          FollowZero(r - 1);
        }
        after := if journey[0] != null then journey[0].tower[0] else null;
      }
    }

    /** Following level 0 from any node (or the head) reaches the node right after it. */
    lemma FollowZero(i: int)
      requires Valid() && -1 <= i < |nodes|
      ensures |Holder(i).tower| == MaxHeight && Holder(i).tower[0] == NodeAt(nodes, i + 1)
    {
      NextAtZero(heights, i);
    }

    /**
     * randomHeight: start at 1 and keep adding a level while a fair coin comes
     * up heads, up to MaxHeight.  The coin is a nondeterministic choice.
     */
    method RandomHeight() returns (h: int)
      ensures 1 <= h <= MaxHeight
    {
      h := 1;
      var heads: bool :| true;
      while heads && h < MaxHeight
        invariant 1 <= h <= MaxHeight
      {
        h := h + 1;
        heads :| true;
      }
    }

    /**
     * Insert: a present key is written back unchanged; an absent key gets a
     * node with a tower of random height, spliced behind the last node below
     * it at each level of its tower, and the list's height grows to cover it.
     */
    method Insert(key: Position)
      requires Valid()
      modifies Repr
      ensures Valid() && fresh(Repr - old(Repr))
      ensures key in old(keys) ==>
        keys == old(keys) && heights == old(heights) && height == old(height)
      ensures key !in old(keys) ==>
        var r := LowerBound(old(keys), key);
        && keys == InsertAt(old(keys), r, key)
        && heights == InsertAt(old(heights), r, heights[r])
        && 1 <= heights[r] <= MaxHeight
        && height == if heights[r] > old(height) then heights[r] else old(height)
    {
      var found, journey := Search(key);
      if found != null {
        found.key := key;
        return;
      }
      Splice(key, journey);
    }

    /**
     * The rest of Insert for an absent key: a node with a tower of random
     * height is linked in behind the nodes the search passed last.
     */
    method Splice(key: Position, journey: seq<Node?>)
      requires Valid() && key !in keys && |journey| == MaxHeight
      requires forall l :: 0 <= l < MaxHeight ==>
        journey[l] == if l < height then Holder(PrevAt(heights, LowerBound(keys, key), l)) else null
      modifies Repr
      ensures Valid() && fresh(Repr - old(Repr))
      ensures var r := LowerBound(old(keys), key);
        && keys == InsertAt(old(keys), r, key)
        && heights == InsertAt(old(heights), r, heights[r])
        && 1 <= heights[r] <= MaxHeight
        && height == if heights[r] > old(height) then heights[r] else old(height)
    {
      ghost var r: int := LowerBound(keys, key);
      var h := RandomHeight();
      var node := new Node(key);
      ghost var ts := Relink(node, key, journey, h);
      Commit(node, key, r, h, ts);
    }

    /**
     * The linking half of Splice: x, a fresh node for the absent key with a
     * tower of height h, is linked in behind the journey's nodes, and the
     * towers become ts, those of the list with x at its place.
     */
    method Relink(x: Node, key: Position, journey: seq<Node?>, h: int) returns (ghost ts: seq<seq<Node?>>)
      requires Valid() && key !in keys && |journey| == MaxHeight && 1 <= h <= MaxHeight
      requires forall l :: 0 <= l < MaxHeight ==>
        journey[l] == if l < height then Holder(PrevAt(heights, LowerBound(keys, key), l)) else null
      requires x !in Repr && x.key == key && x.tower == EmptyTower()
      modifies Repr - {this}, x
      ensures Spliceable(x, key, LowerBound(keys, key), h, ts)
    {
      ghost var ns, hs := nodes, heights;
      ghost var r: int := LowerBound(keys, key);
      ghost var ns', hs' := InsertAt(ns, r, x), InsertAt(hs, r, h);
      ghost var ps, olds, news := Preds(hs, r), Towers(ns, hs), SplicedTowers(ns, hs, x, r, h);
      SpliceFacts(ns, hs, x, r, h);
      forall l | 0 <= l < MaxHeight
        ensures journey[l] == Holder(ps[l]) || (journey[l] == null && ps[l] == -1)
      {
        if l >= height {
          PrevAtUnique(hs, r, l, -1);
        }
      }
      NodesDistinct();
      LinkIn(x, journey, h, ps, olds, news, TowerOf(ns', hs', r));
      ts := Towers(ns', hs');
      assert Holder(-1) == head;
      forall i | 0 <= i < |ns| ensures ns[i].tower == ts[Shift(i, r) + 1] {
        assert Holder(i) == ns[i];
      }
    }

    /** No node occurs twice: the keys they carry are strictly increasing. */
    lemma NodesDistinct()
      requires Valid()
      ensures Distinct(nodes)
    {
      forall i, j | 0 <= i < j < |nodes| ensures nodes[i] != nodes[j] {
        assert Lt(keys[i], keys[j]);
        LtTotal(keys[i], keys[j]);
      }
    }

    /** The head carries HeadKey and node i carries keys[i]. */
    ghost predicate KeysMatch()
      reads this, head, nodes
      requires |nodes| == |keys|
    {
      head.key == HeadKey && forall i :: 0 <= i < |nodes| ==> nodes[i].key == keys[i]
    }

    /**
     * The state between Relink and Commit: the list's fields still describe
     * it without x, x carries key and belongs at index r, and every tower
     * (the head's, x's and each node's) is already the one ts gives it.
     */
    ghost predicate Spliceable(x: Node, key: Position, r: int, h: int, ts: seq<seq<Node?>>)
      reads this, head, nodes, x
    {
      && this in Repr && head in Repr && x !in Repr && x != head
      && |nodes| == |keys| == |heights| && 0 <= r <= |nodes|
      && (forall i :: 0 <= i < |nodes| ==> nodes[i] in Repr && nodes[i] != head)
      && 0 <= height <= MaxHeight && 1 <= h <= MaxHeight
      && (forall i :: 0 <= i < |heights| ==> 1 <= heights[i] <= height)
      && StrictlySorted(keys) && key !in keys && r == LowerBound(keys, key)
      && KeysMatch() && x.key == key
      && ts == Towers(InsertAt(nodes, r, x), InsertAt(heights, r, h))
      && head.tower == ts[0] && x.tower == ts[r + 1]
      && (forall i :: 0 <= i < |nodes| ==> nodes[i].tower == ts[Shift(i, r) + 1])
    }

    /**
     * The end of Insert: the list's height grows to cover the new tower, and
     * the abstract view takes in node x, with key and a tower of height h,
     * at index r, once every tower has been relinked as news says.
     */
    method Commit(x: Node, key: Position, ghost r: int, h: int, ghost ts: seq<seq<Node?>>)
      requires Spliceable(x, key, r, h, ts)
      modifies this
      ensures Valid()
      ensures nodes == InsertAt(old(nodes), r, x) && keys == InsertAt(old(keys), r, key)
      ensures heights == InsertAt(old(heights), r, h) && Repr == old(Repr) + {x} && head == old(head)
      ensures height == if h > old(height) then h else old(height)
    {
      Reindex(nodes, keys, x, key, r, ts);
      InsertKeepsSorted(keys, key);
      height, nodes, heights, keys, Repr :=
        if h > height then h else height,
        InsertAt(nodes, r, x), InsertAt(heights, r, h), InsertAt(keys, r, key), Repr + {x};
    }

    /**
     * The linking loop of Insert: at each level below h, x takes over the
     * link of that level's predecessor (journey[level], the head when nil),
     * and the predecessor links to x.  ps names the predecessors, olds the
     * towers before and news, newx the towers the splice calls for.
     */
    method LinkIn(x: Node, journey: seq<Node?>, h: int, ghost ps: seq<int>,
                  ghost olds: seq<seq<Node?>>, ghost news: seq<seq<Node?>>, ghost newx: seq<Node?>)
      requires head in Repr && x !in Repr && Distinct(nodes) && |nodes| == |keys|
      requires forall i :: 0 <= i < |nodes| ==> nodes[i] in Repr && nodes[i] != head
      requires 1 <= h <= MaxHeight && |journey| == MaxHeight && |ps| == MaxHeight
      requires |olds| == |news| == |nodes| + 1 && |newx| == MaxHeight
      requires forall k :: 0 <= k < |olds| ==> |olds[k]| == MaxHeight && |news[k]| == MaxHeight
      requires forall i :: -1 <= i < |nodes| ==> Holder(i).tower == olds[i + 1]
      requires x.tower == EmptyTower()
      requires forall l :: 0 <= l < MaxHeight ==> -1 <= ps[l] < |nodes|
      requires forall l :: 0 <= l < MaxHeight ==>
        journey[l] == Holder(ps[l]) || (journey[l] == null && ps[l] == -1)
      requires forall k, l {:trigger news[k][l]} :: 0 <= k < |olds| && 0 <= l < MaxHeight ==>
        news[k][l] == if l < h && k == ps[l] + 1 then x else olds[k][l]
      requires forall l :: 0 <= l < MaxHeight ==> newx[l] == if l < h then olds[ps[l] + 1][l] else null
      requires KeysMatch()
      modifies Repr - {this}, x
      ensures KeysMatch() && x.key == old(x.key)
      ensures x.tower == newx
      ensures forall i :: -1 <= i < |nodes| ==> Holder(i).tower == news[i + 1]
    {
      var level := 0;
      while level < h
        invariant 0 <= level <= h
        invariant KeysMatch() && x.key == old(x.key)
        invariant x.tower == Mix(EmptyTower(), newx, level)
        invariant forall i :: -1 <= i < |nodes| ==> Holder(i).tower == Mix(olds[i + 1], news[i + 1], level)
      {
        var prev := journey[level];
        if prev == null {
          prev := head;
        }
        ghost var pp := ps[level];
        assert prev == Holder(pp);
        x.tower := x.tower[level := prev.tower[level]];
        prev.tower := prev.tower[level := x];
        level := level + 1;
      }
      MixDone(EmptyTower(), newx, h);
      forall i | -1 <= i < |nodes| ensures Holder(i).tower == news[i + 1] {
        MixDone(olds[i + 1], news[i + 1], h);
      }
    }

    /** Last: the key of the last level-0 node; for an empty list that is the head's key. */
    method Last() returns (p: Position)
      requires Valid()
      ensures keys == [] ==> p == HeadKey
      ensures keys != [] ==> p == keys[|keys| - 1]
      ensures keys != [] ==> p in keys && forall i :: 0 <= i < |keys| ==> Le(keys[i], p)
    {
      var prev := head;
      ghost var i := -1;
      NextAtZero(heights, -1);
      var next := prev.tower[0];
      while next != null
        invariant -1 <= i < |nodes| && prev == Holder(i)
        invariant next == NodeAt(nodes, i + 1)
        decreases |nodes| - i
      {
        prev := next;
        i := i + 1;
        NextAtZero(heights, i);
        next := next.tower[0];
      }
      p := prev.key;
    }

    /**
     * Shrink: walking down from the top level, lower the height once for
     * every level at which the head links to nothing.  The empty levels are
     * exactly the top ones, so the height ends up as the tallest tower.
     */
    method Shrink()
      requires Valid()
      modifies this
      ensures Valid()
      ensures nodes == old(nodes) && keys == old(keys) && heights == old(heights)
      ensures head == old(head) && Repr == old(Repr)
      ensures height == MaxOf(heights)
    {
      var level := height - 1;
      while level >= 0
        invariant -1 <= level < old(height)
        invariant height == if level + 1 > MaxOf(heights) then level + 1 else MaxOf(heights)
        invariant nodes == old(nodes) && keys == old(keys) && heights == old(heights)
        invariant head == old(head) && Repr == old(Repr)
      {
        var m := MaxOf(heights);
        if m <= level {
          NextAtUnique(heights, -1, level, |heights|);
        } else {
          var i :| 0 <= i < |heights| && heights[i] == m;
          NextAtSkips(heights, -1, level);
          assert NextAt(heights, -1, level) <= i;
        }
        if head.tower[level] == null {
          height := height - 1;
        }
        level := level - 1;
      }
    }

    /**
     * Every level's chain is a subsequence of the chain below it: following
     * level-l links from the head visits, in key order, exactly the nodes
     * whose towers reach level l, and each of them is on level l - 1 too.
     */
    lemma LevelsNest(l: nat)
      requires Valid() && 1 <= l < MaxHeight
      ensures forall x :: x in ChainFrom(heights, -1, l) ==> x in ChainFrom(heights, -1, l - 1)
      ensures forall x :: x in ChainFrom(heights, -1, l) <==> 0 <= x < |nodes| && heights[x] > l
    {
    }
  }
}
