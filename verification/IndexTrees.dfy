/** The index trees of a table under a write transaction: one tree transaction per index, the id index first. */
module IndexTrees {
  import opened TableSchema
  import opened OrdinaryIndex
  import opened TableModel
  import J = Juuri

  class Trees {
    const idx: seq<J.Txn<Bytes, Row>>
    /** What the trees hold, and their current handles. */
    ghost var primary: Tree
    ghost var ordinary: seq<Tree>
    ghost var handles: set<J.Tree<Bytes, Row>>

    ghost predicate Valid()
      reads this, idx, handles
    {
      && |idx| == |ordinary| + 1
      && (forall i :: 0 <= i < |idx| ==> idx[i].home == i && idx[i].Valid() && idx[i].tree in handles)
      && (forall i :: 0 <= i < |idx| ==> idx[i].Contents() == TreeOf(primary, ordinary, i - 1))
    }

    constructor (n: nat)
      ensures Valid() && primary == map[] && ordinary == seq(n, i => map[]) && fresh(Reach())
      ensures forall i :: 0 <= i < |idx| ==> fresh(idx[i].tree) && idx[i].tree in idx[i].frozen
    {
      var all: seq<J.Txn<Bytes, Row>> := [];
      ghost var trees := {};
      while |all| < n + 1
        invariant |all| <= n + 1 && fresh(all)
        invariant forall i :: 0 <= i < |all| ==>
          all[i].home == i && all[i].Valid() && !all[i].dirty && fresh(all[i].tree) && all[i].tree in trees
          && all[i].Contents() == map[]
      {
        var t := new J.Txn<Bytes, Row>(|all|);
        all := all + [t];
        trees := trees + {t.tree};
      }
      idx, primary, ordinary, handles := all, map[], seq(n, i => map[]), trees;
    }

    /** What a write may change: the objects, and the trees that have not been frozen. */
    ghost function Reach(): (r: set<object>)
      reads this, idx
      ensures this in r && forall t :: t in idx ==> t in r
      ensures forall o: object :: o in r ==> o is Trees || o is J.Txn<Bytes, Row> || o is J.Tree<Bytes, Row>
    {
      var own: set<object> := set t | t in idx;
      own + {this} + set i | 0 <= i < |idx| && idx[i].dirty :: idx[i].tree
    }

    /** All trees that have been handed out. */
    ghost function Kept(): set<J.Tree<Bytes, Row>>
      reads this, idx
    {
      set i, t | 0 <= i < |idx| && t in idx[i].frozen :: t
    }

    lemma Stored(target: int)
      requires Valid() && -1 <= target < |ordinary|
      ensures target + 1 < |idx| && idx[target + 1].tree.contents == TreeOf(primary, ordinary, target)
    {
    }

    /** No tree that has been handed out is in reach. */
    lemma KeptApart()
      requires Valid()
      ensures Kept() !! Reach()
    {
    }

    ghost predicate Same(target: int, m: Tree, primary': Tree, ordinary': seq<Tree>)
      requires -1 <= target < |ordinary'|
      reads this
    {
      if target < 0 then primary == m && ordinary == ordinary'
      else primary == primary' && ordinary == ordinary'[target := m]
    }

    /** The new contents of one index are recorded. */
    ghost method Record(target: int)
      requires -1 <= target < |ordinary| && |idx| == |ordinary| + 1
      requires forall i :: 0 <= i < |idx| ==> idx[i].home == i && idx[i].Valid()
      requires forall i :: 0 <= i < |idx| && i != target + 1 ==> idx[i].tree in handles
      requires forall i :: 0 <= i < |idx| && i != target + 1 ==> idx[i].Contents() == TreeOf(primary, ordinary, i - 1)
      modifies this
      ensures Valid() && Same(target, idx[target + 1].Contents(), old(primary), old(ordinary))
    {
      handles := handles + {idx[target + 1].tree};
      if target < 0 {
        primary := idx[0].Contents();
      } else {
        ordinary := ordinary[target := idx[target + 1].Contents()];
      }
    }

    method Insert(target: int, k: Bytes, row: Row)
      requires Valid() && -1 <= target < |ordinary|
      modifies Reach()
      ensures Valid()
      ensures Same(target, TreeOf(old(primary), old(ordinary), target)[k := row], old(primary), old(ordinary))
      ensures forall x :: x in Reach() ==> x in old(Reach()) || fresh(x)
      ensures Kept() == old(Kept())
    {
      idx[target + 1].Insert(k, row);
      assert idx[target + 1].dirty ==> idx[target + 1].tree in idx[target + 1].Reach();
      Record(target);
    }

    method Delete(target: int, k: Bytes)
      requires Valid() && -1 <= target < |ordinary|
      modifies Reach()
      ensures Valid() && Same(target, TreeOf(old(primary), old(ordinary), target) - {k}, old(primary), old(ordinary))
      ensures forall x :: x in Reach() ==> x in old(Reach()) || fresh(x)
      ensures Kept() == old(Kept())
    {
      idx[target + 1].Delete(k);
      assert idx[target + 1].dirty ==> idx[target + 1].tree in idx[target + 1].Reach();
      Record(target);
    }

    /** Whether a prefix cut off an index took anything away. */
    method CutPrefix(target: int, prefix: Bytes) returns (cut: bool)
      requires Valid() && -1 <= target < |ordinary|
      modifies Reach()
      ensures Valid()
      ensures Same(target, Cut(TreeOf(old(primary), old(ordinary), target), prefix), old(primary), old(ordinary))
      ensures cut <==>
        Cut(TreeOf(old(primary), old(ordinary), target), prefix) != TreeOf(old(primary), old(ordinary), target)
      ensures forall x :: x in Reach() ==> x in old(Reach()) || fresh(x)
      ensures Kept() == old(Kept())
    {
      var was := idx[target + 1].Contents();
      cut := Cut(was, prefix) != was;
      if cut {
        idx[target + 1].Write(Cut(was, prefix));
        assert idx[target + 1].tree in idx[target + 1].Reach();
      }
      Record(target);
    }

    /** One ordinary index is brought in line with a write. */
    method Rewrite(i: nat, okOld: bool, olds: seq<Bytes>, news: seq<Bytes>, row: Row)
      requires Valid() && i < |ordinary|
      modifies Reach()
      ensures Valid() && primary == old(primary)
      ensures ordinary == old(ordinary)[i := Replaced(old(ordinary)[i], if okOld then olds else [], news, row)]
      ensures forall x :: x in Reach() ==> x in old(Reach()) || fresh(x)
      ensures Kept() == old(Kept())
    {
      hide Replaced;
      Replace(idx[i + 1], okOld, olds, news, row);
      assert idx[i + 1].dirty ==> idx[i + 1].tree in idx[i + 1].Reach();
      Record(i);
    }

    /** The keys of a row leave one ordinary index. */
    method Unindex(i: nat, olds: seq<Bytes>)
      requires Valid() && i < |ordinary|
      modifies Reach()
      ensures Valid() && primary == old(primary)
      ensures ordinary == old(ordinary)[i := old(ordinary)[i] - (set x | x in olds)]
      ensures forall x :: x in Reach() ==> x in old(Reach()) || fresh(x)
      ensures Kept() == old(Kept())
    {
      Remove(idx[i + 1], olds);
      assert idx[i + 1].dirty ==> idx[i + 1].tree in idx[i + 1].Reach();
      Record(i);
    }

    /** `readableIndex`: the tree of an index as the transaction sees it. One that escapes the call, to an iterator or
        a snapshot, must not follow later writes. */
    method Readable(target: int, escapes: bool) returns (t: J.Tree<Bytes, Row>)
      requires Valid() && -1 <= target < |ordinary|
      modifies idx
      ensures forall i :: 0 <= i < |idx| ==> idx[i].tree == old(idx[i].tree)
      ensures forall i :: 0 <= i < |idx| && idx[i].dirty ==> old(idx[i].dirty)
      ensures Valid() && t == idx[target + 1].tree && t.home == target + 1
      ensures t.contents == TreeOf(primary, ordinary, target)
      ensures escapes ==> t in Kept() && !idx[target + 1].dirty
      ensures forall x :: x in Reach() ==> x in old(Reach())
      ensures old(Kept()) <= Kept()
    {
      if escapes {
        idx[target + 1].Freeze();
      }
      t := idx[target + 1].tree;
    }

    /** All trees, frozen. */
    method Freeze() returns (ts: seq<J.Tree<Bytes, Row>>)
      requires Valid()
      modifies idx
      ensures Valid() && old(Kept()) <= Kept()
      ensures forall x :: x in Reach() ==> x in old(Reach())
      ensures |ts| == |idx|
      ensures forall i :: 0 <= i < |ts| ==>
        ts[i] in Kept() && ts[i].home == i && ts[i].contents == TreeOf(primary, ordinary, i - 1)
    {
      hide Trees.Kept;
      ts := [];
      while |ts| < |idx|
        invariant |ts| <= |idx| && Valid()
        invariant old(Kept()) <= Kept()
        invariant forall i :: 0 <= i < |ts| ==>
          ts[i] in Kept() && ts[i].home == i && !idx[i].dirty && ts[i] == idx[i].tree
      {
        var t := Readable(|ts| - 1, true);
        ts := ts + [t];
      }
    }

    /** Starts from trees that have been handed out. */
    method Load(ts: seq<J.Tree<Bytes, Row>>)
      requires Valid() && |ts| == |idx| && forall i :: 0 <= i < |ts| ==> ts[i] in Kept() && ts[i].home == i
      modifies this, idx
      ensures Valid() && Kept() == old(Kept())
      ensures forall i :: 0 <= i < |ts| ==> ts[i].contents == TreeOf(primary, ordinary, i - 1)
      ensures forall x :: x in Reach() ==> x in old(Reach())
    {
      hide J.Txn.Valid;
      LoadAll(ts);
      Adopt();
    }

    /** The trees are as they are found. */
    ghost method Adopt()
      requires |idx| > 0 && forall i :: 0 <= i < |idx| ==> idx[i].home == i && idx[i].Valid()
      modifies this
      ensures Valid()
    {
      hide J.Txn.Valid;
      primary := idx[0].Contents();
      ordinary := [];
      var n := 1;
      while n < |idx|
        invariant 1 <= n == |ordinary| + 1 <= |idx|
        invariant forall i :: 0 <= i < n ==> idx[i].Contents() == TreeOf(primary, ordinary, i - 1)
      {
        ordinary := ordinary + [idx[n].Contents()];
        n := n + 1;
      }
      handles := set i | 0 <= i < |idx| :: idx[i].tree;
    }

    method LoadAll(ts: seq<J.Tree<Bytes, Row>>)
      requires Valid() && |ts| == |idx| && forall i :: 0 <= i < |ts| ==> ts[i] in Kept() && ts[i].home == i
      modifies idx
      ensures forall i :: 0 <= i < |idx| ==> idx[i].Valid() && idx[i].tree == ts[i] && !idx[i].dirty
      ensures Kept() == old(Kept())
    {
      var n := 0;
      while n < |ts|
        invariant n <= |ts|
        invariant forall i :: 0 <= i < |idx| ==> idx[i].Valid() && idx[i].frozen == old(idx[i].frozen)
        invariant forall i :: 0 <= i < n ==> idx[i].tree == ts[i] && !idx[i].dirty
      {
        idx[n].Load(ts[n]);
        n := n + 1;
      }
    }
  }
}
