/** What the database relies on of its radix trees (go-juuri): a tree is a finite map behind a handle, a transaction is
    the uncommitted state of one tree, and Freeze is what makes that state immutable. Until then every handle taken
    from the transaction may follow its later writes; here it always does. */
module Juuri {
  /** A tree as its readers hold it. Home tells the trees of one index from those of all others. */
  class Tree<K(==), V> {
    ghost const home: nat
    var contents: map<K, V>

    constructor (ghost home: nat, contents: map<K, V>)
      ensures this.home == home && this.contents == contents
    {
      this.home, this.contents := home, contents;
    }
  }

  /** `juuri.Txn`. Dirty: there were writes since the last Freeze, and the next one changes the tree in place. */
  class Txn<K(==), V> {
    ghost const home: nat
    var tree: Tree<K, V>
    var dirty: bool
    ghost var frozen: set<Tree<K, V>>

    ghost predicate Valid()
      reads this
    {
      tree.home == home && (forall t :: t in frozen ==> t.home == home) && (dirty <==> tree !in frozen)
    }

    /** `juuri.New().Txn`: an empty tree. */
    constructor (ghost home: nat)
      ensures Valid() && this.home == home && fresh(tree) && Contents() == map[] && !dirty && frozen == {tree}
    {
      var t := new Tree<K, V>(home, map[]);
      this.home, tree, dirty, frozen := home, t, false, {t};
    }

    function Contents(): map<K, V>
      reads this, tree
    {
      tree.contents
    }

    /** The tree that the next write may change. */
    ghost function Reach(): (r: set<object>)
      reads this
      ensures forall o: object :: o in r ==> o is Tree<K, V>
    {
      if dirty then {tree} else {}
    }

    method Insert(k: K, v: V)
      requires Valid()
      modifies this`tree, this`dirty, Reach()
      ensures Valid() && dirty && Contents() == old(Contents())[k := v]
      ensures forall x :: x in Reach() ==> x in old(Reach()) || fresh(x)
    {
      Write(tree.contents[k := v]);
    }

    method Delete(k: K)
      requires Valid()
      modifies this`tree, this`dirty, Reach()
      ensures Valid() && Contents() == old(Contents()) - {k}
      ensures forall x :: x in Reach() ==> x in old(Reach()) || fresh(x)
    {
      if k in tree.contents {
        Write(tree.contents - {k});
      }
    }

    /** In place, or in a new tree after a Freeze. */
    method Write(contents: map<K, V>)
      requires Valid()
      modifies this`tree, this`dirty, Reach()
      ensures Valid() && dirty && Contents() == contents
      ensures forall x :: x in Reach() ==> x in old(Reach()) || fresh(x)
    {
      if dirty {
        tree.contents := contents;
      } else {
        tree := new Tree<K, V>(home, contents);
        dirty := true;
      }
    }

    /** The tree as it is now becomes immutable: the transaction copies what it would have changed. */
    method Freeze()
      requires Valid()
      modifies this`dirty, this`frozen
      ensures Valid() && !dirty && tree in frozen && frozen == old(frozen) + {tree}
    {
      dirty, frozen := false, frozen + {tree};
    }

    /** A transaction on a tree that has been handed out. */
    method Load(t: Tree<K, V>)
      requires Valid() && t in frozen
      modifies this`tree, this`dirty
      ensures Valid() && tree == t && !dirty
    {
      tree, dirty := t, false;
    }
  }
}
