/** The reusable list of keys: all bytes in one buffer, and where each key ends. */
module KeyLists {
  import opened TableSchema

  function Joined(keys: seq<Bytes>): Bytes
  {
    if keys == [] then [] else Joined(keys[..|keys| - 1]) + keys[|keys| - 1]
  }

  function Size(keys: seq<Bytes>): nat
  {
    if keys == [] then 0 else Size(keys[..|keys| - 1]) + |keys[|keys| - 1]|
  }

  lemma {:induction false} JoinedSize(keys: seq<Bytes>)
    ensures |Joined(keys)| == Size(keys)
  {
    if keys != [] {
      JoinedSize(keys[..|keys| - 1]);
    }
  }

  lemma {:induction false} SizeAppend(a: seq<Bytes>, b: seq<Bytes>)
    ensures Size(a + b) == Size(a) + Size(b)
  {
    if b == [] {
      assert a + b == a;
    } else {
      SizeAppend(a, b[..|b| - 1]);
      assert (a + b)[..|a + b| - 1] == a + b[..|b| - 1];
    }
  }

  /** A part of the buffer, by the sizes before it. */
  lemma {:induction false} JoinedPart(keys: seq<Bytes>, i: nat)
    requires i < |keys|
    ensures Size(keys[..i]) <= Size(keys[..i + 1]) <= |Joined(keys)|
    ensures Joined(keys)[Size(keys[..i])..Size(keys[..i + 1])] == keys[i]
  {
    var rest := keys[..|keys| - 1];
    JoinedSize(rest);
    assert keys[..i + 1][..i] == keys[..i];
    if i == |keys| - 1 {
      assert keys[..i + 1] == keys && keys[..i] == rest;
    } else {
      JoinedPart(rest, i);
      assert rest[..i] == keys[..i] && rest[..i + 1] == keys[..i + 1];
    }
  }

  class KeyList {
    var buf: Bytes
    var ends: seq<nat>
    ghost var keys: seq<Bytes>

    ghost predicate Valid()
      reads this
    {
      && buf == Joined(keys) && |ends| == |keys|
      && forall i :: 0 <= i < |ends| ==> ends[i] == Size(keys[..i + 1])
    }

    constructor ()
      ensures Valid() && keys == []
    {
      buf, ends, keys := [], [], [];
    }

    function Len(): nat
      reads this
    {
      |ends|
    }

    /** Key number i, cut out of the buffer. */
    method Key(i: nat) returns (key: Bytes)
      requires Valid() && i < |keys|
      ensures key == keys[i]
    {
      var start := 0;
      if i > 0 {
        start := ends[i - 1];
      }
      JoinedPart(keys, i);
      key := buf[start..ends[i]];
    }

    /** Appends the bytes of a key piece by piece and closes it. */
    method Add(first: Bytes, second: Bytes, suffix: Bytes)
      requires Valid()
      modifies this
      ensures Valid() && keys == old(keys) + [first + second + suffix]
    {
      ghost var was, key := keys, first + second + suffix;
      buf := buf + first + second + suffix;
      keys := keys + [key];
      assert keys[..|was|] == was;
      JoinedSize(keys);
      assert buf == Joined(was) + key;
      assert keys[..|keys|] == keys;
      ends := ends + [|buf|];
      forall i | 0 <= i < |was|
        ensures ends[i] == Size(keys[..i + 1])
      {
        assert keys[..i + 1] == was[..i + 1];
      }
    }
  }
}
