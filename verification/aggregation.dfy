/** `Algorithms`: grouping nodes into dictionaries of lists, by the fragment count of their first
    stream and by their size. */
module Aggregation {
  import opened Common
  import opened Bytes
  import opened Structures
  import opened Views

  // -------------------------------------------------------------------------------------------
  // Grouping
  // -------------------------------------------------------------------------------------------

  /** The dictionary the grouping loop builds over `nodes`, where `keys[i]` is the key of
      `nodes[i]`, or None for a node the loop skips: each kept node is appended to the list under
      its key, the list being created on the key's first node. */
  function Grouped<K(==)>(nodes: seq<NodeWrapper>, keys: seq<Option<K>>): map<K, seq<NodeWrapper>>
    requires |keys| == |nodes|
  {
    if |nodes| == 0 then map[]
    else
      var m := Grouped(nodes[..|nodes| - 1], keys[..|keys| - 1]);
      match keys[|keys| - 1]
      case None => m
      case Some(k) => m[k := (if k in m then m[k] else []) + [nodes[|nodes| - 1]]]
  }

  /** The nodes whose key is `k`, in their input order. */
  function Members<K(==)>(nodes: seq<NodeWrapper>, keys: seq<Option<K>>, k: K): (r: seq<NodeWrapper>)
    requires |keys| == |nodes|
    ensures forall n :: n in r ==> n in nodes
  {
    if |nodes| == 0 then []
    else (if keys[0] == Some(k) then [nodes[0]] else []) + Members(nodes[1..], keys[1..], k)
  }

  lemma {:induction false} MembersAppend<K>(nodes: seq<NodeWrapper>, keys: seq<Option<K>>, n: NodeWrapper,
                                            key: Option<K>, k: K)
    requires |keys| == |nodes|
    ensures Members(nodes + [n], keys + [key], k)
            == Members(nodes, keys, k) + (if key == Some(k) then [n] else [])
    decreases |nodes|
  {
    if |nodes| == 0 {
      var single: seq<NodeWrapper> := [n];
      assert nodes + [n] == single && keys + [key] == [key];
      assert single[1..] == [];
    } else {
      assert (nodes + [n])[1..] == nodes[1..] + [n];
      assert (keys + [key])[1..] == keys[1..] + [key];
      MembersAppend(nodes[1..], keys[1..], n, key, k);
    }
  }

  /** The dictionary holds exactly the keys that some node has, and under each key the nodes that
      have it, in input order; so no list is ever empty. */
  lemma {:induction false} GroupedIsMembers<K>(nodes: seq<NodeWrapper>, keys: seq<Option<K>>, k: K)
    requires |keys| == |nodes|
    ensures k in Grouped(nodes, keys) <==> Members(nodes, keys, k) != []
    ensures k in Grouped(nodes, keys) ==> Grouped(nodes, keys)[k] == Members(nodes, keys, k)
    decreases |nodes|
  {
    if |nodes| > 0 {
      var front, frontKeys := nodes[..|nodes| - 1], keys[..|keys| - 1];
      GroupedIsMembers(front, frontKeys, k);
      assert nodes == front + [nodes[|nodes| - 1]] && keys == frontKeys + [keys[|keys| - 1]];
      MembersAppend(front, frontKeys, nodes[|nodes| - 1], keys[|keys| - 1], k);
    }
  }

  /** A node with key `k` is in the list under `k`. */
  lemma {:induction false} KeyedNodeIsMember<K>(nodes: seq<NodeWrapper>, keys: seq<Option<K>>, i: nat)
    requires |keys| == |nodes| && i < |nodes| && keys[i].Some?
    ensures nodes[i] in Members(nodes, keys, keys[i].value)
    decreases i
  {
    if i > 0 {
      KeyedNodeIsMember(nodes[1..], keys[1..], i - 1);
    }
  }

  /** The number of times `n` occurs in `nodes` with key `k`. */
  function Occurrences<K(==)>(nodes: seq<NodeWrapper>, keys: seq<Option<K>>, n: NodeWrapper, k: K): nat
    requires |keys| == |nodes|
  {
    if |nodes| == 0 then 0
    else (if nodes[0] == n && keys[0] == Some(k) then 1 else 0) + Occurrences(nodes[1..], keys[1..], n, k)
  }

  /** The list under `k` holds each node as often as the node occurs with key `k`, so a node
      listed once in the input appears once, under its own key, and in no other list. */
  lemma {:induction false} MembersCount<K>(nodes: seq<NodeWrapper>, keys: seq<Option<K>>, n: NodeWrapper, k: K)
    requires |keys| == |nodes|
    ensures multiset(Members(nodes, keys, k))[n] == Occurrences(nodes, keys, n, k)
    decreases |nodes|
  {
    if |nodes| > 0 {
      MembersCount(nodes[1..], keys[1..], n, k);
    }
  }

  // -------------------------------------------------------------------------------------------
  // AggregateByFragments
  // -------------------------------------------------------------------------------------------

  /** The key `AggregateByFragments` gives a node: skipped when it has no stream list or an empty
      one, or when its first stream has no fragment list; otherwise the first stream's fragment
      count, as a `uint`, if it reaches the minimum. The accessors' refusals propagate. */
  function FragmentKey(n: NodeWrapper, minimumFragments: u32): Result<Option<u32>> {
    match n.StreamsOf()
    case Err(e) => Err(e)
    case Ok(streams) =>
      if streams.None? || |streams.value| == 0 then Ok(None)
      else
        match streams.value[0].Fragments()
        case Err(e) => Err(e)
        case Ok(None) => Ok(None)
        case Ok(Some(fragments)) =>
          var fragmentCount := Wrap32(|fragments|);
          if fragmentCount < minimumFragments then Ok(None) else Ok(Some(fragmentCount))
  }

  /** The keys of all nodes, or the refusal of the first node whose accessors refuse. */
  function FragmentKeys(nodes: seq<NodeWrapper>, minimumFragments: u32): (r: Result<seq<Option<u32>>>)
    ensures r.Ok? ==> |r.value| == |nodes|
  {
    if |nodes| == 0 then Ok([])
    else
      match FragmentKeys(nodes[..|nodes| - 1], minimumFragments)
      case Err(e) => Err(e)
      case Ok(keys) =>
        match FragmentKey(nodes[|nodes| - 1], minimumFragments)
        case Err(e) => Err(e)
        case Ok(key) => Ok(keys + [key])
  }

  /** `AggregateByFragments`: the loop over the nodes that appends each counted node to the list
      under its fragment count. */
  method AggregateByFragments(nodes: seq<NodeWrapper>, minimumFragments: u32)
    returns (r: Result<map<u32, seq<NodeWrapper>>>)
    ensures r.Err? <==> FragmentKeys(nodes, minimumFragments).Err?
    ensures r.Err? ==> r.error == FragmentKeys(nodes, minimumFragments).error
    ensures r.Ok? ==> r.value == Grouped(nodes, FragmentKeys(nodes, minimumFragments).value)
  {
    hide FragmentKeys, Grouped;
    var fragmentsAggregate: map<u32, seq<NodeWrapper>> := map[];
    ghost var keys: seq<Option<u32>> := [];
    NoKeysYet(nodes, minimumFragments, keys);
    for i := 0 to |nodes|
      invariant FragmentKeys(nodes[..i], minimumFragments) == Ok(keys)
      invariant fragmentsAggregate == Grouped(nodes[..i], keys)
    {
      var node := nodes[i];
      assert nodes[..i + 1] == nodes[..i] + [node];
      FragmentKeysSnoc(nodes[..i], node, minimumFragments);
      var streams := node.Streams();
      if streams.Err? {
        FragmentKeysFailureSticks(nodes, minimumFragments, i + 1);
        return Err(streams.error);
      }
      var key: Option<u32> := None;
      if streams.value.Some? && |streams.value.value| > 0 {
        var fragments := streams.value.value[0].Fragments();
        if fragments.Err? {
          FragmentKeysFailureSticks(nodes, minimumFragments, i + 1);
          return Err(fragments.error);
        }
        if fragments.value.Some? {
          var fragmentCount := Wrap32(|fragments.value.value|);
          if fragmentCount >= minimumFragments {
            key := Some(fragmentCount);
          }
        }
      }
      GroupedSnoc(nodes[..i], keys, node, key);
      if key.Some? {
        var nodeList := if key.value in fragmentsAggregate then fragmentsAggregate[key.value] else [];
        fragmentsAggregate := fragmentsAggregate[key.value := nodeList + [node]];
      }
      keys := keys + [key];
    }
    assert nodes[..|nodes|] == nodes;
    r := Ok(fragmentsAggregate);
  }

  lemma NoKeysYet(nodes: seq<NodeWrapper>, minimumFragments: u32, keys: seq<Option<u32>>)
    requires keys == []
    ensures FragmentKeys(nodes[..0], minimumFragments) == Ok(keys)
    ensures Grouped(nodes[..0], keys) == map[]
  {
  }

  /** One more node: its key after the keys of the nodes before it, or the first refusal. */
  lemma FragmentKeysSnoc(nodes: seq<NodeWrapper>, n: NodeWrapper, minimumFragments: u32)
    ensures FragmentKeys(nodes, minimumFragments).Err? ==>
              FragmentKeys(nodes + [n], minimumFragments) == FragmentKeys(nodes, minimumFragments)
    ensures FragmentKeys(nodes, minimumFragments).Ok? && FragmentKey(n, minimumFragments).Err? ==>
              FragmentKeys(nodes + [n], minimumFragments) == Err(FragmentKey(n, minimumFragments).error)
    ensures FragmentKeys(nodes, minimumFragments).Ok? && FragmentKey(n, minimumFragments).Ok? ==>
              FragmentKeys(nodes + [n], minimumFragments)
              == Ok(FragmentKeys(nodes, minimumFragments).value + [FragmentKey(n, minimumFragments).value])
  {
    assert (nodes + [n])[..|nodes|] == nodes;
  }

  /** One more node: appended to the list under its key, if it has one. */
  lemma GroupedSnoc<K>(nodes: seq<NodeWrapper>, keys: seq<Option<K>>, n: NodeWrapper, key: Option<K>)
    requires |keys| == |nodes|
    ensures key.None? ==> Grouped(nodes + [n], keys + [key]) == Grouped(nodes, keys)
    ensures key.Some? ==>
              var m := Grouped(nodes, keys);
              Grouped(nodes + [n], keys + [key]) == m[key.value := (if key.value in m then m[key.value] else []) + [n]]
  {
    assert (nodes + [n])[..|nodes|] == nodes && (keys + [key])[..|keys|] == keys;
  }

  /** Once a node's accessors refuse, the whole aggregation fails the same way. */
  lemma {:induction false} FragmentKeysFailureSticks(nodes: seq<NodeWrapper>, minimumFragments: u32, k: nat)
    requires k <= |nodes| && FragmentKeys(nodes[..k], minimumFragments).Err?
    ensures FragmentKeys(nodes, minimumFragments).Err?
    ensures FragmentKeys(nodes, minimumFragments).error == FragmentKeys(nodes[..k], minimumFragments).error
    decreases |nodes| - k
  {
    if k < |nodes| {
      assert nodes[..k + 1][..k] == nodes[..k];
      FragmentKeysFailureSticks(nodes, minimumFragments, k + 1);
    } else {
      assert nodes[..k] == nodes;
    }
  }

  /** A node is in the fragment aggregation exactly when its key is a fragment count, and then
      in the list under that count, after every earlier node with the same count. */
  lemma FragmentsAggregateMembers(nodes: seq<NodeWrapper>, minimumFragments: u32, count: u32)
    requires FragmentKeys(nodes, minimumFragments).Ok?
    ensures var keys := FragmentKeys(nodes, minimumFragments).value;
            var m := Grouped(nodes, keys);
            && (count in m <==> exists i :: 0 <= i < |nodes| && keys[i] == Some(count))
            && (count in m ==> m[count] == Members(nodes, keys, count) && count >= minimumFragments)
  {
    var keys := FragmentKeys(nodes, minimumFragments).value;
    GroupedIsMembers(nodes, keys, count);
    if exists i :: 0 <= i < |nodes| && keys[i] == Some(count) {
      var i :| 0 <= i < |nodes| && keys[i] == Some(count);
      KeyedNodeIsMember(nodes, keys, i);
    }
    if Members(nodes, keys, count) != [] {
      MemberHasKey(nodes, keys, count);
      FragmentKeyBound(nodes, minimumFragments, count);
    }
  }

  /** A non-empty list under `k` comes from a node whose key is `k`. */
  lemma {:induction false} MemberHasKey<K>(nodes: seq<NodeWrapper>, keys: seq<Option<K>>, k: K)
    requires |keys| == |nodes| && Members(nodes, keys, k) != []
    ensures exists i :: 0 <= i < |nodes| && keys[i] == Some(k)
    decreases |nodes|
  {
    if keys[0] != Some(k) {
      MemberHasKey(nodes[1..], keys[1..], k);
      var i :| 0 <= i < |nodes| - 1 && keys[1..][i] == Some(k);
      assert keys[i + 1] == Some(k);
    }
  }

  /** Every key of the fragment aggregation reaches the minimum. */
  lemma {:induction false} FragmentKeyBound(nodes: seq<NodeWrapper>, minimumFragments: u32, count: u32)
    requires FragmentKeys(nodes, minimumFragments).Ok?
    requires exists i :: 0 <= i < |nodes| && FragmentKeys(nodes, minimumFragments).value[i] == Some(count)
    ensures count >= minimumFragments
    decreases |nodes|
  {
    var keys := FragmentKeys(nodes, minimumFragments).value;
    var i :| 0 <= i < |nodes| && keys[i] == Some(count);
    var front := FragmentKeys(nodes[..|nodes| - 1], minimumFragments).value;
    assert keys == front + [FragmentKey(nodes[|nodes| - 1], minimumFragments).value];
    if i < |nodes| - 1 {
      assert front[i] == Some(count);
      FragmentKeyBound(nodes[..|nodes| - 1], minimumFragments, count);
    }
  }

  /** Only the first stream counts, and a first stream without fragments is skipped even with a
      minimum of 0, because `Fragments` returns null rather than an empty list. */
  lemma FirstStreamWithoutFragmentsIsSkipped(n: NodeWrapper, minimumFragments: u32)
    requires n.StreamsOf().Ok? && n.StreamsOf().value.Some? && |n.StreamsOf().value.value| > 0
    requires HasFlag(n.vol.retrieveMode, Structures.Fragments)
    requires n.StreamsOf().value.value[0].Entry().Ok? && n.StreamsOf().value.value[0].Entry().value.fragments == []
    ensures FragmentKey(n, minimumFragments) == Ok(None)
  {
  }

  // -------------------------------------------------------------------------------------------
  // AggregateBySize
  // -------------------------------------------------------------------------------------------

  /** `(attributes & Attributes.Directory) != 0`: bit 4 of the flags, the bit of `Directory`. */
  predicate IsDirectory(attributes: nat) {
    Bit(attributes, 4)
  }

  /** The key `AggregateBySize` gives a node: skipped for a directory or a size below the
      minimum, otherwise its size. */
  function SizeKey(n: NodeWrapper, minimumSize: u64): Option<u64> {
    if IsDirectory(n.Attributes()) || n.Size() < minimumSize then None else Some(n.Size())
  }

  function SizeKeys(nodes: seq<NodeWrapper>, minimumSize: u64): (r: seq<Option<u64>>)
    ensures |r| == |nodes|
    ensures forall i :: 0 <= i < |nodes| ==> r[i] == SizeKey(nodes[i], minimumSize)
  {
    seq(|nodes|, i requires 0 <= i < |nodes| => SizeKey(nodes[i], minimumSize))
  }

  /** `AggregateBySize`: the loop over the nodes that appends each kept node to the list under
      its size. */
  method AggregateBySize(nodes: seq<NodeWrapper>, minimumSize: u64) returns (r: map<u64, seq<NodeWrapper>>)
    ensures r == Grouped(nodes, SizeKeys(nodes, minimumSize))
  {
    r := map[];
    for i := 0 to |nodes|
      invariant r == Grouped(nodes[..i], SizeKeys(nodes, minimumSize)[..i])
    {
      var node := nodes[i];
      ghost var keys := SizeKeys(nodes, minimumSize);
      assert nodes[..i + 1][..i] == nodes[..i] && keys[..i + 1][..i] == keys[..i];
      if IsDirectory(node.Attributes()) || node.Size() < minimumSize {
        continue;
      }
      var nodeList := if node.Size() in r then r[node.Size()] else [];
      r := r[node.Size() := nodeList + [node]];
    }
    assert nodes[..|nodes|] == nodes;
    assert SizeKeys(nodes, minimumSize)[..|nodes|] == SizeKeys(nodes, minimumSize);
  }

  /** A node is in the size aggregation exactly when it is not a directory and its size reaches
      the minimum, and then in the list under its size, in input order. */
  lemma SizeAggregateMembers(nodes: seq<NodeWrapper>, minimumSize: u64, size: u64)
    ensures var keys := SizeKeys(nodes, minimumSize);
            var m := Grouped(nodes, keys);
            && (size in m <==> exists i :: 0 <= i < |nodes| && !IsDirectory(nodes[i].Attributes())
                                          && minimumSize <= nodes[i].Size() == size)
            && (size in m ==> m[size] == Members(nodes, keys, size))
  {
    var keys := SizeKeys(nodes, minimumSize);
    GroupedIsMembers(nodes, keys, size);
    if exists i :: 0 <= i < |nodes| && !IsDirectory(nodes[i].Attributes()) && minimumSize <= nodes[i].Size() == size {
      var i :| 0 <= i < |nodes| && !IsDirectory(nodes[i].Attributes()) && minimumSize <= nodes[i].Size() == size;
      KeyedNodeIsMember(nodes, keys, i);
    }
    if Members(nodes, keys, size) != [] {
      MemberHasKey(nodes, keys, size);
    }
  }

  /** Bit `k` of `a`, counting from the least significant. */
  predicate Bit(a: nat, k: nat) {
    if k == 0 then a % 2 == 1 else Bit(a / 2, k - 1)
  }

  lemma {:induction false} NoBitOfZero(k: nat)
    ensures !Bit(0, k)
  {
    if k > 0 {
      NoBitOfZero(k - 1);
    }
  }

  /** Or-ing never clears a bit. */
  lemma {:induction false} BitOrKeepsBit(a: nat, b: nat, k: nat)
    requires Bit(a, k)
    ensures Bit(BitOr(a, b), k)
    decreases k
  {
    if b == 0 {
      return;
    }
    if a == 0 {
      NoBitOfZero(k);
      assert false;
    }
    var low := if a % 2 == 1 || b % 2 == 1 then 1 else 0;
    assert BitOr(a, b) == 2 * BitOr(a / 2, b / 2) + low;
    if k > 0 {
      BitOrKeepsBit(a / 2, b / 2, k - 1);
      assert BitOr(a, b) / 2 == BitOr(a / 2, b / 2);
    }
  }

  /** A record whose header marks it a directory gets the Directory flag, and or-ing in its
      standard-information flags keeps it; such a node is never in the size aggregation. */
  lemma DirectoriesNotSized(n: NodeWrapper, minimumSize: u64)
    requires Covers(Directory, n.Attributes())
    ensures IsDirectory(n.Attributes())
    ensures SizeKey(n, minimumSize) == None
  {
    assert Bit(Directory, 4);
    BitOrKeepsBit(Directory, n.Attributes(), 4);
  }
}
