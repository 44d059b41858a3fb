/** The path resolver of `GetNodeFullNameCore`: the walk up the parent chain to the root
    directory, and the path assembled from the names of the nodes that walk collected. */
module Paths {
  import opened Common
  import opened Structures
  import opened Names

  /** The `\` that separates path components, as a UTF-16 code unit. */
  const Backslash: u16 := 0x5C

  /** `TrimEnd('\\')`: the string without its trailing backslashes. */
  function TrimEnd(s: Utf16): (r: Utf16)
    ensures r <= s
    ensures |r| == 0 || r[|r| - 1] != Backslash
    ensures forall k :: |r| <= k < |s| ==> s[k] == Backslash
  {
    if |s| > 0 && s[|s| - 1] == Backslash then TrimEnd(s[..|s| - 1]) else s
  }

  /** The elements of `s` from the last to the first: the order in which a stack pushed with
      `s` pops them. */
  function Reversed(s: seq<u32>): (r: seq<u32>)
    ensures |r| == |s|
    ensures forall i :: 0 <= i < |s| ==> r[i] == s[|s| - 1 - i]
  {
    if |s| == 0 then [] else Reversed(s[1..]) + [s[0]]
  }

  // -------------------------------------------------------------------------------------------
  // The walk up the parent chain
  // -------------------------------------------------------------------------------------------

  /** The nodes the walk pushes after its starting `node`, in the order it pushes them: the
      parent of `node`, that node's parent, and so on, up to but not including the root
      directory. `last` is the node visited before `node`, and a parent equal to it is reported as
      a loop. A node outside the table fails as the array access would. The source's walk has no
      bound; `fuel` is the number of steps the model allows it. */
  function Ancestors(nodes: seq<Node>, node: u32, last: u32, fuel: nat): (r: Result<seq<u32>>)
    ensures r.Ok? ==> node as int < |nodes|
    ensures r.Ok? ==> forall k :: 0 <= k < |r.value| ==> r.value[k] as int < |nodes|
    decreases fuel
  {
    if fuel == 0 then Err(OutOfFuel)
    else if node as int >= |nodes| then Err(IndexOutOfRange)
    else
      var parent := nodes[node].parentNodeIndex;
      if parent == ROOTDIRECTORY then Ok([])
      else if parent == last then Err(CyclicHierarchy)
      else
        match Ancestors(nodes, parent, node, fuel - 1)
        case Ok(rest) => Ok([parent] + rest)
        case Err(e) => Err(e)
  }

  /** `c` is a chain the walk accepts, entered from `last`: every node is in the table, each
      node's parent is the next one, the last node's parent is the root directory, no node after
      the first is the root directory, and no parent is the node visited just before. */
  ghost predicate Walk(nodes: seq<Node>, c: seq<u32>, last: u32) {
    && |c| >= 1
    && (forall i :: 0 <= i < |c| ==> c[i] as int < |nodes|)
    && (forall i :: 0 <= i < |c| - 1 ==> nodes[c[i]].parentNodeIndex == c[i + 1])
    && nodes[c[|c| - 1]].parentNodeIndex == ROOTDIRECTORY
    && (forall i :: 1 <= i < |c| ==> c[i] != ROOTDIRECTORY)
    && (|c| >= 2 ==> c[1] != last)
    && (forall i :: 0 <= i < |c| - 2 ==> c[i + 2] != c[i])
  }

  /** A chain the walk accepts, without its first node, is a chain accepted from that node. */
  lemma WalkTail(nodes: seq<Node>, c: seq<u32>, last: u32)
    requires Walk(nodes, c, last) && |c| >= 2
    ensures Walk(nodes, c[1..], c[0])
  {
    var t := c[1..];
    forall i | 0 <= i < |t| - 2
      ensures t[i + 2] != t[i]
    {
      assert t[i + 2] == c[i + 3] && t[i] == c[i + 1];
    }
    if |t| >= 2 {
      assert t[1] == c[2];
    }
  }

  /** A chain accepted from `node` extends by `node` in front, when `node` is in the table, its
      parent is the chain's first node and that parent is neither the root directory nor `last`. */
  lemma WalkCons(nodes: seq<Node>, node: u32, t: seq<u32>, last: u32)
    requires Walk(nodes, t, node) && node as int < |nodes|
    requires nodes[node].parentNodeIndex == t[0] && t[0] != ROOTDIRECTORY && t[0] != last
    ensures Walk(nodes, [node] + t, last)
  {
    var c := [node] + t;
    forall i | 0 <= i < |c| - 1
      ensures nodes[c[i]].parentNodeIndex == c[i + 1]
    {
      if i > 0 {
        assert c[i] == t[i - 1] && c[i + 1] == t[i];
      }
    }
    forall i | 0 <= i < |c| - 2
      ensures c[i + 2] != c[i]
    {
      if i > 0 {
        assert c[i + 2] == t[i + 1] && c[i] == t[i - 1];
      } else {
        assert c[2] == t[1];
      }
    }
  }

  /** What the walk collects is a chain `Walk` accepts, found within the fuel. */
  lemma {:induction false} AncestorsSound(nodes: seq<Node>, node: u32, last: u32, fuel: nat)
    requires Ancestors(nodes, node, last, fuel).Ok?
    ensures Walk(nodes, [node] + Ancestors(nodes, node, last, fuel).value, last)
    ensures |Ancestors(nodes, node, last, fuel).value| < fuel
    decreases fuel
  {
    var parent := nodes[node].parentNodeIndex;
    if parent != ROOTDIRECTORY {
      var rest := Ancestors(nodes, parent, node, fuel - 1).value;
      AncestorsSound(nodes, parent, node, fuel - 1);
      WalkCons(nodes, node, [parent] + rest, last);
      assert [node] + ([parent] + rest) == [node] + Ancestors(nodes, node, last, fuel).value;
    }
  }

  /** Every chain `Walk` accepts is what the walk collects, given one step of fuel per node. */
  lemma {:induction false} AncestorsComplete(nodes: seq<Node>, c: seq<u32>, last: u32, fuel: nat)
    requires Walk(nodes, c, last) && |c| <= fuel
    ensures Ancestors(nodes, c[0], last, fuel) == Ok(c[1..])
    decreases fuel
  {
    if |c| >= 2 {
      WalkTail(nodes, c, last);
      AncestorsComplete(nodes, c[1..], c[0], fuel - 1);
      assert [c[1]] + c[1..][1..] == c[1..];
    }
  }

  /** The walk succeeds exactly on the chains `Walk` describes, with one step of fuel per node:
      starting from `node`, it collects `k` ancestors if and only if the parent chain reaches a
      node whose parent is the root directory after `k` steps without a one- or two-node loop. */
  lemma AncestorsIff(nodes: seq<Node>, node: u32, last: u32, fuel: nat, ancestors: seq<u32>)
    ensures Ancestors(nodes, node, last, fuel) == Ok(ancestors)
            <==> Walk(nodes, [node] + ancestors, last) && |ancestors| < fuel
  {
    if Ancestors(nodes, node, last, fuel) == Ok(ancestors) {
      AncestorsSound(nodes, node, last, fuel);
    }
    if Walk(nodes, [node] + ancestors, last) && |ancestors| < fuel {
      AncestorsComplete(nodes, [node] + ancestors, last, fuel);
      assert ([node] + ancestors)[1..] == ancestors;
    }
  }

  /** A node whose parent is itself is a loop, unless it is the child of the root directory. */
  lemma SelfParentIsLoop(nodes: seq<Node>, node: u32, fuel: nat)
    requires node as int < |nodes| && 1 <= fuel
    requires nodes[node].parentNodeIndex == node && node != ROOTDIRECTORY
    ensures Ancestors(nodes, node, node, fuel) == Err(CyclicHierarchy)
  {
  }

  /** Two nodes that are each other's parent are a loop, wherever the walk enters them. */
  lemma TwoNodeCycleIsLoop(nodes: seq<Node>, a: u32, b: u32, last: u32, fuel: nat)
    requires a as int < |nodes| && b as int < |nodes| && 2 <= fuel
    requires nodes[a].parentNodeIndex == b && nodes[b].parentNodeIndex == a
    requires a != b && a != ROOTDIRECTORY && b != ROOTDIRECTORY && b != last
    ensures Ancestors(nodes, a, last, fuel) == Err(CyclicHierarchy)
  {
  }

  /** A loop through three distinct nodes is never detected: the walk exhausts any fuel it is
      given, where the source's loop runs forever. */
  lemma {:induction false} ThreeNodeCycleRunsOut(nodes: seq<Node>, a: u32, b: u32, c: u32, last: u32, fuel: nat)
    requires a as int < |nodes| && b as int < |nodes| && c as int < |nodes|
    requires nodes[a].parentNodeIndex == b && nodes[b].parentNodeIndex == c && nodes[c].parentNodeIndex == a
    requires a != b && b != c && c != a
    requires a != ROOTDIRECTORY && b != ROOTDIRECTORY && c != ROOTDIRECTORY
    requires last != b
    ensures Ancestors(nodes, a, last, fuel) == Err(OutOfFuel)
    decreases fuel
  {
    if fuel > 0 {
      ThreeNodeCycleRunsOut(nodes, b, c, a, a, fuel - 1);
    }
  }

  /** More fuel changes nothing once the walk has an outcome other than running out. */
  lemma {:induction false} FuelMonotone(nodes: seq<Node>, node: u32, last: u32, fuel: nat, more: nat)
    requires fuel <= more && Ancestors(nodes, node, last, fuel) != Err(OutOfFuel)
    ensures Ancestors(nodes, node, last, more) == Ancestors(nodes, node, last, fuel)
    decreases fuel
  {
    if node as int < |nodes| {
      var parent := nodes[node].parentNodeIndex;
      if parent != ROOTDIRECTORY && parent != last {
        FuelMonotone(nodes, parent, node, fuel - 1, more - 1);
      }
    }
  }

  /** A chain the walk accepts never visits a node twice: a repeated node would make the chain
      repeat itself from there on, and then the node whose parent is the root directory would
      also have a parent further up the chain. */
  lemma WalkIsDistinct(nodes: seq<Node>, c: seq<u32>, last: u32, i: nat, j: nat)
    requires Walk(nodes, c, last) && i < j < |c|
    ensures c[i] != c[j]
  {
    if c[i] == c[j] {
      var n := |c| - 1 - j;
      WalkRepeats(nodes, c, last, i, j, n);
      assert false;
    }
  }

  lemma {:induction false} WalkRepeats(nodes: seq<Node>, c: seq<u32>, last: u32, i: nat, j: nat, d: nat)
    requires Walk(nodes, c, last) && i < j && j + d < |c| && c[i] == c[j]
    ensures c[i + d] == c[j + d]
    ensures nodes[c[i + d]].parentNodeIndex == c[i + d + 1]
  {
    if d > 0 {
      WalkRepeats(nodes, c, last, i, j, d - 1);
      assert nodes[c[i + d - 1]].parentNodeIndex == c[i + d];
      assert nodes[c[j + d - 1]].parentNodeIndex == c[j + d];
    }
  }

  /** A sequence of distinct values below `n` has at most `n` elements. */
  lemma {:induction false} DistinctBelow(c: seq<u32>, n: nat)
    requires forall i, j :: 0 <= i < j < |c| ==> c[i] != c[j]
    requires forall i :: 0 <= i < |c| ==> c[i] as int < n
    ensures |c| <= n
    decreases n
  {
    if |c| == 0 {
      return;
    }
    assert c[0] as int < n;
    var top := n - 1;
    if k :| 0 <= k < |c| && c[k] as int == top {
      var d := c[..k] + c[k + 1..];
      assert forall i :: 0 <= i < |d| ==> d[i] == (if i < k then c[i] else c[i + 1]);
      forall i | 0 <= i < |d|
        ensures d[i] as int < top
      {
        if i < k {
          assert d[i] == c[i] && i != k;
        } else {
          assert d[i] == c[i + 1] && i + 1 != k;
        }
      }
      DistinctBelow(d, top);
    } else {
      DistinctBelow(c, top);
    }
  }

  /** The fuel the reader gives the walk: one step more than there are nodes. */
  function WalkBound(nodes: seq<Node>): nat {
    |nodes| + 1
  }

  /** That bound never turns a walk the source would finish at the root into a failure: a walk
      that reaches the root with any fuel reaches it with `WalkBound`. */
  lemma WalkBoundSuffices(nodes: seq<Node>, node: u32, last: u32, fuel: nat)
    requires Ancestors(nodes, node, last, fuel).Ok?
    ensures Ancestors(nodes, node, last, WalkBound(nodes)) == Ancestors(nodes, node, last, fuel)
  {
    var ancestors := Ancestors(nodes, node, last, fuel).value;
    var c := [node] + ancestors;
    AncestorsIff(nodes, node, last, fuel, ancestors);
    forall i, j | 0 <= i < j < |c|
      ensures c[i] != c[j]
    {
      WalkIsDistinct(nodes, c, last, i, j);
    }
    DistinctBelow(c, |nodes|);
    AncestorsIff(nodes, node, last, WalkBound(nodes), ancestors);
  }

  // -------------------------------------------------------------------------------------------
  // The path
  // -------------------------------------------------------------------------------------------

  /** The path components, root first: the stack holds the starting node and then its
      ancestors, and pops them in the opposite order. */
  function Path(nodes: seq<Node>, node: u32, fuel: nat): (r: Result<seq<u32>>)
    ensures r.Ok? ==> |r.value| >= 1 && forall k :: 0 <= k < |r.value| ==> r.value[k] as int < |nodes|
  {
    match Ancestors(nodes, node, node, fuel)
    case Ok(ancestors) => Ok(Reversed([node] + ancestors))
    case Err(e) => Err(e)
  }

  /** The components of a path that resolves are root first and end with the starting node: the
      first component's parent is the root directory, each later component is a child of the one
      before it, and the root directory itself is never a component before the last. */
  lemma PathOrder(nodes: seq<Node>, node: u32, fuel: nat)
    requires Path(nodes, node, fuel).Ok?
    ensures var p := Path(nodes, node, fuel).value;
            && p[|p| - 1] == node
            && nodes[p[0]].parentNodeIndex == ROOTDIRECTORY
            && (forall i :: 1 <= i < |p| ==> nodes[p[i]].parentNodeIndex == p[i - 1])
            && (forall i :: 0 <= i < |p| - 1 ==> p[i] != ROOTDIRECTORY)
  {
    hide Ancestors, Reversed, Path;
    PathOfAncestors(nodes, node, fuel);
    var ancestors := Ancestors(nodes, node, node, fuel).value;
    AncestorsIff(nodes, node, node, fuel, ancestors);
    var c := [node] + ancestors;
    var p := Path(nodes, node, fuel).value;
    forall i | 1 <= i < |p|
      ensures nodes[p[i]].parentNodeIndex == p[i - 1]
    {
      assert p[i] == c[|c| - 1 - i] && p[i - 1] == c[|c| - 1 - i + 1];
    }
    forall i | 0 <= i < |p| - 1
      ensures p[i] != ROOTDIRECTORY
    {
      assert p[i] == c[|c| - 1 - i];
    }
  }

  /** A path that resolves is the reversed chain of ancestors, starting node first. */
  lemma PathOfAncestors(nodes: seq<Node>, node: u32, fuel: nat)
    requires Path(nodes, node, fuel).Ok?
    ensures Ancestors(nodes, node, node, fuel).Ok?
    ensures Path(nodes, node, fuel).value == Reversed([node] + Ancestors(nodes, node, node, fuel).value)
  {
  }

  /** The path has one component per step of the parent chain plus the starting node: `k`
      steps up to a child of the root directory give `k + 1` components. */
  lemma PathLength(nodes: seq<Node>, c: seq<u32>, fuel: nat)
    requires |c| >= 1 && Walk(nodes, c, c[0]) && |c| <= fuel
    ensures Path(nodes, c[0], fuel) == Ok(Reversed(c))
    ensures |Path(nodes, c[0], fuel).value| == |c|
  {
    assert c == [c[0]] + c[1..];
    AncestorsIff(nodes, c[0], c[0], fuel, c[1..]);
  }

  /** The text one component adds after its separator: the node's name, or nothing for a node
      without one (`Append(null)` appends nothing). */
  function Component(nodes: seq<Node>, names: seq<Utf16>, node: u32): (r: Result<Utf16>)
    requires node as int < |nodes|
    ensures r.Ok? <==> NameFromIndex(names, nodes[node].nameIndex).Ok?
  {
    match NameFromIndex(names, nodes[node].nameIndex)
    case Ok(None) => Ok([])
    case Ok(Some(name)) => Ok(name)
    case Err(e) => Err(e)
  }

  /** A node with name index 0 adds the separator and nothing else. */
  lemma UnnamedComponentIsEmpty(nodes: seq<Node>, names: seq<Utf16>, node: u32)
    requires node as int < |nodes| && nodes[node].nameIndex == 0
    ensures Component(nodes, names, node) == Ok([])
  {
  }

  /** A named node adds its own name. */
  lemma NamedComponent(nodes: seq<Node>, names: seq<Utf16>, node: u32)
    requires node as int < |nodes| && 0 < nodes[node].nameIndex < |names|
    ensures Component(nodes, names, node) == Ok(names[nodes[node].nameIndex])
  {
  }

  /** `\` followed by the component's text, for each component in order; the first component
      whose name cannot be looked up decides the error. */
  function Joined(nodes: seq<Node>, names: seq<Utf16>, path: seq<u32>): Result<Utf16>
    requires forall k :: 0 <= k < |path| ==> path[k] as int < |nodes|
  {
    if |path| == 0 then Ok([])
    else
      match Joined(nodes, names, path[..|path| - 1])
      case Err(e) => Err(e)
      case Ok(front) =>
        match Component(nodes, names, path[|path| - 1])
        case Err(e) => Err(e)
        case Ok(text) => Ok(front + [Backslash] + text)
  }

  lemma JoinedEmpty(nodes: seq<Node>, names: seq<Utf16>, path: seq<u32>)
    requires forall i :: 0 <= i < |path| ==> path[i] as int < |nodes|
    ensures Joined(nodes, names, path[..0]) == Ok([])
  {
    assert path[..0] == [];
  }

  /** One more component extends the joined text by a separator and that component's text. */
  lemma JoinedStep(nodes: seq<Node>, names: seq<Utf16>, path: seq<u32>, k: nat)
    requires forall i :: 0 <= i < |path| ==> path[i] as int < |nodes|
    requires k < |path| && Joined(nodes, names, path[..k]).Ok?
    ensures Component(nodes, names, path[k]).Err? ==>
              Joined(nodes, names, path[..k + 1]) == Err(Component(nodes, names, path[k]).error)
    ensures Component(nodes, names, path[k]).Ok? ==>
              Joined(nodes, names, path[..k + 1])
              == Ok(Joined(nodes, names, path[..k]).value + [Backslash] + Component(nodes, names, path[k]).value)
  {
    assert path[..k + 1][..k] == path[..k];
  }

  /** Once a prefix of the path fails, the whole path fails the same way. */
  lemma {:induction false} JoinedFailureSticks(nodes: seq<Node>, names: seq<Utf16>, path: seq<u32>, k: nat)
    requires forall i :: 0 <= i < |path| ==> path[i] as int < |nodes|
    requires k <= |path| && Joined(nodes, names, path[..k]).Err?
    ensures Joined(nodes, names, path) == Joined(nodes, names, path[..k])
    decreases |path| - k
  {
    if k < |path| {
      var longer := path[..k + 1];
      assert longer[..k] == path[..k];
      JoinedFailureSticks(nodes, names, path, k + 1);
    } else {
      assert path[..k] == path;
    }
  }

  /** `GetNodeFullNameCore`: the drive name without its trailing backslashes, then the joined
      components of the node's path. */
  function FullName(vol: Volume, node: u32, fuel: nat): Result<Utf16> {
    match Path(vol.nodes, node, fuel)
    case Err(e) => Err(e)
    case Ok(path) => Assemble(vol, path)
  }

  /** The trimmed drive name followed by the joined components of `path`. */
  function Assemble(vol: Volume, path: seq<u32>): Result<Utf16>
    requires forall k :: 0 <= k < |path| ==> path[k] as int < |vol.nodes|
  {
    match Joined(vol.nodes, vol.names, path)
    case Err(e) => Err(e)
    case Ok(text) => Ok(TrimEnd(vol.driveName) + text)
  }

  /** A resolved full name starts with the trimmed drive name and ends with a separator and the
      node's own name. */
  lemma FullNameShape(vol: Volume, node: u32, fuel: nat)
    requires FullName(vol, node, fuel).Ok?
    ensures node as int < |vol.nodes| && Component(vol.nodes, vol.names, node).Ok?
    ensures var s := FullName(vol, node, fuel).value;
            var drive := TrimEnd(vol.driveName);
            var own := [Backslash] + Component(vol.nodes, vol.names, node).value;
            && |drive| + |own| <= |s|
            && s[..|drive|] == drive
            && s[|s| - |own|..] == own
  {
    PathOrder(vol.nodes, node, fuel);
    var path := Path(vol.nodes, node, fuel).value;
    var front := Joined(vol.nodes, vol.names, path[..|path| - 1]).value;
    var own := [Backslash] + Component(vol.nodes, vol.names, node).value;
    var s := FullName(vol, node, fuel).value;
    var drive := TrimEnd(vol.driveName);
    assert s == drive + front + own;
    assert s[|s| - |own|..] == own;
  }

  // The chain of nodes 20 -> 10 -> 5, on a drive named `C:\`.
  const ExampleDrive: Utf16 := [0x43, 0x3A, Backslash]
  const ExampleNames: seq<Utf16> := [[0x61], [0x62], [0x63]]
  const ExampleNodes: seq<Node> :=
    seq(21, i => if i == 20 then Node(0, 10, 0, 2) else if i == 10 then Node(0, 5, 0, 1) else EmptyNode)

  /** Node 20, whose parent 10 is a child of the root directory, resolves to `C:\b\c`: the
      drive's backslash is trimmed, the root's own name never appears, and the starting node
      comes last. */
  lemma ExampleChain()
    ensures FullName(Volume(ExampleNodes, ExampleNames, None, None, Minimal, ExampleDrive), 20, 3)
            == Ok([0x43, 0x3A, Backslash, 0x62, Backslash, 0x63])
  {
    ExamplePath();
    ExampleText();
    assert TrimEnd(ExampleDrive) == [0x43, 0x3A];
    assert [0x43, 0x3A] + [Backslash, 0x62, Backslash, 0x63] == [0x43, 0x3A, Backslash, 0x62, Backslash, 0x63];
  }

  lemma ExamplePath()
    ensures Path(ExampleNodes, 20, 3) == Ok([10, 20])
  {
    assert |ExampleNodes| == 21;
    assert ExampleNodes[20] == Node(0, 10, 0, 2) && ExampleNodes[10] == Node(0, 5, 0, 1);
    assert Ancestors(ExampleNodes, 10, 20, 2) == Ok([]);
    assert [10] + [] == [10];
    assert Ancestors(ExampleNodes, 20, 20, 3) == Ok([10]);
    assert Reversed([20, 10]) == [10, 20];
  }

  lemma ExampleText()
    ensures Joined(ExampleNodes, ExampleNames, [10, 20]) == Ok([Backslash, 0x62, Backslash, 0x63])
  {
    assert |ExampleNodes| == 21;
    assert ExampleNodes[20] == Node(0, 10, 0, 2) && ExampleNodes[10] == Node(0, 5, 0, 1);
    var p: seq<u32> := [10, 20];
    var p1 := p[..1];
    assert p1 == [10] && p1[..0] == [];
    assert Component(ExampleNodes, ExampleNames, 10) == Ok([0x62]);
    assert Component(ExampleNodes, ExampleNames, 20) == Ok([0x63]);
    assert Joined(ExampleNodes, ExampleNames, p1[..0]) == Ok([]);
    var b: Utf16 := [Backslash, 0x62];
    assert [] + [Backslash] + [0x62] == b;
    assert Joined(ExampleNodes, ExampleNames, p1) == Ok(b);
    assert b + [Backslash] + [0x63] == [Backslash, 0x62, Backslash, 0x63];
  }

  /** `Ancestors` with the pushed prefix in front of its value; an error passes through. */
  function Prepend(pushed: seq<u32>, r: Result<seq<u32>>): Result<seq<u32>> {
    match r
    case Ok(rest) => Ok(pushed + rest)
    case Err(e) => Err(e)
  }

  /** `GetNodeFullNameCore` as the source writes it: a loop that walks up the parent chain
      pushing each parent onto a stack, then a loop that pops the stack and appends a separator
      and a name for each node. */
  method GetNodeFullNameCore(vol: Volume, nodeIndex: u32, fuel: nat) returns (r: Result<Utf16>)
    ensures r == FullName(vol, nodeIndex, fuel)
  {
    var stack := PushAncestors(vol.nodes, nodeIndex, fuel);
    if stack.Err? {
      return Err(stack.error);
    }
    assert Path(vol.nodes, nodeIndex, fuel) == Ok(Reversed(stack.value));
    r := PopComponents(vol, stack.value);
  }

  /** The first loop: the stack of the starting node and its ancestors, top last. */
  method PushAncestors(nodes: seq<Node>, nodeIndex: u32, fuel: nat) returns (r: Result<seq<u32>>)
    ensures r == Prepend([nodeIndex], Ancestors(nodes, nodeIndex, nodeIndex, fuel))
  {
    var node := nodeIndex;
    var lastNode := node;
    var stack: seq<u32> := [node];
    var left := fuel;
    while true
      invariant |stack| >= 1 && stack[0] == nodeIndex
      invariant Prepend([nodeIndex], Ancestors(nodes, nodeIndex, nodeIndex, fuel))
                == Prepend(stack, Ancestors(nodes, node, lastNode, left))
      decreases left
    {
      if left == 0 {
        return Err(OutOfFuel);
      }
      if node as int >= |nodes| {
        return Err(IndexOutOfRange);
      }
      var parent := nodes[node].parentNodeIndex;
      if parent == ROOTDIRECTORY {
        break;
      }
      if parent == lastNode {
        return Err(CyclicHierarchy);
      }
      match Ancestors(nodes, parent, node, left - 1) {
        case Ok(rest) => assert stack + ([parent] + rest) == (stack + [parent]) + rest;
        case Err(_) =>
      }
      stack := stack + [parent];
      lastNode := node;
      node := parent;
      left := left - 1;
    }
    assert stack + [] == stack;
    r := Ok(stack);
  }

  /** The second loop: pop the stack, appending a separator and the popped node's name. */
  method PopComponents(vol: Volume, stack: seq<u32>) returns (r: Result<Utf16>)
    requires forall k :: 0 <= k < |stack| ==> stack[k] as int < |vol.nodes|
    ensures r == Assemble(vol, Reversed(stack))
  {
    hide Joined, Component, TrimEnd, Reversed;
    ghost var path := Reversed(stack);
    JoinedEmpty(vol.nodes, vol.names, path);
    var rest := stack;
    var fullPath := TrimEnd(vol.driveName);
    ghost var text: Utf16 := [];
    ghost var popped := 0;
    while |rest| > 0
      invariant popped + |rest| == |path|
      invariant rest == stack[..|stack| - popped]
      invariant Joined(vol.nodes, vol.names, path[..popped]) == Ok(text)
      invariant fullPath == TrimEnd(vol.driveName) + text
    {
      var node := rest[|rest| - 1];
      rest := rest[..|rest| - 1];
      assert node == path[popped];
      JoinedStep(vol.nodes, vol.names, path, popped);
      var name := Component(vol.nodes, vol.names, node);
      if name.Err? {
        JoinedFailureSticks(vol.nodes, vol.names, path, popped + 1);
        return Err(name.error);
      }
      fullPath := fullPath + [Backslash] + name.value;
      text := text + [Backslash] + name.value;
      popped := popped + 1;
    }
    assert path[..popped] == path;
    r := Ok(fullPath);
  }
}
