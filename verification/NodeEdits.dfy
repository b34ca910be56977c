/** How one step of the B+ tree rewrites the nodes it touches, for leaves and for internal nodes. */
module NodeEdits {
  import opened Bytes
  import opened NodeCodec

  ghost predicate Sorted(s: seq<int>) { forall i, j :: 0 <= i < j < |s| ==> s[i] < s[j] }

  /** The two halves of an overfull node and the separator between them. */
  function SplitNode(child: Node, newPid: nat): (r: (Node, int, Node))
    requires |child.keys| > 0
    requires if child.isLeaf then |child.values| == |child.keys| else |child.children| == |child.keys| + 1
  {
    var mid := |child.keys| / 2;
    if child.isLeaf then
      (Leaf(child.pid, child.keys[..mid], child.values[..mid], newPid), child.keys[mid],
       Leaf(newPid, child.keys[mid..], child.values[mid..], child.next))
    else
      (Internal(child.pid, child.keys[..mid], child.children[..mid + 1]), child.keys[mid],
       Internal(newPid, child.keys[mid + 1..], child.children[mid + 1..]))
  }

  /** A node, and the sibling and separator it borrows from. */
  ghost predicate Siblings(left: Node, right: Node) {
    && left.isLeaf == right.isLeaf
    && (if left.isLeaf then |left.values| == |left.keys| else |left.children| == |left.keys| + 1)
    && (if right.isLeaf then |right.values| == |right.keys| else |right.children| == |right.keys| + 1)
  }

  /** Moves the last entry of `left` over to the front of `node`; gives both nodes and the new separator. */
  function BorrowFromLeft(left: Node, sep: int, node: Node): (r: (Node, int, Node))
    requires Siblings(left, node) && left.keys != []
  {
    if node.isLeaf then
      var node' := node.(keys := [Last(left.keys)] + node.keys, values := [Last(left.values)] + node.values);
      (left.(keys := Front(left.keys), values := Front(left.values)), node'.keys[0], node')
    else
      (left.(keys := Front(left.keys), children := Front(left.children)), Last(left.keys),
       node.(keys := [sep] + node.keys, children := [Last(left.children)] + node.children))
  }

  /** Moves the first entry of `right` over to the end of `node`. */
  function BorrowFromRight(node: Node, sep: int, right: Node): (r: (Node, int, Node))
    requires Siblings(node, right) && |right.keys| > 1
  {
    if node.isLeaf then
      (node.(keys := node.keys + [right.keys[0]], values := node.values + [right.values[0]]), right.keys[1],
       right.(keys := right.keys[1..], values := right.values[1..]))
    else
      (node.(keys := node.keys + [sep], children := node.children + [right.children[0]]), right.keys[0],
       right.(keys := right.keys[1..], children := right.children[1..]))
  }

  /** `node` is appended to its left sibling, which takes over its place in the leaf chain. */
  function JoinToLeft(left: Node, sep: int, node: Node): (r: Node)
    requires Siblings(left, node)
  {
    if node.isLeaf then
      left.(keys := left.keys + node.keys, values := left.values + node.values, next := node.next)
    else
      left.(keys := left.keys + [sep] + node.keys, children := left.children + node.children)
  }

  /** `node` is put in front of its right sibling. */
  function JoinToRight(node: Node, sep: int, right: Node): (r: Node)
    requires Siblings(node, right)
  {
    if node.isLeaf then
      right.(keys := node.keys + right.keys, values := node.values + right.values)
    else
      right.(keys := node.keys + [sep] + right.keys, children := node.children + right.children)
  }

  function InsertAt<T>(s: seq<T>, i: nat, x: T): (r: seq<T>)
    requires i <= |s|
    ensures |r| == |s| + 1
  {
    s[..i] + [x] + s[i..]
  }

  function RemoveAt<T>(s: seq<T>, i: nat): (r: seq<T>)
    requires i < |s|
    ensures |r| == |s| - 1
  {
    s[..i] + s[i + 1..]
  }

  /** Where a search for `key` goes on among the children: past every separator that is at most `key`. */
  ghost predicate IsChildIndex(seps: seq<int>, key: int, i: nat) {
    && i <= |seps|
    && (forall j :: 0 <= j < i ==> seps[j] <= key)
    && (i < |seps| ==> key < seps[i])
  }

  method ChildIndex(keys: seq<int>, key: int) returns (i: nat)
    ensures IsChildIndex(keys, key, i)
  {
    for j := 0 to |keys|
      invariant forall n :: 0 <= n < j ==> keys[n] <= key
    {
      if key < keys[j] {
        return j;
      }
    }
    return |keys|;
  }

  /** The place after every key that is at most `key`. */
  method BisectRight(keys: seq<int>, key: int) returns (lo: nat)
    requires Sorted(keys)
    ensures lo <= |keys|
    ensures forall j :: 0 <= j < lo ==> keys[j] <= key
    ensures forall j :: lo <= j < |keys| ==> key < keys[j]
  {
    lo := 0;
    var hi := |keys|;
    while lo < hi
      invariant lo <= hi <= |keys|
      invariant forall j :: 0 <= j < lo ==> keys[j] <= key
      invariant forall j :: hi <= j < |keys| ==> key < keys[j]
    {
      var mid := (lo + hi) / 2;
      if keys[mid] <= key {
        lo := mid + 1;
      } else {
        hi := mid;
      }
    }
  }

  /** The position of a key in a node, if it is there. */
  method FindKey(keys: seq<int>, key: int) returns (r: Option<nat>)
    ensures r.Some? ==> r.value < |keys| && keys[r.value] == key
    ensures r.None? ==> key !in keys
  {
    for i := 0 to |keys|
      invariant key !in keys[..i]
    {
      if keys[i] == key {
        return Some(i);
      }
    }
    return None;
  }
}
