/**
  * The node edits, for nodes at any height: what one edit needs of the subtrees below and gives to the node
  * above. `below` gives the entries of a child's subtree in order, and `kid` says which children are search
  * trees within which bounds.
  */
module AnyHeight {
  import opened Bytes
  import opened NodeCodec
  import opened NodeEdits

  type Entries = seq<(int, nat)>
  type Below = nat -> Entries

  type Kid = (nat, Option<int>, Option<int>) -> bool

  /** The entries under a list of children, from left to right. */
  ghost function Under(children: seq<nat>, below: Below): Entries {
    if children == [] then [] else below(children[0]) + Under(children[1..], below)
  }

  /** The entries of the subtree at node `n`, in order. */
  ghost function InOrder(n: Node, below: Below): Entries {
    if n.isLeaf then Pairs(n.keys, n.values) else Under(n.children, below)
  }

  ghost function Pairs(keys: seq<int>, values: seq<nat>): (r: Entries)
    ensures |r| == Min(|keys|, |values|) && forall i :: 0 <= i < |r| ==> r[i] == (keys[i], values[i])
  {
    seq(Min(|keys|, |values|), i requires 0 <= i < |keys| && i < |values| => (keys[i], values[i]))
  }

  ghost predicate After(lo: Option<int>, k: int) { lo.Some? ==> lo.value <= k }

  ghost predicate StrictlyAfter(lo: Option<int>, k: int) { lo.Some? ==> lo.value < k }

  ghost predicate Before(k: int, hi: Option<int>) { hi.Some? ==> k < hi.value }

  ghost predicate AllWithin(es: Entries, lo: Option<int>, hi: Option<int>) {
    forall i :: 0 <= i < |es| ==> After(lo, es[i].0) && Before(es[i].0, hi)
  }

  ghost predicate Increasing(es: Entries) { forall i, j :: 0 <= i < j < |es| ==> es[i].0 < es[j].0 }

  /** The bounds that the separators put on child `i`. */
  function LowBound(keys: seq<int>, i: nat, lo: Option<int>): Option<int>
    requires i <= |keys|
  {
    if i == 0 then lo else Some(keys[i - 1])
  }

  function HighBound(keys: seq<int>, i: nat, hi: Option<int>): Option<int>
    requires i <= |keys|
  {
    if i == |keys| then hi else Some(keys[i])
  }

  ghost predicate Separators(keys: seq<int>, lo: Option<int>, hi: Option<int>) {
    Sorted(keys) && forall i :: 0 <= i < |keys| ==> StrictlyAfter(lo, keys[i]) && Before(keys[i], hi)
  }

  /** Children and the separators between them: each child is a search tree within its two separators. */
  ghost predicate SearchKids(keys: seq<int>, children: seq<nat>, kid: Kid, lo: Option<int>, hi: Option<int>) {
    && |children| == |keys| + 1 && Separators(keys, lo, hi)
    && forall i :: 0 <= i < |children| ==> KidAt(keys, children, kid, lo, hi, i)
  }

  /** Child `i` is a search tree within the separators around it. */
  ghost predicate KidAt(keys: seq<int>, children: seq<nat>, kid: Kid, lo: Option<int>, hi: Option<int>, i: nat)
    requires i < |children| == |keys| + 1
  {
    kid(children[i], LowBound(keys, i, lo), HighBound(keys, i, hi))
  }

  /** `n` is the top of a search tree with all keys from `lo` on and below `hi`. */
  ghost predicate SearchNode(n: Node, kid: Kid, lo: Option<int>, hi: Option<int>) {
    if n.isLeaf then
      && |n.values| == |n.keys| && Sorted(n.keys)
      && forall i :: 0 <= i < |n.keys| ==> After(lo, n.keys[i]) && Before(n.keys[i], hi)
    else SearchKids(n.keys, n.children, kid, lo, hi)
  }

  lemma {:induction false} UnderConcat(a: seq<nat>, b: seq<nat>, below: Below)
    ensures Under(a + b, below) == Under(a, below) + Under(b, below)
  {
    if a == [] {
      assert a + b == b;
    } else {
      assert (a + b)[1..] == a[1..] + b;
      UnderConcat(a[1..], b, below);
    }
  }

  lemma {:induction false} UnderSame(children: seq<nat>, below: Below, below': Below)
    requires forall i :: 0 <= i < |children| ==> below(children[i]) == below'(children[i])
    ensures Under(children, below) == Under(children, below')
  {
    if children != [] {
      UnderSame(children[1..], below, below');
    }
  }

  lemma UnderOne(c: nat, below: Below)
    ensures Under([c], below) == below(c)
  {
    assert [c][1..] == [];
    assert below(c) + [] == below(c);
  }

  /** Children in the middle of others lie between the separators around them. */
  lemma KidsSlice(keys: seq<int>, children: seq<nat>, kid: Kid, lo: Option<int>, hi: Option<int>, a: nat, b: nat)
    requires SearchKids(keys, children, kid, lo, hi) && a <= b <= |keys|
    ensures SearchKids(keys[a..b], children[a..b + 1], kid, LowBound(keys, a, lo), HighBound(keys, b, hi))
  {
    var ks, cs := keys[a..b], children[a..b + 1];
    forall i | 0 <= i < |cs|
      ensures KidAt(ks, cs, kid, LowBound(keys, a, lo), HighBound(keys, b, hi), i)
    {
      assert KidAt(keys, children, kid, lo, hi, a + i);
      assert LowBound(ks, i, LowBound(keys, a, lo)) == LowBound(keys, a + i, lo);
      assert HighBound(ks, i, HighBound(keys, b, hi)) == HighBound(keys, a + i, hi);
    }
  }

  /** Two runs of children on either side of a separator make one. */
  lemma KidsConcat(k1: seq<int>, c1: seq<nat>, s: int, k2: seq<int>, c2: seq<nat>, kid: Kid, lo: Option<int>,
                   hi: Option<int>)
    requires SearchKids(k1, c1, kid, lo, Some(s)) && SearchKids(k2, c2, kid, Some(s), hi)
    requires StrictlyAfter(lo, s) && Before(s, hi)
    ensures SearchKids(k1 + [s] + k2, c1 + c2, kid, lo, hi)
  {
    var ks, cs := k1 + [s] + k2, c1 + c2;
    SeparatorsConcat(k1, s, k2, lo, hi);
    forall i | 0 <= i < |cs|
      ensures KidAt(ks, cs, kid, lo, hi, i)
    {
      if i < |c1| {
        assert KidAt(k1, c1, kid, lo, Some(s), i);
        assert LowBound(ks, i, lo) == LowBound(k1, i, lo) && HighBound(ks, i, hi) == HighBound(k1, i, Some(s));
      } else {
        var j := i - |c1|;
        assert KidAt(k2, c2, kid, Some(s), hi, j);
        assert LowBound(ks, i, lo) == LowBound(k2, j, Some(s)) && HighBound(ks, i, hi) == HighBound(k2, j, hi);
      }
    }
  }

  lemma SeparatorsConcat(k1: seq<int>, s: int, k2: seq<int>, lo: Option<int>, hi: Option<int>)
    requires Separators(k1, lo, Some(s)) && Separators(k2, Some(s), hi) && StrictlyAfter(lo, s) && Before(s, hi)
    ensures Separators(k1 + [s] + k2, lo, hi)
  {
    var ks := k1 + [s] + k2;
    forall i, j | 0 <= i < j < |ks|
      ensures ks[i] < ks[j]
    {
      assert i < |k1| ==> k1[i] < s;
      assert j > |k1| ==> s < k2[j - |k1| - 1];
    }
  }

  /** The children whose entries increase and lie within the bounds. */
  ghost function OrderedBelow(below: Below): Kid {
    (c: nat, lo: Option<int>, hi: Option<int>) => Increasing(below(c)) && AllWithin(below(c), lo, hi)
  }

  /** The entries below a node increase and stay within its bounds if each child's do. */
  lemma {:induction false} KidsInOrder(keys: seq<int>, children: seq<nat>, below: Below, lo: Option<int>,
                                       hi: Option<int>)
    requires SearchKids(keys, children, OrderedBelow(below), lo, hi)
    ensures Increasing(Under(children, below)) && AllWithin(Under(children, below), lo, hi)
    decreases |keys|
  {
    var n := |keys|;
    assert KidAt(keys, children, OrderedBelow(below), lo, hi, n);
    if n == 0 {
      assert children == [children[0]];
      UnderOne(children[0], below);
    } else {
      KidsSlice(keys, children, OrderedBelow(below), lo, hi, 0, n - 1);
      assert children[0..n] == children[..n] && keys[0..n - 1] == keys[..n - 1];
      KidsInOrder(keys[..n - 1], children[..n], below, lo, Some(keys[n - 1]));
      assert children == children[..n] + [children[n]];
      UnderConcat(children[..n], [children[n]], below);
      UnderOne(children[n], below);
      IncreasingConcat(Under(children[..n], below), below(children[n]), keys[n - 1], lo, hi);
    }
  }

  lemma IncreasingConcat(a: Entries, b: Entries, s: int, lo: Option<int>, hi: Option<int>)
    requires Increasing(a) && Increasing(b) && AllWithin(a, lo, Some(s)) && AllWithin(b, Some(s), hi)
    requires StrictlyAfter(lo, s) && Before(s, hi)
    ensures Increasing(a + b) && AllWithin(a + b, lo, hi)
  {
  }

  // ---- the edits of two neighbouring nodes

  /** Two nodes on either side of a separator that hold, together, these entries. */
  ghost predicate Beside(l: Node, sep: int, r: Node, kid: Kid, below: Below, lo: Option<int>, hi: Option<int>,
                         es: Entries) {
    && SearchNode(l, kid, lo, Some(sep)) && SearchNode(r, kid, Some(sep), hi)
    && StrictlyAfter(lo, sep) && Before(sep, hi)
    && InOrder(l, below) + InOrder(r, below) == es
  }

  /** A split leaves the same entries in two search trees on either side of the separator. */
  lemma SplitAny(n: Node, newPid: nat, kid: Kid, below: Below, lo: Option<int>, hi: Option<int>)
    requires SearchNode(n, kid, lo, hi) && |n.keys| >= 2
    ensures var (l, sep, r) := SplitNode(n, newPid); Beside(l, sep, r, kid, below, lo, hi, InOrder(n, below))
  {
    if n.isLeaf {
      var (l, sep, r) := SplitNode(n, newPid);
      assert n.keys[0] < sep;
      assert Pairs(l.keys, l.values) + Pairs(r.keys, r.values) == Pairs(n.keys, n.values);
    } else {
      SplitKids(n, newPid, kid, below, lo, hi);
    }
  }

  lemma SplitKids(n: Node, newPid: nat, kid: Kid, below: Below, lo: Option<int>, hi: Option<int>)
    requires SearchNode(n, kid, lo, hi) && |n.keys| >= 2 && !n.isLeaf
    ensures var (l, sep, r) := SplitNode(n, newPid); Beside(l, sep, r, kid, below, lo, hi, InOrder(n, below))
  {
    hide SearchKids, Under;
    KidsFacts(n.keys, n.children, kid, lo, hi);
    var (l, sep, r) := SplitNode(n, newPid);
    var mid := |n.keys| / 2;
    KidsSlice(n.keys, n.children, kid, lo, hi, 0, mid);
    KidsSlice(n.keys, n.children, kid, lo, hi, mid + 1, |n.keys|);
    assert n.keys[0..mid] == l.keys && n.children[0..mid + 1] == l.children;
    assert n.keys[mid + 1..|n.keys|] == r.keys && n.children[mid + 1..|n.keys| + 1] == r.children;
    assert n.children == l.children + r.children;
    UnderConcat(l.children, r.children, below);
  }

  lemma KidsFacts(keys: seq<int>, children: seq<nat>, kid: Kid, lo: Option<int>, hi: Option<int>)
    requires SearchKids(keys, children, kid, lo, hi)
    ensures |children| == |keys| + 1
    ensures forall i :: 0 <= i < |keys| ==> StrictlyAfter(lo, keys[i]) && Before(keys[i], hi)
  {
  }

  /** Borrowing from the left keeps the entries `es` of the two nodes together, in order. */
  lemma BorrowLeftAny(left: Node, s: int, node: Node, kid: Kid, below: Below, lo: Option<int>, hi: Option<int>,
                      es: Entries)
    requires left.isLeaf == node.isLeaf && |left.keys| >= 2 && Beside(left, s, node, kid, below, lo, hi, es)
    ensures
      Siblings(left, node) &&
      var (l, sep, r) := BorrowFromLeft(left, s, node);
      Beside(l, sep, r, kid, below, lo, hi, es)
  {
    hide SearchKids, Under, Pairs, BorrowFromLeft, Beside;
    if left.isLeaf {
      BorrowLeftLeaves(left, s, node, kid, below, lo, hi, es);
    } else {
      BorrowLeftKids(left, s, node, kid, below, lo, hi, es);
    }
  }

  lemma BorrowLeftLeaves(left: Node, s: int, node: Node, kid: Kid, below: Below, lo: Option<int>, hi: Option<int>,
                         es: Entries)
    requires left.isLeaf && node.isLeaf && |left.keys| >= 2 && Beside(left, s, node, kid, below, lo, hi, es)
    ensures
      Siblings(left, node) &&
      var (l, sep, r) := BorrowFromLeft(left, s, node);
      Beside(l, sep, r, kid, below, lo, hi, es)
  {
    hide SearchKids, Under, Pairs, Sorted, SearchNode, BorrowFromLeft;
    LeafShapes(left, node, kid, lo, Some(s), Some(s), hi);
    LeftLeafNodes(left, s, node, kid, lo, hi);
    LeftLeafEntries(left, s, node);
  }

  lemma LeafShapes(l: Node, r: Node, kid: Kid, lo: Option<int>, mid: Option<int>, mid': Option<int>, hi: Option<int>)
    requires l.isLeaf && r.isLeaf && SearchNode(l, kid, lo, mid) && SearchNode(r, kid, mid', hi)
    ensures Siblings(l, r)
  {
  }

  lemma LeftLeafNodes(left: Node, s: int, node: Node, kid: Kid, lo: Option<int>, hi: Option<int>)
    requires left.isLeaf && node.isLeaf && |left.keys| >= 2 && Siblings(left, node)
    requires SearchNode(left, kid, lo, Some(s)) && SearchNode(node, kid, Some(s), hi) && StrictlyAfter(lo, s)
    requires Before(s, hi)
    ensures
      var (l, sep, r) := BorrowFromLeft(left, s, node);
      && l.isLeaf && r.isLeaf && SearchNode(l, kid, lo, Some(sep)) && SearchNode(r, kid, Some(sep), hi)
      && StrictlyAfter(lo, sep) && Before(sep, hi)
  {
    hide SearchKids;
    assert left.keys[0] < Last(left.keys);
  }

  lemma LeftLeafEntries(left: Node, s: int, node: Node)
    requires left.isLeaf && node.isLeaf && left.keys != [] && Siblings(left, node)
    ensures
      var (l, _, r) := BorrowFromLeft(left, s, node);
      && l.isLeaf && r.isLeaf
      && Pairs(l.keys, l.values) + Pairs(r.keys, r.values)
         == Pairs(left.keys, left.values) + Pairs(node.keys, node.values)
  {
  }

  lemma BorrowLeftKids(left: Node, s: int, node: Node, kid: Kid, below: Below, lo: Option<int>, hi: Option<int>,
                       es: Entries)
    requires !left.isLeaf && !node.isLeaf && |left.keys| >= 2 && Beside(left, s, node, kid, below, lo, hi, es)
    ensures
      Siblings(left, node) &&
      var (l, sep, r) := BorrowFromLeft(left, s, node);
      Beside(l, sep, r, kid, below, lo, hi, es)
  {
    hide SearchKids, Under;
    KidsFacts(left.keys, left.children, kid, lo, Some(s));
    KidsFacts(node.keys, node.children, kid, Some(s), hi);
    var (l, sep, r) := BorrowFromLeft(left, s, node);
    var n := |left.keys|;
    var moved := [left.children[n]];
    KidsSlice(left.keys, left.children, kid, lo, Some(s), 0, n - 1);
    KidsSlice(left.keys, left.children, kid, lo, Some(s), n, n);
    assert left.children[n..n + 1] == moved && left.keys[n..n] == [];
    assert left.children[0..n] == l.children && left.keys[0..n - 1] == l.keys;
    KidsConcat([], moved, s, node.keys, node.children, kid, Some(sep), hi);
    assert [] + [s] + node.keys == r.keys && moved + node.children == r.children;
    assert left.children == l.children + moved;
    UnderConcat(l.children, moved, below);
    UnderConcat(moved, node.children, below);
    assert Under(l.children, below) + (Under(moved, below) + Under(node.children, below)) == es;
  }

  /** Borrowing from the right keeps the entries `es` of the two nodes together, in order. */
  lemma BorrowRightAny(node: Node, s: int, right: Node, kid: Kid, below: Below, lo: Option<int>, hi: Option<int>,
                       es: Entries)
    requires node.isLeaf == right.isLeaf && |right.keys| >= 2 && Beside(node, s, right, kid, below, lo, hi, es)
    ensures
      Siblings(node, right) &&
      var (l, sep, r) := BorrowFromRight(node, s, right);
      Beside(l, sep, r, kid, below, lo, hi, es)
  {
    hide SearchKids, Under, Pairs, BorrowFromRight, Beside;
    if node.isLeaf {
      BorrowRightLeaves(node, s, right, kid, below, lo, hi, es);
    } else {
      BorrowRightKids(node, s, right, kid, below, lo, hi, es);
    }
  }

  lemma BorrowRightLeaves(node: Node, s: int, right: Node, kid: Kid, below: Below, lo: Option<int>, hi: Option<int>,
                          es: Entries)
    requires node.isLeaf && right.isLeaf && |right.keys| >= 2 && Beside(node, s, right, kid, below, lo, hi, es)
    ensures
      Siblings(node, right) &&
      var (l, sep, r) := BorrowFromRight(node, s, right);
      Beside(l, sep, r, kid, below, lo, hi, es)
  {
    hide SearchKids, Under, Pairs, Sorted, SearchNode, BorrowFromRight;
    LeafShapes(node, right, kid, lo, Some(s), Some(s), hi);
    RightLeafNodes(node, s, right, kid, lo, hi);
    RightLeafEntries(node, s, right);
  }

  lemma RightLeafNodes(node: Node, s: int, right: Node, kid: Kid, lo: Option<int>, hi: Option<int>)
    requires node.isLeaf && right.isLeaf && |right.keys| >= 2 && Siblings(node, right)
    requires SearchNode(node, kid, lo, Some(s)) && SearchNode(right, kid, Some(s), hi) && StrictlyAfter(lo, s)
    requires Before(s, hi)
    ensures
      var (l, sep, r) := BorrowFromRight(node, s, right);
      && l.isLeaf && r.isLeaf && SearchNode(l, kid, lo, Some(sep)) && SearchNode(r, kid, Some(sep), hi)
      && StrictlyAfter(lo, sep) && Before(sep, hi)
  {
    hide SearchKids;
    assert right.keys[0] < right.keys[1];
  }

  lemma RightLeafEntries(node: Node, s: int, right: Node)
    requires node.isLeaf && right.isLeaf && |right.keys| >= 2 && Siblings(node, right)
    ensures
      var (l, _, r) := BorrowFromRight(node, s, right);
      && l.isLeaf && r.isLeaf
      && Pairs(l.keys, l.values) + Pairs(r.keys, r.values)
         == Pairs(node.keys, node.values) + Pairs(right.keys, right.values)
  {
  }

  lemma BorrowRightKids(node: Node, s: int, right: Node, kid: Kid, below: Below, lo: Option<int>, hi: Option<int>,
                        es: Entries)
    requires !node.isLeaf && !right.isLeaf && |right.keys| >= 2 && Beside(node, s, right, kid, below, lo, hi, es)
    ensures
      Siblings(node, right) &&
      var (l, sep, r) := BorrowFromRight(node, s, right);
      Beside(l, sep, r, kid, below, lo, hi, es)
  {
    hide SearchKids, Under;
    KidsFacts(node.keys, node.children, kid, lo, Some(s));
    KidsFacts(right.keys, right.children, kid, Some(s), hi);
    var (l, sep, r) := BorrowFromRight(node, s, right);
    var moved := [right.children[0]];
    var n := |right.keys|;
    KidsSlice(right.keys, right.children, kid, Some(s), hi, 0, 0);
    KidsSlice(right.keys, right.children, kid, Some(s), hi, 1, n);
    assert right.children[0..1] == moved && right.keys[0..0] == [];
    assert right.children[1..n + 1] == r.children && right.keys[1..n] == r.keys;
    KidsConcat(node.keys, node.children, s, [], moved, kid, lo, Some(sep));
    assert node.keys + [s] + [] == l.keys;
    assert right.children == moved + r.children;
    UnderConcat(moved, r.children, below);
    UnderConcat(node.children, moved, below);
    assert (Under(node.children, below) + Under(moved, below)) + Under(r.children, below) == es;
  }

  /** A node merged into its left sibling, or into its right one, is a search tree with the entries `es` of both. */
  lemma JoinAny(left: Node, s: int, right: Node, kid: Kid, below: Below, lo: Option<int>, hi: Option<int>, es: Entries)
    requires left.isLeaf == right.isLeaf && Beside(left, s, right, kid, below, lo, hi, es)
    ensures Siblings(left, right)
    ensures
      var a, b := JoinToLeft(left, s, right), JoinToRight(left, s, right);
      && SearchNode(a, kid, lo, hi) && InOrder(a, below) == es
      && SearchNode(b, kid, lo, hi) && InOrder(b, below) == es
  {
    var a, b := JoinToLeft(left, s, right), JoinToRight(left, s, right);
    if left.isLeaf {
      assert Pairs(a.keys, a.values) == Pairs(left.keys, left.values) + Pairs(right.keys, right.values);
    } else {
      KidsConcat(left.keys, left.children, s, right.keys, right.children, kid, lo, hi);
      UnderConcat(left.children, right.children, below);
    }
  }

  // ---- the parent after an edit

  lemma UnderTwo(a: nat, b: nat, below: Below)
    ensures Under([a, b], below) == below(a) + below(b)
  {
    assert [a, b] == [a] + [b];
    UnderConcat([a], [b], below);
    UnderOne(a, below);
    UnderOne(b, below);
  }

  lemma PlaceAfter(s: seq<nat>, i: nat, x: nat)
    requires i < |s|
    ensures s[i..i + 1] == [s[i]] && s[..i] + [s[i], x] + s[i + 1..] == InsertAt(s, i + 1, x)
  {
  }

  lemma PlaceOfPair(s: seq<nat>, i: nat)
    requires i + 1 < |s|
    ensures s[..i] + [s[i]] + s[i + 2..] == RemoveAt(s, i + 1)
    ensures s[..i] + [s[i + 1]] + s[i + 2..] == RemoveAt(s, i)
  {
  }

  /** All children but those from `i` on and before `j` are search trees still. */
  ghost predicate OthersOk(keys: seq<int>, children: seq<nat>, i: nat, j: nat, kid: Kid, lo: Option<int>,
                           hi: Option<int>) {
    && |children| == |keys| + 1 && Separators(keys, lo, hi)
    && forall k :: 0 <= k < |children| && !(i <= k < j) ==> KidAt(keys, children, kid, lo, hi, k)
  }

  /** Two children with `sep` between them. */
  ghost predicate PairOk(a: nat, sep: int, b: nat, kid: Kid, lo: Option<int>, hi: Option<int>) {
    kid(a, lo, Some(sep)) && kid(b, Some(sep), hi) && StrictlyAfter(lo, sep) && Before(sep, hi)
  }

  /** After children `i` and `i + 1` exchanged entries: still a search tree. */
  lemma ResharedKidsOk(keys: seq<int>, children: seq<nat>, i: nat, sep: int, kid: Kid, lo: Option<int>, hi: Option<int>)
    requires OthersOk(keys, children, i, i + 2, kid, lo, hi) && i < |keys|
    requires PairOk(children[i], sep, children[i + 1], kid, LowBound(keys, i, lo), HighBound(keys, i + 1, hi))
    ensures SearchKids(keys[i := sep], children, kid, lo, hi)
  {
    hide Separators, StrictlyAfter, Before;
    KeyReplaced(keys, i, sep, lo, hi);
    var ks := keys[i := sep];
    forall k | 0 <= k < |children| ensures KidAt(ks, children, kid, lo, hi, k) {
      assert k != i && k != i + 1 ==> KidAt(keys, children, kid, lo, hi, k);
    }
  }

  /** After child `i` was split, its upper part now under `newPid`. */
  lemma SplitKidsOk(keys: seq<int>, children: seq<nat>, i: nat, sep: int, newPid: nat, kid: Kid, lo: Option<int>,
                    hi: Option<int>)
    requires OthersOk(keys, children, i, i + 1, kid, lo, hi) && i < |children|
    requires PairOk(children[i], sep, newPid, kid, LowBound(keys, i, lo), HighBound(keys, i, hi))
    ensures SearchKids(InsertAt(keys, i, sep), InsertAt(children, i + 1, newPid), kid, lo, hi)
  {
    hide Separators, StrictlyAfter, Before;
    KeyInserted(keys, i, sep, lo, hi);
    var ks, cs := InsertAt(keys, i, sep), InsertAt(children, i + 1, newPid);
    forall k | 0 <= k < |cs| ensures KidAt(ks, cs, kid, lo, hi, k) {
      if k < i {
        assert KidAt(keys, children, kid, lo, hi, k) && cs[k] == children[k];
        assert LowBound(ks, k, lo) == LowBound(keys, k, lo) && HighBound(ks, k, hi) == HighBound(keys, k, hi);
      } else if k > i + 1 {
        assert KidAt(keys, children, kid, lo, hi, k - 1) && cs[k] == children[k - 1];
        assert LowBound(ks, k, lo) == LowBound(keys, k - 1, lo) && HighBound(ks, k, hi) == HighBound(keys, k - 1, hi);
      } else if k == i {
        assert cs[k] == children[i] && LowBound(ks, k, lo) == LowBound(keys, i, lo)
               && HighBound(ks, k, hi) == Some(sep);
      } else {
        assert cs[k] == newPid && LowBound(ks, k, lo) == Some(sep) && HighBound(ks, k, hi) == HighBound(keys, i, hi);
      }
    }
  }

  /** After children `i` and `i + 1` were merged onto page `a`, one of the two. */
  lemma MergedKidsOk(keys: seq<int>, children: seq<nat>, i: nat, a: nat, kid: Kid, lo: Option<int>, hi: Option<int>)
    requires OthersOk(keys, children, i, i + 2, kid, lo, hi) && i < |keys|
    requires kid(a, LowBound(keys, i, lo), HighBound(keys, i + 1, hi))
    ensures SearchKids(RemoveAt(keys, i), children[..i] + [a] + children[i + 2..], kid, lo, hi)
  {
    hide Separators;
    KeyRemoved(keys, i, lo, hi);
    var ks, cs := RemoveAt(keys, i), children[..i] + [a] + children[i + 2..];
    forall k | 0 <= k < |cs| ensures KidAt(ks, cs, kid, lo, hi, k) {
      if k < i {
        assert KidAt(keys, children, kid, lo, hi, k) && cs[k] == children[k];
        assert LowBound(ks, k, lo) == LowBound(keys, k, lo) && HighBound(ks, k, hi) == HighBound(keys, k, hi);
      } else if k > i {
        assert KidAt(keys, children, kid, lo, hi, k + 1) && cs[k] == children[k + 1];
        assert LowBound(ks, k, lo) == LowBound(keys, k + 1, lo) && HighBound(ks, k, hi) == HighBound(keys, k + 1, hi);
      } else {
        assert LowBound(ks, k, lo) == LowBound(keys, i, lo) && HighBound(ks, k, hi) == HighBound(keys, i + 1, hi);
      }
    }
  }

  lemma KeyReplaced(keys: seq<int>, i: nat, sep: int, lo: Option<int>, hi: Option<int>)
    requires Separators(keys, lo, hi) && i < |keys|
    requires StrictlyAfter(LowBound(keys, i, lo), sep) && Before(sep, HighBound(keys, i + 1, hi))
    ensures Separators(keys[i := sep], lo, hi)
  {
    assert forall k | 0 <= k < i :: keys[k] <= keys[i - 1];
    assert forall k | i < k < |keys| :: keys[i + 1] <= keys[k];
    assert i > 0 ==> StrictlyAfter(lo, keys[i - 1]);
    assert i + 1 < |keys| ==> Before(keys[i + 1], hi);
  }

  lemma KeyInserted(keys: seq<int>, i: nat, sep: int, lo: Option<int>, hi: Option<int>)
    requires Separators(keys, lo, hi) && i <= |keys|
    requires StrictlyAfter(LowBound(keys, i, lo), sep) && Before(sep, HighBound(keys, i, hi))
    ensures Separators(InsertAt(keys, i, sep), lo, hi)
  {
    assert i > 0 ==> keys[i - 1] < sep;
    assert i < |keys| ==> sep < keys[i];
    KeysBefore(keys, i, sep, lo, hi);
    KeysBehind(keys, i, sep, lo, hi);
    SeparatorsConcat(keys[..i], sep, keys[i..], lo, hi);
  }

  lemma KeysBefore(keys: seq<int>, i: nat, sep: int, lo: Option<int>, hi: Option<int>)
    requires Separators(keys, lo, hi) && i <= |keys| && (i > 0 ==> keys[i - 1] < sep)
    requires StrictlyAfter(LowBound(keys, i, lo), sep)
    ensures Separators(keys[..i], lo, Some(sep)) && StrictlyAfter(lo, sep)
  {
    assert i > 0 ==> StrictlyAfter(lo, keys[i - 1]);
  }

  lemma KeysBehind(keys: seq<int>, i: nat, sep: int, lo: Option<int>, hi: Option<int>)
    requires Separators(keys, lo, hi) && i <= |keys| && (i < |keys| ==> sep < keys[i])
    requires Before(sep, HighBound(keys, i, hi))
    ensures Separators(keys[i..], Some(sep), hi) && Before(sep, hi)
  {
    assert i < |keys| ==> Before(keys[i], hi);
  }

  lemma KeyRemoved(keys: seq<int>, i: nat, lo: Option<int>, hi: Option<int>)
    requires Separators(keys, lo, hi) && i < |keys|
    ensures Separators(RemoveAt(keys, i), lo, hi)
  {
  }
}
