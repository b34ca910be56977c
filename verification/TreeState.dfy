/** A B+ tree together with the file that it lies in, as one value, and what each write does to it. */
module TreeState {
  import opened Bytes
  import opened Storage
  import opened NodeCodec
  import opened NodeEdits
  import opened SearchTree
  import opened TreePages

  datatype State = State(pageSize: nat, order: nat, minKeys: nat,
                         pages: seq<seq<Byte>>, pageCount: nat, free: seq<nat>,
                         rootId: nat, pageIds: set<nat>, others: set<nat>,
                         t: Tree, cut: bool, m: map<int, nat>)

  ghost predicate Limits(s: State) {
    && PageSizeOk(s.pageSize) && 1 <= s.order && s.minKeys == Max(1, s.order / 2)
    && s.pageCount <= U32_LIMIT && |s.pages| == s.pageCount
  }

  /** The entries of a lone leaf fit its page; below a root even those of a leaf before its split do. */
  ghost predicate EntriesFit(s: State)
    requires PageSizeOk(s.pageSize)
  {
    if |s.t.leaves| == 1 then EntriesRoom(s.pageSize, |s.t.leaves[0].keys|) else EntriesRoom(s.pageSize, s.order + 1)
  }

  /** Root, leaves and ownership, with leaf `hurt` (or none, -1) over or under its limits. */
  ghost predicate Grown(s: State, hurt: int) {
    && Limits(s) && RootRoom(s.pageSize, |s.t.seps|) && EntriesFit(s)
    && Shape(s.t, s.cut) && Sized(s.t.leaves, s.order, s.minKeys, hurt)
    && LeavesHeld(s.pages, s.t.leaves)
    && Accounted(s.pageIds, s.free, s.others, s.pageCount)
    && Represents(Keys(s.t.leaves), Rowids(s.t.leaves), s.m)
  }

  ghost predicate Rooted(s: State)
    requires PageSizeOk(s.pageSize) && s.t.leaves != []
  {
    OwnPages(s.t, s.rootId, s.pageIds) && Holds(s.pages, RootNode(s.t, s.rootId))
  }

  /** Everything that holds between page writes. */
  ghost predicate Whole(s: State, hurt: int) {
    Grown(s, hurt) && Rooted(s)
  }

  /** An empty leaf on a page of its own is a whole tree for the empty map. */
  lemma EmptyWhole(s: State)
    requires Limits(s) && s.rootId < s.pageCount && Fits(Leaf(s.rootId, [], [], 0), s.pageSize)
    requires s.t == Tree([], [Leaf(s.rootId, [], [], 0)]) && !s.cut && s.m == map[] && s.pageIds == {s.rootId}
    requires s.pages[s.rootId] == NodePage(Leaf(s.rootId, [], [], 0), s.pageSize)
    requires Accounted(s.pageIds, s.free, s.others, s.pageCount)
    ensures Whole(s, -1)
  {
    hide NodePage, NodeOfPage, Writable, Shape, Sized, OwnPages, Represents, Accounted;
    EmptyTree(s.rootId, s.order, s.minKeys);
    FitsReads(Leaf(s.rootId, [], [], 0), s.pageSize);
  }

  lemma LeafIsOwned(s: State, i: nat)
    requires Limits(s) && s.t.leaves != [] && Accounted(s.pageIds, s.free, s.others, s.pageCount)
    requires OwnPages(s.t, s.rootId, s.pageIds) && i < |s.t.leaves|
    ensures s.t.leaves[i].pid in s.pageIds && 0 < s.t.leaves[i].pid < s.pageCount
    ensures s.t.leaves[i].pid !in s.free && s.t.leaves[i].pid !in s.others
  {
    assert s.t.leaves[i].pid in PidSet(s.t.leaves);
  }

  lemma NextIsSmall(s: State, i: nat)
    requires Limits(s) && Shape(s.t, s.cut) && Accounted(s.pageIds, s.free, s.others, s.pageCount)
    requires OwnPages(s.t, s.rootId, s.pageIds) && i < |s.t.leaves|
    ensures s.t.leaves[i].next < U32_LIMIT
  {
    assert LinkOk(s.t.leaves[i].next, NextPid(s.t.leaves, i), s.cut);
    if i + 1 < |s.t.leaves| {
      LeafIsOwned(s, i + 1);
    }
  }

  lemma ChildrenAreSmall(s: State)
    requires Limits(s) && s.t.leaves != [] && Accounted(s.pageIds, s.free, s.others, s.pageCount)
    requires OwnPages(s.t, s.rootId, s.pageIds)
    ensures AllBelow(Pids(s.t.leaves), U32_LIMIT)
  {
    forall i | 0 <= i < |s.t.leaves|
      ensures Pids(s.t.leaves)[i] < U32_LIMIT
    {
      LeafIsOwned(s, i);
    }
  }

  // ---- a leaf is written with other entries

  /** `n` can take the place of the leaf at `i`. */
  ghost predicate Replaces(s: State, i: nat, n: Node) {
    && i < |s.t.leaves| && LeafShape(n) && |n.keys| <= s.order + 1
    && n.pid == s.t.leaves[i].pid && n.next == s.t.leaves[i].next
    && |s.t.leaves| == |s.t.seps| + 1
    && (i > 0 ==> AtLeast(n.keys, s.t.seps[i - 1]))
    && (i < |s.t.seps| ==> Below(n.keys, s.t.seps[i]))
  }

  ghost function WithLeaf(s: State, i: nat, n: Node, m: map<int, nat>): State
    requires Limits(s) && i < |s.t.leaves| && Writable(n) && n.pid < |s.pages|
  {
    s.(pages := s.pages[n.pid := NodePage(n, s.pageSize)], t := Tree(s.t.seps, s.t.leaves[i := Back(n, s.pageSize)]),
       cut := s.cut || Back(n, s.pageSize) != n, m := m)
  }

  /** The entries of every leaf fit its page, and below a root the whole leaf does. */
  lemma LeafFits(s: State, i: nat)
    requires Whole(s, -1) && i < |s.t.leaves|
    ensures Limits(s) && EntriesRoom(s.pageSize, |s.t.leaves[i].keys|)
    ensures |s.t.leaves| > 1 ==> EntriesRoom(s.pageSize, s.order + 1) && LeafRoom(s.pageSize, s.order)
    ensures |s.t.leaves| == 1 ==> s.t.leaves[i].next == 0
    ensures s.t.leaves[i].next == 0 || s.t.leaves[i].next == NextPid(s.t.leaves, i)
    ensures s.t.leaves[i].next != 0 ==> i + 1 < |s.t.leaves|
  {
    hide LeavesHeld, Represents, Accounted, Rooted, Ordered, DistinctPids;
    assert LinkOk(s.t.leaves[i].next, NextPid(s.t.leaves, i), s.cut);
  }

  /** Other entries, no more than a leaf below a root may have, do not cost a leaf its link. */
  lemma BackSame(s: State, i: nat, n: Node)
    requires Whole(s, -1) && Replaces(s, i, n) && |n.keys| <= |s.t.leaves[i].keys|
    ensures Back(n, s.pageSize) == n && EntriesRoom(s.pageSize, |n.keys|) && 11 + 19 * |n.keys| < U16_LIMIT
  {
    hide Shape, Represents, Accounted, Rooted, LeavesHeld;
    LeafFits(s, i);
  }

  lemma BackPid(n: Node, pageSize: nat)
    requires PageSizeOk(pageSize)
    ensures Back(n, pageSize).pid == n.pid
  {
  }

  /** Writing a page of the tree leaves everyone else's as they are. */
  lemma WholeKept(s: State, i: nat, n: Node)
    requires Whole(s, -1) && i < |s.t.leaves| && n.pid == s.t.leaves[i].pid < s.pageCount && Writable(n)
    ensures Kept(s.others, s.pages, s.pages[n.pid := NodePage(n, s.pageSize)])
  {
    hide Shape, Represents, LeavesHeld, Sized, NodePage, Writable, Accounted, OwnPages, Kept, EntriesFit;
    LeafWrittenKept(s, i, n);
  }

  /** A leaf of a lone root can be too long for a page header's length field; any other leaf can be written. */
  lemma LeafCanBeWritten(s: State, hurt: int, i: nat, n: Node)
    requires Whole(s, hurt) && Replaces(s, i, n) && 11 + 19 * |n.keys| < U16_LIMIT
    ensures Limits(s) && i < |s.t.leaves|
    ensures Writable(n) && n.pid < s.pageCount && n.pid !in s.free && n.pid !in s.others
    ensures EntriesRoom(s.pageSize, |n.keys|) ==>
              Holds(s.pages[n.pid := NodePage(n, s.pageSize)], Back(n, s.pageSize))
    ensures !EntriesRoom(s.pageSize, |n.keys|) ==>
              |s.t.leaves| == 1 && s.rootId == n.pid && NodeOfPage(n.pid, NodePage(n, s.pageSize)) == None
  {
    hide Sized, LeavesHeld, Represents, NodePage, NodeOfPage;
    LeafIsOwned(s, i);
    NextIsSmall(s, i);
    LeafWritable(n, s.pageSize);
  }

  lemma LeafWritten(s: State, i: nat, n: Node, m: map<int, nat>)
    requires Whole(s, -1) && Replaces(s, i, n) && Writable(n) && n.pid < s.pageCount
    requires EntriesRoom(s.pageSize, |n.keys|) && Holds(s.pages[n.pid := NodePage(n, s.pageSize)], Back(n, s.pageSize))
    requires Stands(s, i, n.keys, n.values, m)
    ensures Whole(WithLeaf(s, i, n, m), i) && Kept(s.others, s.pages, WithLeaf(s, i, n, m).pages)
    ensures |n.keys| <= s.order && (|s.t.leaves| > 1 ==> s.minKeys <= |n.keys|) ==> Whole(WithLeaf(s, i, n, m), -1)
  {
    var r, pages := Back(n, s.pageSize), s.pages[n.pid := NodePage(n, s.pageSize)];
    BackShape(n, s.pageSize, s.t.leaves[i].next, s.cut);
    hide Whole, Grown, Rooted, Sized, Accounted, Represents, Holds, OwnPages, Writable, NodePage, Kept,
         Shape, AtLeast, Below, Keys, Rowids, PidSet, Pids, RootNode, Back, LeafShape, EntriesRoom, RootRoom, LinkOk;
    WholeSplit(s, -1);
    LeafWrittenKept(s, i, n);
    LeafWrittenHeld(s, i, n, r);
    LeafWrittenRoot(s, i, n, r);
    LeafReplaced(s, i, r, pages, m, s.cut || r != n);
  }

  /** With a leaf that has its place and what its page reads as, all is well again. */
  lemma LeafReplaced(s: State, i: nat, r: Node, pages: seq<seq<Byte>>, m: map<int, nat>, cut: bool)
    requires Whole(s, -1) && i < |s.t.leaves| && LeafShape(r) && |r.keys| <= s.order + 1
    requires |s.t.leaves| == |s.t.seps| + 1
    requires (s.cut ==> cut) && r.pid == s.t.leaves[i].pid && LinkOk(r.next, s.t.leaves[i].next, cut)
    requires i > 0 ==> AtLeast(r.keys, s.t.seps[i - 1])
    requires i < |s.t.seps| ==> Below(r.keys, s.t.seps[i])
    requires EntriesRoom(s.pageSize, |r.keys|) && Stands(s, i, r.keys, r.values, m)
    requires |pages| == |s.pages| && LeavesHeld(pages, s.t.leaves[i := r])
    requires
      var t' := Tree(s.t.seps, s.t.leaves[i := r]);
      OwnPages(t', s.rootId, s.pageIds) && Holds(pages, RootNode(t', s.rootId))
    ensures
      var s' := s.(pages := pages, t := Tree(s.t.seps, s.t.leaves[i := r]), cut := cut, m := m);
      && Whole(s', i)
      && (|r.keys| <= s.order && (|s.t.leaves| > 1 ==> s.minKeys <= |r.keys|) ==> Whole(s', -1))
  {
    hide Sized, LeavesHeld, Accounted, Represents, Holds, OwnPages, Shape, AtLeast, Below, Keys, Rowids, PidSet, Pids,
         RootNode, LeafShape, EntriesRoom, RootRoom, LinkOk;
    LeafEdited(s.t, i, r, s.cut, cut);
    LeafWrittenSized(s, i, r);
  }

  lemma BackShape(n: Node, pageSize: nat, next: nat, cut: bool)
    requires PageSizeOk(pageSize) && LeafShape(n) && n.next == next
    ensures
      var r := Back(n, pageSize);
      && LeafShape(r) && r.pid == n.pid && r.keys == n.keys && r.values == n.values
      && LinkOk(r.next, next, cut || r != n)
  {
  }

  lemma LeafWrittenKept(s: State, i: nat, n: Node)
    requires Limits(s) && s.t.leaves != [] && Accounted(s.pageIds, s.free, s.others, s.pageCount)
    requires OwnPages(s.t, s.rootId, s.pageIds)
    requires i < |s.t.leaves| && n.pid == s.t.leaves[i].pid && n.pid < s.pageCount && Writable(n)
    ensures Kept(s.others, s.pages, s.pages[n.pid := NodePage(n, s.pageSize)])
  {
    hide Writable, NodePage;
    LeafIsOwned(s, i);
  }

  lemma LeafWrittenHeld(s: State, i: nat, n: Node, r: Node)
    requires Limits(s) && i < |s.t.leaves| && Writable(n) && r.pid == n.pid == s.t.leaves[i].pid < |s.pages|
    requires Shape(s.t, s.cut) && LeavesHeld(s.pages, s.t.leaves)
    requires Holds(s.pages[n.pid := NodePage(n, s.pageSize)], r)
    ensures LeavesHeld(s.pages[n.pid := NodePage(n, s.pageSize)], s.t.leaves[i := r])
  {
    hide Writable, NodePage, NodeOfPage, Ordered, Linked;
  }

  lemma LeafWrittenSized(s: State, i: nat, n: Node)
    requires i < |s.t.leaves| && Sized(s.t.leaves, s.order, s.minKeys, -1) && |n.keys| <= s.order + 1
    ensures Sized(s.t.leaves[i := n], s.order, s.minKeys, i)
    ensures |n.keys| <= s.order && (|s.t.leaves| > 1 ==> s.minKeys <= |n.keys|) ==>
              Sized(s.t.leaves[i := n], s.order, s.minKeys, -1)
  {
  }

  lemma LeafWrittenRoot(s: State, i: nat, n: Node, r: Node)
    requires Limits(s) && i < |s.t.leaves| && Writable(n) && r.pid == n.pid == s.t.leaves[i].pid < |s.pages|
    requires Rooted(s) && Holds(s.pages[n.pid := NodePage(n, s.pageSize)], r)
    ensures
      var t' := Tree(s.t.seps, s.t.leaves[i := r]);
      && OwnPages(t', s.rootId, s.pageIds)
      && Holds(s.pages[n.pid := NodePage(n, s.pageSize)], RootNode(t', s.rootId))
  {
    var leaves' := s.t.leaves[i := r];
    hide Writable, NodePage, Holds;
    assert s.t.leaves[i].pid in PidSet(s.t.leaves);
    if |s.t.leaves| > 1 {
      HeldElsewhere(s.pages, RootNode(s.t, s.rootId), n.pid, NodePage(n, s.pageSize));
    }
    SamePidSet(s.t.leaves, leaves');
    assert Pids(leaves') == Pids(s.t.leaves);
  }

  lemma HeldElsewhere(pages: seq<seq<Byte>>, n: Node, pid: nat, raw: seq<Byte>)
    requires Holds(pages, n) && pid < |pages| && pid != n.pid
    ensures Holds(pages[pid := raw], n)
  {
  }

  lemma SamePidSet(a: seq<Node>, b: seq<Node>)
    requires |a| == |b| && forall j :: 0 <= j < |a| ==> a[j].pid == b[j].pid
    ensures PidSet(a) == PidSet(b)
  {
    assert forall p :: p in PidSet(a) <==> exists j :: 0 <= j < |a| && a[j].pid == p;
    forall j | 0 <= j < |a|
      ensures a[j].pid in PidSet(b) && b[j].pid in PidSet(a)
    {
      assert a[j].pid == b[j].pid;
    }
  }

  // ---- an overfull leaf is split

  /** The state after the leaf at `i` has been split onto page `newPid`, with `rootId` as the root. */
  ghost function AfterSplit(s: State, i: nat, newPid: nat, pages: seq<seq<Byte>>, free: seq<nat>, rootId: nat,
                            pageIds: set<nat>): State
    requires i < |s.t.leaves| && |s.t.leaves| == |s.t.seps| + 1
    requires s.t.leaves[i].isLeaf && |s.t.leaves[i].values| == |s.t.leaves[i].keys| >= 2
  {
    s.(pages := pages, pageCount := |pages|, free := free, rootId := rootId, pageIds := pageIds,
       t := Splice(s.t, i, 1, SplitSub(s.t.leaves[i], newPid)))
  }

  /** Both halves of a split leaf are within the limits, and so are all other leaves. */
  lemma SplitSized(s: State, i: nat, newPid: nat)
    requires 1 <= s.order && s.minKeys == Max(1, s.order / 2) && Ordered(s.t) && i < |s.t.leaves|
    requires Sized(s.t.leaves, s.order, s.minKeys, i) && |s.t.leaves[i].keys| == s.order + 1
    ensures Sized(Splice(s.t, i, 1, SplitSub(s.t.leaves[i], newPid)).leaves, s.order, s.minKeys, -1)
  {
    assert LeafShape(s.t.leaves[i]);
    var sub := SplitSub(s.t.leaves[i], newPid);
    SpliceAt(s.t, i, 1, sub);
    var s' := Splice(s.t, i, 1, sub);
    hide Splice, Ordered, LeafShape;
    forall j | 0 <= j < |s'.leaves|
      ensures s.minKeys <= |s'.leaves[j].keys| <= s.order
    {
      assert s'.leaves[j] == LeafAt(s.t, i, 1, sub, j);
    }
  }

  /** What the pages have to look like for a split to be complete, and that it then is. */
  lemma SplitDone(s: State, i: nat, newPid: nat, pages: seq<seq<Byte>>, free: seq<nat>, rootId: nat, pageIds: set<nat>,
                  ids: set<nat>)
    requires Grown(s, i) && Rooted(s) && 0 <= i < |s.t.leaves| && |s.t.leaves[i].keys| == s.order + 1
    requires newPid !in PidSet(s.t.leaves) && |pages| <= U32_LIMIT
    requires LeafShape(s.t.leaves[i]) && |s.t.leaves| == |s.t.seps| + 1
    requires LeavesHeld(pages, SplitSub(s.t.leaves[i], newPid).leaves)
    requires SameBut(s.pages, pages, ids) && ids * PidSet(s.t.leaves) <= {s.t.leaves[i].pid}
    requires Accounted(pageIds, free, s.others, |pages|)
    requires RootRoom(s.pageSize, |s.t.seps| + 1)
    requires Rooted(AfterSplit(s, i, newPid, pages, free, rootId, pageIds))
    ensures Whole(AfterSplit(s, i, newPid, pages, free, rootId, pageIds), -1)
  {
    hide Shape, Sized, LeavesHeld, Accounted, Represents, Splice, SplitSub, Keys, Rowids, PidSet, LeafShape, SameBut,
         EntriesRoom, RootRoom, SepAt, LeafAt, Holds, OwnPages;
    SplitFacts(s, i, newPid);
    SplitHeld(s, i, newPid, pages, ids);
  }

  /** The split tree has the entries that there were, and all its leaves are within the limits. */
  lemma SplitFacts(s: State, i: nat, newPid: nat)
    requires Limits(s) && Shape(s.t, s.cut) && Sized(s.t.leaves, s.order, s.minKeys, i)
    requires i < |s.t.leaves| && |s.t.leaves[i].keys| == s.order + 1
    requires newPid !in PidSet(s.t.leaves) && LeafShape(s.t.leaves[i])
    ensures |s.t.leaves| == |s.t.seps| + 1 && s.t.leaves[i].isLeaf && |s.t.leaves[i].values| == |s.t.leaves[i].keys|
    ensures
      var t' := Splice(s.t, i, 1, SplitSub(s.t.leaves[i], newPid));
      && |t'.leaves| == |s.t.leaves| + 1 && |t'.seps| == |s.t.seps| + 1
      && Shape(t', s.cut) && Sized(t'.leaves, s.order, s.minKeys, -1)
      && Keys(t'.leaves) == Keys(s.t.leaves) && Rowids(t'.leaves) == Rowids(s.t.leaves)
  {
    LeafSplit(s.t, i, newPid, s.cut);
    SplitSized(s, i, newPid);
    SpliceAt(s.t, i, 1, SplitSub(s.t.leaves[i], newPid));
    hide Linked, DistinctPids, Sized, Splice, Keys, Rowids, PidSet, LeafShape;
  }

  lemma SplitHeld(s: State, i: nat, newPid: nat, pages: seq<seq<Byte>>, ids: set<nat>)
    requires PageSizeOk(s.pageSize) && Shape(s.t, s.cut) && i < |s.t.leaves| && |s.t.leaves[i].keys| >= 2
    requires LeavesHeld(s.pages, s.t.leaves)
    requires s.t.leaves[i].isLeaf && |s.t.leaves[i].values| == |s.t.leaves[i].keys|
    requires LeavesHeld(pages, SplitSub(s.t.leaves[i], newPid).leaves)
    requires SameBut(s.pages, pages, ids) && ids * PidSet(s.t.leaves) <= {s.t.leaves[i].pid}
    ensures |s.t.leaves| == |s.t.seps| + 1
    ensures LeavesHeld(pages, Splice(s.t, i, 1, SplitSub(s.t.leaves[i], newPid)).leaves)
  {
    hide Holds, LeafShape, Linked, Keys, Rowids;
    assert s.t.leaves[i..i + 1] == [s.t.leaves[i]];
    OneContents(s.t.leaves[i]);
    assert |s.t.leaves| == |s.t.seps| + 1;
    hide Ordered, SplitSub, PidSet;
    SpliceHeld(s.t, i, 1, SplitSub(s.t.leaves[i], newPid), s.pages, pages, ids);
  }

  /** A root whose separators fit for one more key than there is has room for the split of a full leaf. */
  lemma RoomToSplit(s: State, i: nat)
    requires Whole(s, -1) && i < |s.t.leaves| && |s.t.leaves[i].keys| == s.order
    requires RootRoom(s.pageSize, (|s.m| + 1) / s.minKeys - 1)
    ensures RootRoom(s.pageSize, |s.t.seps| + 1)
  {
    hide LeavesHeld, Rooted, Accounted, Linked, DistinctPids;
    KeyCount(s.t, s.m);
    ManyKeys(s.t.leaves, s.order, s.minKeys, i);
    assert |s.t.leaves| == |s.t.seps| + 1;
    hide Keys, Represents, Ordered, Sized;
    AtMostQuotient(|s.t.leaves| + 1, s.minKeys, |s.m| + 1);
  }

  /** The root's page takes the separators between as many full leaves as the keys fill. */
  lemma RoomTaken(s: State)
    requires Whole(s, -1)
    ensures RootRoom(s.pageSize, (|s.m| + s.order - 1) / s.order - 1)
  {
    hide LeavesHeld, Rooted, Accounted, Linked, DistinctPids;
    KeyCount(s.t, s.m);
    KeysBounded(s.t.leaves, s.order);
    hide Keys, Represents, Ordered, Sized;
    QuotientAtMost(|s.t.leaves|, s.order, |s.m|);
  }

  lemma QuotientAtMost(n: nat, d: nat, x: nat)
    requires 0 < d && x <= n * d
    ensures (x + d - 1) / d <= n
  {
    var q := (x + d - 1) / d;
    assert x + d - 1 == q * d + (x + d - 1) % d;
    if n + 1 <= q {
      Distribute(n + 1, q - n - 1, d);
      Distribute(n, 1, d);
    }
  }

  lemma KeyCount(t: Tree, m: map<int, nat>)
    requires Ordered(t) && Represents(Keys(t.leaves), Rowids(t.leaves), m)
    ensures |Keys(t.leaves)| == |m|
  {
    KeysSorted(t);
    hide Keys, Rowids, Ordered;
    RepSize(Keys(t.leaves), Rowids(t.leaves), m);
  }

  lemma ManyKeys(leaves: seq<Node>, order: nat, minKeys: nat, i: nat)
    requires 1 <= order && minKeys == Max(1, order / 2) && Sized(leaves, order, minKeys, -1)
    requires i < |leaves| && |leaves[i].keys| == order
    ensures (|leaves| + 1) * minKeys <= |Keys(leaves)| + 1
  {
    assert 2 * minKeys <= order + 1;
    forall j | 0 <= j < |leaves| && j != i
      ensures minKeys <= |leaves[j].keys|
    {
      assert |leaves| > 1;
    }
    hide Sized;
    LeavesBoundedBeforeSplit(leaves, i, minKeys, 1);
  }

  lemma AtMostQuotient(n: nat, d: nat, x: nat)
    requires 0 < d && n * d <= x
    ensures n <= x / d
  {
    var q := x / d;
    assert x == q * d + x % d;
    if q + 1 <= n {
      Distribute(q + 1, n - q - 1, d);
      Distribute(q, 1, d);
    }
  }

  // ---- two neighbouring leaves exchange an entry

  ghost function AfterReshare(s: State, i: nat, a: Node, b: Node, pages: seq<seq<Byte>>): State
    requires i + 1 < |s.t.leaves| && |s.t.leaves| == |s.t.seps| + 1 && b.keys != []
  {
    s.(pages := pages, t := Tree(s.t.seps[i := b.keys[0]], s.t.leaves[i := a][i + 1 := b]))
  }

  lemma ReshareDone(s: State, hurt: int, i: nat, a: Node, b: Node, pages: seq<seq<Byte>>)
    requires Grown(s, hurt) && Rooted(s) && i + 1 < |s.t.leaves| && |s.t.leaves| == |s.t.seps| + 1
    requires Reshared(s.t.leaves[i], s.t.leaves[i + 1], a, b) && hurt in {i, i + 1}
    requires s.minKeys <= |a.keys| <= s.order && s.minKeys <= |b.keys| <= s.order
    requires Holds(pages, a) && Holds(pages, b)
    requires SameBut(s.pages, pages, {a.pid, b.pid, s.rootId}) && |pages| == |s.pages|
    requires Holds(pages, Internal(s.rootId, s.t.seps[i := b.keys[0]], Pids(s.t.leaves)))
    ensures Whole(AfterReshare(s, i, a, b, pages), -1)
  {
    hide Holds;
    ReshareHeld(s, i, a, b, pages);
    hide LeavesHeld, SameBut;
    PairReshared(s.t, i, a, b, s.cut);
    ReshareSized(s, hurt, i, a, b);
    hide Shape, Sized, Accounted, Represents, Reshared, Keys, Rowids, PidSet, Pids;
  }

  lemma ReshareSized(s: State, hurt: int, i: nat, a: Node, b: Node)
    requires i + 1 < |s.t.leaves| && Sized(s.t.leaves, s.order, s.minKeys, hurt) && hurt in {i, i + 1}
    requires s.minKeys <= |a.keys| <= s.order && s.minKeys <= |b.keys| <= s.order
    ensures Sized(s.t.leaves[i := a][i + 1 := b], s.order, s.minKeys, -1)
  {
  }

  lemma ReshareHeld(s: State, i: nat, a: Node, b: Node, pages: seq<seq<Byte>>)
    requires PageSizeOk(s.pageSize) && Shape(s.t, s.cut) && Rooted(s)
    requires LeavesHeld(s.pages, s.t.leaves) && i + 1 < |s.t.leaves|
    requires a.pid == s.t.leaves[i].pid && b.pid == s.t.leaves[i + 1].pid
    requires Holds(pages, a) && Holds(pages, b)
    requires SameBut(s.pages, pages, {a.pid, b.pid, s.rootId})
    ensures LeavesHeld(pages, s.t.leaves[i := a][i + 1 := b])
  {
    hide NodeOfPage, Ordered, Linked;
    var leaves' := s.t.leaves[i := a][i + 1 := b];
    forall j | 0 <= j < |leaves'|
      ensures Holds(pages, leaves'[j])
    {
      assert s.t.leaves[j].pid in PidSet(s.t.leaves);
    }
  }

  // ---- two neighbouring leaves become one

  ghost function AfterMerge(s: State, i: nat, a: Node, pages: seq<seq<Byte>>, free: seq<nat>, pageIds: set<nat>): State
    requires i + 1 < |s.t.leaves| && |s.t.leaves| == |s.t.seps| + 1
  {
    s.(pages := pages, free := free, pageIds := pageIds, t := Splice(s.t, i, 2, Tree([], [a])))
  }

  /** After a merge all is well but for the root, which may have a single child now. */
  lemma MergeDone(s: State, hurt: int, i: nat, a: Node, gone: nat, pages: seq<seq<Byte>>, free: seq<nat>,
                  pageIds: set<nat>)
    requires Grown(s, hurt) && Rooted(s) && i + 1 < |s.t.leaves| && |s.t.leaves| == |s.t.seps| + 1
    requires Merged(s.t.leaves[i], s.t.leaves[i + 1], a) && hurt in {i, i + 1} && |a.keys| <= s.order
    requires s.minKeys <= |a.keys|
    requires (a.pid == s.t.leaves[i].pid && gone == s.t.leaves[i + 1].pid)
             || (i == 0 && a.pid == s.t.leaves[1].pid && gone == s.t.leaves[0].pid)
    requires Holds(pages, a)
    requires SameBut(s.pages, pages, {a.pid, gone, s.rootId}) && |pages| == |s.pages|
    requires Accounted(pageIds, free, s.others, s.pageCount)
    ensures Grown(AfterMerge(s, i, a, pages, free, pageIds), -1)
    ensures
      var t' := AfterMerge(s, i, a, pages, free, pageIds).t;
      && |t'.leaves| == |s.t.leaves| - 1
      && PidSet(t'.leaves) == PidSet(s.t.leaves) - {gone} && s.rootId !in PidSet(t'.leaves)
  {
    hide Holds, Merged, SameBut, LeavesHeld, Sized, Represents, Accounted;
    MergeHeld(s, i, a, gone, pages);
    MergeSized(s, hurt, i, a);
    PairMerged(s.t, i, a, s.cut);
    assert s.rootId !in PidSet(s.t.leaves);
    assert |Splice(s.t, i, 2, Tree([], [a])).leaves| == |s.t.leaves| - 1;
    assert DistinctPids(s.t.leaves);
    hide Shape, Keys, Rowids, PidSet, Splice, OwnPages, DistinctPids;
    MergePids(s, i, a, gone);
  }

  lemma MergePids(s: State, i: nat, a: Node, gone: nat)
    requires DistinctPids(s.t.leaves) && i + 1 < |s.t.leaves| && s.rootId !in PidSet(s.t.leaves)
    requires (a.pid == s.t.leaves[i].pid && gone == s.t.leaves[i + 1].pid)
             || (a.pid == s.t.leaves[i + 1].pid && gone == s.t.leaves[i].pid)
    ensures PidSet(s.t.leaves) - {s.t.leaves[i].pid, s.t.leaves[i + 1].pid} + {a.pid} == PidSet(s.t.leaves) - {gone}
  {
    assert s.t.leaves[i].pid in PidSet(s.t.leaves) && s.t.leaves[i + 1].pid in PidSet(s.t.leaves);
  }

  lemma MergeSized(s: State, hurt: int, i: nat, a: Node)
    requires |s.t.leaves| == |s.t.seps| + 1 && i + 1 < |s.t.leaves| && Sized(s.t.leaves, s.order, s.minKeys, hurt)
    requires hurt in {i, i + 1} && s.minKeys <= |a.keys| <= s.order
    ensures Sized(Splice(s.t, i, 2, Tree([], [a])).leaves, s.order, s.minKeys, -1)
  {
    var sub := Tree([], [a]);
    var s' := Splice(s.t, i, 2, sub);
    SpliceAt(s.t, i, 2, sub);
    hide Splice;
    forall j | 0 <= j < |s'.leaves|
      ensures s.minKeys <= |s'.leaves[j].keys| <= s.order
    {
      assert s'.leaves[j] == LeafAt(s.t, i, 2, sub, j);
    }
  }

  lemma MergeHeld(s: State, i: nat, a: Node, gone: nat, pages: seq<seq<Byte>>)
    requires PageSizeOk(s.pageSize) && Shape(s.t, s.cut) && Rooted(s) && |s.t.leaves| == |s.t.seps| + 1
    requires LeavesHeld(s.pages, s.t.leaves) && i + 1 < |s.t.leaves|
    requires {a.pid, gone} <= {s.t.leaves[i].pid, s.t.leaves[i + 1].pid} && Holds(pages, a)
    requires SameBut(s.pages, pages, {a.pid, gone, s.rootId})
    ensures LeavesHeld(pages, Splice(s.t, i, 2, Tree([], [a])).leaves)
  {
    hide Holds, Ordered, Linked, Keys, Rowids;
    var l, r := s.t.leaves[i], s.t.leaves[i + 1];
    assert s.t.leaves[i..i + 2] == [l, r];
    PairContents(l, r);
    SpliceHeld(s.t, i, 2, Tree([], [a]), s.pages, pages, {a.pid, gone, s.rootId});
  }

  /** The root loses its last separator: its page is given back and the one leaf becomes the root. */
  lemma ShrinkDone(s: State, pages: seq<seq<Byte>>, free: seq<nat>)
    requires Grown(s, -1) && |s.t.leaves| == 1 && s.rootId !in PidSet(s.t.leaves)
    requires SameBut(s.pages, pages, {s.rootId}) && |pages| == |s.pages|
    requires Accounted({s.t.leaves[0].pid}, free, s.others, s.pageCount)
    ensures Whole(s.(pages := pages, free := free, rootId := s.t.leaves[0].pid, pageIds := {s.t.leaves[0].pid}), -1)
  {
    hide Holds, Shape, Sized, Accounted, Represents;
    StillHeld(s.pages, pages, {s.rootId}, s.t.leaves);
  }

  // ---- the entries of one leaf are edited

  /** The map after leaf `i` got other entries. */
  ghost predicate Stands(s: State, i: nat, keys: seq<int>, values: seq<nat>, m: map<int, nat>)
    requires i < |s.t.leaves|
  {
    Represents(Keys(s.t.leaves[..i]) + keys + Keys(s.t.leaves[i + 1..]),
               Rowids(s.t.leaves[..i]) + values + Rowids(s.t.leaves[i + 1..]), m)
  }

  /** Before an edit: the leaf is in shape, and the parts before and behind it pair up. */
  lemma LeafFacts(s: State, hurt: int, i: nat)
    requires Grown(s, hurt) && i < |s.t.leaves|
    ensures LeafShape(s.t.leaves[i]) && |s.t.leaves| == |s.t.seps| + 1 && Ordered(s.t)
    ensures |Keys(s.t.leaves[..i])| == |Rowids(s.t.leaves[..i])|
    ensures Stands(s, i, s.t.leaves[i].keys, s.t.leaves[i].values, s.m)
    ensures Sorted(Keys(s.t.leaves[..i]) + s.t.leaves[i].keys + Keys(s.t.leaves[i + 1..]))
  {
    hide LeavesHeld, Accounted, Sized, Linked, DistinctPids;
    KeysSorted(s.t);
    KeysAround(s.t.leaves, i);
    KeysAndRowids(s.t.leaves[..i]);
  }

  lemma LeafLimits(s: State, i: nat)
    requires Grown(s, -1) && i < |s.t.leaves|
    ensures |s.t.leaves[i].keys| <= s.order && (|s.t.leaves| > 1 ==> s.minKeys <= |s.t.leaves[i].keys|)
    ensures |s.t.leaves| == |s.t.seps| + 1
    ensures i > 0 ==> AtLeast(s.t.leaves[i].keys, s.t.seps[i - 1])
    ensures i < |s.t.seps| ==> Below(s.t.leaves[i].keys, s.t.seps[i])
  {
  }

  function WithValue(leaf: Node, j: nat, rowid: nat): Node
    requires j < |leaf.values|
  {
    leaf.(values := leaf.values[j := rowid])
  }

  lemma EntryReplaced(s: State, i: nat, j: nat, rowid: nat)
    requires Whole(s, -1) && i < |s.t.leaves| && j < |s.t.leaves[i].keys| && rowid < U64_LIMIT
    ensures |s.t.leaves[i].values| == |s.t.leaves[i].keys| <= s.order
    ensures (|s.t.leaves| > 1 ==> s.minKeys <= |s.t.leaves[i].keys|)
    ensures
      var leaf' := WithValue(s.t.leaves[i], j, rowid);
      Replaces(s, i, leaf') && Stands(s, i, leaf'.keys, leaf'.values, s.m[leaf'.keys[j] := rowid])
  {
    LeafFacts(s, -1, i);
    LeafLimits(s, i);
    hide Grown, Rooted, Sorted, AtLeast, Below, Ordered;
    StandsReplaced(s, i, j, rowid);
    ReplaceShape(s.t.leaves[i], j, rowid);
    hide Stands, LeafShape;
  }

  lemma ReplaceShape(leaf: Node, j: nat, rowid: nat)
    requires LeafShape(leaf) && j < |leaf.keys| && rowid < U64_LIMIT
    ensures LeafShape(WithValue(leaf, j, rowid))
  {
  }

  lemma StandsReplaced(s: State, i: nat, j: nat, rowid: nat)
    requires i < |s.t.leaves| && |s.t.leaves[i].keys| == |s.t.leaves[i].values| && j < |s.t.leaves[i].keys|
    requires |Keys(s.t.leaves[..i])| == |Rowids(s.t.leaves[..i])|
    requires Stands(s, i, s.t.leaves[i].keys, s.t.leaves[i].values, s.m)
    requires Sorted(Keys(s.t.leaves[..i]) + s.t.leaves[i].keys + Keys(s.t.leaves[i + 1..]))
    ensures Stands(s, i, s.t.leaves[i].keys, s.t.leaves[i].values[j := rowid], s.m[s.t.leaves[i].keys[j] := rowid])
  {
    hide Keys, Rowids, Sorted, Represents;
    RepReplaceAt(Keys(s.t.leaves[..i]), s.t.leaves[i].keys, Keys(s.t.leaves[i + 1..]),
                 Rowids(s.t.leaves[..i]), s.t.leaves[i].values, Rowids(s.t.leaves[i + 1..]), s.m, j, rowid);
  }

  function WithEntry(leaf: Node, idx: nat, key: int, rowid: nat): Node
    requires idx <= |leaf.keys| == |leaf.values|
  {
    leaf.(keys := InsertAt(leaf.keys, idx, key), values := InsertAt(leaf.values, idx, rowid))
  }

  lemma EntryInserted(s: State, i: nat, idx: nat, key: int, rowid: nat)
    requires Whole(s, -1) && IsChildIndex(s.t.seps, key, i) && i < |s.t.leaves| && IsI64(key) && rowid < U64_LIMIT
    requires |s.t.leaves[i].values| == |s.t.leaves[i].keys| && idx <= |s.t.leaves[i].keys| && key !in s.t.leaves[i].keys
    requires forall j :: 0 <= j < idx ==> s.t.leaves[i].keys[j] <= key
    requires forall j :: idx <= j < |s.t.leaves[i].keys| ==> key < s.t.leaves[i].keys[j]
    ensures |s.t.leaves[i].keys| <= s.order
    ensures
      var leaf' := WithEntry(s.t.leaves[i], idx, key, rowid);
      && Replaces(s, i, leaf') && (|s.t.leaves| > 1 ==> s.minKeys <= |leaf'.keys|)
      && Stands(s, i, leaf'.keys, leaf'.values, s.m[key := rowid])
  {
    LeafFacts(s, -1, i);
    var leaf := s.t.leaves[i];
    InsertShape(leaf, idx, key, rowid);
    InsertBand(s, i, idx, key);
    assert key !in Keys(s.t.leaves[..i]) + leaf.keys + Keys(s.t.leaves[i + 1..]) by {
      Located(s.t, key, i);
      KeysAround(s.t.leaves, i);
    }
    LeafLimits(s, i);
    hide LeafShape, LeavesHeld, Accounted, Shape, Represents, Rooted, Keys, Rowids, Sorted, Ordered, IsChildIndex,
         Sized;
    RepInsertAt(Keys(s.t.leaves[..i]), leaf.keys, Keys(s.t.leaves[i + 1..]),
                Rowids(s.t.leaves[..i]), leaf.values, Rowids(s.t.leaves[i + 1..]), s.m, idx, key, rowid);
  }

  lemma InsertShape(leaf: Node, idx: nat, key: int, rowid: nat)
    requires LeafShape(leaf) && idx <= |leaf.keys| && key !in leaf.keys && IsI64(key) && rowid < U64_LIMIT
    requires forall j :: 0 <= j < idx ==> leaf.keys[j] <= key
    requires forall j :: idx <= j < |leaf.keys| ==> key < leaf.keys[j]
    ensures LeafShape(WithEntry(leaf, idx, key, rowid))
  {
    assert forall j | 0 <= j < idx :: leaf.keys[j] in leaf.keys;
  }

  lemma InsertBand(s: State, i: nat, idx: nat, key: int)
    requires Ordered(s.t) && IsChildIndex(s.t.seps, key, i) && i < |s.t.leaves| && idx <= |s.t.leaves[i].keys|
    ensures i > 0 ==> AtLeast(InsertAt(s.t.leaves[i].keys, idx, key), s.t.seps[i - 1])
    ensures i < |s.t.seps| ==> Below(InsertAt(s.t.leaves[i].keys, idx, key), s.t.seps[i])
  {
    hide LeafShape, Sorted, AllI64;
  }

  function WithoutEntry(leaf: Node, j: nat): Node
    requires j < |leaf.keys| == |leaf.values|
  {
    leaf.(keys := RemoveAt(leaf.keys, j), values := RemoveAt(leaf.values, j))
  }

  lemma EntryDeleted(s: State, i: nat, j: nat)
    requires Whole(s, -1) && i < |s.t.leaves| && j < |s.t.leaves[i].keys|
    ensures |s.t.leaves[i].values| == |s.t.leaves[i].keys| <= s.order
    ensures (|s.t.leaves| > 1 ==> s.minKeys <= |s.t.leaves[i].keys|)
    ensures
      var leaf' := WithoutEntry(s.t.leaves[i], j);
      && Replaces(s, i, leaf') && Stands(s, i, leaf'.keys, leaf'.values, s.m - {s.t.leaves[i].keys[j]})
  {
    LeafFacts(s, -1, i);
    LeafLimits(s, i);
    hide Grown, Rooted, Sorted;
    StandsDeleted(s, i, j);
    RemoveShape(s.t.leaves[i], j);
    hide Stands, LeafShape;
    if i > 0 { RemoveBand(s.t.leaves[i].keys, j, s.t.seps[i - 1]); }
    if i < |s.t.seps| { RemoveBand(s.t.leaves[i].keys, j, s.t.seps[i]); }
    hide AtLeast, Below;
  }

  lemma StandsDeleted(s: State, i: nat, j: nat)
    requires i < |s.t.leaves| && |s.t.leaves[i].keys| == |s.t.leaves[i].values| && j < |s.t.leaves[i].keys|
    requires |Keys(s.t.leaves[..i])| == |Rowids(s.t.leaves[..i])|
    requires Stands(s, i, s.t.leaves[i].keys, s.t.leaves[i].values, s.m)
    requires Sorted(Keys(s.t.leaves[..i]) + s.t.leaves[i].keys + Keys(s.t.leaves[i + 1..]))
    ensures Stands(s, i, RemoveAt(s.t.leaves[i].keys, j), RemoveAt(s.t.leaves[i].values, j),
                   s.m - {s.t.leaves[i].keys[j]})
  {
    hide Keys, Rowids, Sorted, Represents;
    RepDeleteAt(Keys(s.t.leaves[..i]), s.t.leaves[i].keys, Keys(s.t.leaves[i + 1..]),
                Rowids(s.t.leaves[..i]), s.t.leaves[i].values, Rowids(s.t.leaves[i + 1..]), s.m, j);
  }

  lemma RemoveBand(keys: seq<int>, j: nat, x: int)
    requires j < |keys|
    ensures AtLeast(keys, x) ==> AtLeast(RemoveAt(keys, j), x)
    ensures Below(keys, x) ==> Below(RemoveAt(keys, j), x)
  {
  }

  lemma RemoveShape(leaf: Node, j: nat)
    requires LeafShape(leaf) && j < |leaf.keys|
    ensures LeafShape(WithoutEntry(leaf, j))
  {
    var leaf' := WithoutEntry(leaf, j);
    assert forall p | 0 <= p < |leaf'.keys| :: leaf'.keys[p] == if p < j then leaf.keys[p] else leaf.keys[p + 1];
    assert forall p | 0 <= p < |leaf'.keys| :: leaf'.values[p] == if p < j then leaf.values[p] else leaf.values[p + 1];
  }

  /** Both halves of a split leaf can be written. */
  lemma SplitWritable(s: State, i: nat, newPid: nat)
    requires Whole(s, i) && i < |s.t.leaves| && |s.t.leaves[i].keys| == s.order + 1 && newPid < U32_LIMIT
    ensures LeafShape(s.t.leaves[i]) && s.t.leaves[i].isLeaf && |s.t.leaves[i].values| == |s.t.leaves[i].keys|
    ensures |s.t.leaves| == |s.t.seps| + 1
    ensures s.t.leaves[i].pid in s.pageIds && s.t.leaves[i].pid < s.pageCount && s.t.leaves[i].pid !in s.free
    ensures
      var sub := SplitSub(s.t.leaves[i], newPid);
      && sub.leaves == [sub.leaves[0], sub.leaves[1]] && |sub.seps| == 1
      && sub.leaves[0].pid == s.t.leaves[i].pid && sub.leaves[1].pid == newPid
      && Fits(sub.leaves[0], s.pageSize) && Fits(sub.leaves[1], s.pageSize)
      && Writable(sub.leaves[0]) && Writable(sub.leaves[1])
  {
    hide LeavesHeld, Represents, Holds;
    var sub := SplitSub(s.t.leaves[i], newPid);
    LeafIsOwned(s, i);
    NextIsSmall(s, i);
    SplitContents(s.t.leaves[i], newPid);
    SplitOrdered(s.t.leaves[i], newPid);
    assert LeafShape(sub.leaves[0]) && LeafShape(sub.leaves[1]);
    hide Sized, OwnPages, Accounted, Shape, Ordered;
    LeafWritable(sub.leaves[0], s.pageSize);
    LeafWritable(sub.leaves[1], s.pageSize);
  }

  /** The root that a split leaf leads to: its own page or, above what was the only leaf, a new one. */
  ghost predicate SplitRootId(s: State, newPid: nat, rootId: nat, pageIds: set<nat>)
    requires s.t.leaves != []
  {
    && newPid !in s.pageIds
    && if |s.t.leaves| == 1 then rootId !in s.pageIds + {newPid} && pageIds == s.pageIds + {newPid} + {rootId}
       else rootId == s.rootId && pageIds == s.pageIds + {newPid}
  }

  ghost function SplitParent(s: State, i: nat, newPid: nat, sep: int, rootId: nat): Node
    requires i < |s.t.leaves| && |s.t.leaves| == |s.t.seps| + 1
  {
    Internal(rootId, InsertAt(s.t.seps, i, sep), InsertAt(Pids(s.t.leaves), i + 1, newPid))
  }

  lemma SplitParentWritable(s: State, i: nat, newPid: nat, sep: int, rootId: nat)
    requires Whole(s, i) && i < |s.t.leaves| && LeafShape(s.t.leaves[i]) && |s.t.leaves[i].keys| == s.order + 1
    requires SplitSub(s.t.leaves[i], newPid).seps == [sep]
    requires newPid < U32_LIMIT && rootId < U32_LIMIT
    ensures |s.t.leaves| == |s.t.seps| + 1 && Writable(SplitParent(s, i, newPid, sep, rootId))
    ensures RootRoom(s.pageSize, |s.t.seps| + 1) ==> Fits(SplitParent(s, i, newPid, sep, rootId), s.pageSize)
  {
    hide LeavesHeld, Represents, Holds, Sized;
    ChildrenAreSmall(s);
    assert IsI64(sep) && AllI64(s.t.seps) && |s.t.leaves| == |s.t.seps| + 1;
    hide Shape, Accounted, OwnPages, LeafShape, SplitSub;
    RootWritable(rootId, InsertAt(s.t.seps, i, sep), InsertAt(Pids(s.t.leaves), i + 1, newPid), s.pageSize);
  }

  /** Both halves and the root above them have been written, the root last: the split is complete. */
  lemma SplitComplete(s: State, i: nat, newPid: nat, sep: int, rootId: nat, split: seq<seq<Byte>>,
                      taken: seq<seq<Byte>>,
                      pages: seq<seq<Byte>>, free: seq<nat>, pageIds: set<nat>)
    requires Whole(s, i) && i < |s.t.leaves| && LeafShape(s.t.leaves[i]) && |s.t.leaves[i].keys| == s.order + 1
    requires |s.t.leaves| == |s.t.seps| + 1 && RootRoom(s.pageSize, |s.t.seps| + 1) && |pages| <= U32_LIMIT
    requires SplitRootId(s, newPid, rootId, pageIds) && SplitSub(s.t.leaves[i], newPid).seps == [sep]
    requires LeavesHeld(split, SplitSub(s.t.leaves[i], newPid).leaves)
    requires SameBut(s.pages, split, {s.t.leaves[i].pid, newPid}) && SameBut(split, taken, {rootId})
    requires Holds(pages, SplitParent(s, i, newPid, sep, rootId)) && SameBut(taken, pages, {rootId})
    requires Accounted(pageIds, free, s.others, |pages|)
    ensures Whole(AfterSplit(s, i, newPid, pages, free, rootId, pageIds), -1)
    ensures |AfterSplit(s, i, newPid, pages, free, rootId, pageIds).t.leaves| == |s.t.leaves| + 1
    ensures Kept(s.others, s.pages, pages)
  {
    var ids := {s.t.leaves[i].pid, newPid, rootId};
    SplitPids(s, i, newPid, rootId, pageIds);
    SplitRooted(s, i, newPid, sep, rootId, pages, free, pageIds);
    SplitWrites(s, i, newPid, rootId, split, taken, pages);
    hide Shape, Holds, Represents, Sized, Rooted, OwnPages, LeavesHeld, SplitRootId, SplitParent, LeafShape, SameBut;
    KeptOutside(s.others, s.pages, pages, ids);
    hide Kept, Accounted;
    SplitDone(s, i, newPid, pages, free, rootId, pageIds, ids);
  }

  /** Without room for the new separator the root's page is no node any more; everyone else's pages are as they were. */
  lemma SplitLost(s: State, i: nat, newPid: nat, sep: int, split: seq<seq<Byte>>, pages: seq<seq<Byte>>, free: seq<nat>)
    requires Whole(s, i) && i < |s.t.leaves| && |s.t.leaves| == |s.t.seps| + 1 && |s.t.leaves| > 1
    requires !RootRoom(s.pageSize, |s.t.seps| + 1) && Writable(SplitParent(s, i, newPid, sep, s.rootId))
    requires newPid !in s.pageIds && Accounted(s.pageIds + {newPid}, free, s.others, |pages|)
    requires SameBut(s.pages, split, {s.t.leaves[i].pid, newPid}) && s.rootId < |split|
    requires pages == split[s.rootId := NodePage(SplitParent(s, i, newPid, sep, s.rootId), s.pageSize)]
    ensures NodeOfPage(s.rootId, pages[s.rootId]) == None && Kept(s.others, s.pages, pages)
  {
    hide Shape, Sized, Represents, LeavesHeld, Holds, Accounted, OwnPages, Writable, NodePage, NodeOfPage, SameBut,
         Kept, RootRoom;
    SplitPids(s, i, newPid, s.rootId, s.pageIds + {newPid});
    var ids := {s.t.leaves[i].pid, newPid};
    var n := SplitParent(s, i, newPid, sep, s.rootId);
    OneWritten(split, n, s.pageSize);
    SameButTwice(s.pages, split, pages, ids, {s.rootId});
    KeptOutside(s.others, s.pages, pages, ids + {s.rootId});
    RootReadBack(s.rootId, n.keys, n.children, s.pageSize);
  }

  lemma SplitWrites(s: State, i: nat, newPid: nat, rootId: nat, split: seq<seq<Byte>>, taken: seq<seq<Byte>>,
                    pages: seq<seq<Byte>>)
    requires PageSizeOk(s.pageSize) && i < |s.t.leaves| && LeafShape(s.t.leaves[i]) && |s.t.leaves[i].keys| >= 2
    requires rootId !in {s.t.leaves[i].pid, newPid}
    requires LeavesHeld(split, SplitSub(s.t.leaves[i], newPid).leaves)
    requires SameBut(s.pages, split, {s.t.leaves[i].pid, newPid}) && SameBut(split, taken, {rootId})
    requires SameBut(taken, pages, {rootId})
    ensures LeavesHeld(pages, SplitSub(s.t.leaves[i], newPid).leaves)
    ensures SameBut(s.pages, pages, {s.t.leaves[i].pid, newPid, rootId})
  {
    var a := {s.t.leaves[i].pid, newPid};
    SplitContents(s.t.leaves[i], newPid);
    hide LeavesHeld, SameBut, SplitSub;
    SameButTwice(split, taken, pages, {rootId}, {rootId});
    assert {rootId} + {rootId} == {rootId};
    SameButTwice(s.pages, split, pages, a, {rootId});
    assert a + {rootId} == {s.t.leaves[i].pid, newPid, rootId};
    StillHeld(split, pages, {rootId}, SplitSub(s.t.leaves[i], newPid).leaves);
  }

  /** The pages that a split writes: only the split leaf and the root are the tree's, and no page is someone else's. */
  lemma SplitPids(s: State, i: nat, newPid: nat, rootId: nat, pageIds: set<nat>)
    requires Whole(s, i) && i < |s.t.leaves| && SplitRootId(s, newPid, rootId, pageIds)
    requires exists free, pageCount :: Accounted(pageIds, free, s.others, pageCount)
    ensures newPid !in PidSet(s.t.leaves) && rootId !in {s.t.leaves[i].pid, newPid}
    ensures {s.t.leaves[i].pid, newPid, rootId} * PidSet(s.t.leaves) <= {s.t.leaves[i].pid}
    ensures s.others !! {s.t.leaves[i].pid, newPid, rootId} && forall p :: p in s.others ==> p < |s.pages|
  {
    hide LeavesHeld, Represents, Holds, Sized, Shape;
    assert s.t.leaves[i].pid in PidSet(s.t.leaves);
    if |s.t.leaves| == 1 {
      OneContents(s.t.leaves[0]);
      assert s.t.leaves == [s.t.leaves[0]];
    }
  }

  lemma SplitRooted(s: State, i: nat, newPid: nat, sep: int, rootId: nat, pages: seq<seq<Byte>>, free: seq<nat>,
                    pageIds: set<nat>)
    requires Whole(s, i) && i < |s.t.leaves| && |s.t.leaves| == |s.t.seps| + 1 && LeafShape(s.t.leaves[i])
    requires |s.t.leaves[i].keys| == s.order + 1
    requires SplitRootId(s, newPid, rootId, pageIds) && SplitSub(s.t.leaves[i], newPid).seps == [sep]
    requires newPid !in PidSet(s.t.leaves)
    requires Holds(pages, SplitParent(s, i, newPid, sep, rootId))
    ensures
      var s' := AfterSplit(s, i, newPid, pages, free, rootId, pageIds);
      |s'.t.leaves| == |s.t.leaves| + 1 && Rooted(s')
  {
    var sub := SplitSub(s.t.leaves[i], newPid);
    RootAfterSplit(s.t, i, newPid);
    LeafSplit(s.t, i, newPid, s.cut);
    SpliceAt(s.t, i, 1, sub);
    var t' := Splice(s.t, i, 1, sub);
    hide Splice, SplitSub, LeafShape, Shape, Sized, LeavesHeld, Accounted, Represents, Holds;
    assert RootNode(t', rootId) == SplitParent(s, i, newPid, sep, rootId);
    hide RootNode, SplitParent;
    SplitOwned(s, newPid, rootId, pageIds, t');
  }

  lemma SplitOwned(s: State, newPid: nat, rootId: nat, pageIds: set<nat>, t': Tree)
    requires s.t.leaves != [] && OwnPages(s.t, s.rootId, s.pageIds) && SplitRootId(s, newPid, rootId, pageIds)
    requires |t'.leaves| == |s.t.leaves| + 1 && PidSet(t'.leaves) == PidSet(s.t.leaves) + {newPid}
    ensures OwnPages(t', rootId, pageIds)
  {
    if |s.t.leaves| == 1 {
      OneContents(s.t.leaves[0]);
      assert s.t.leaves == [s.t.leaves[0]];
    }
  }

  lemma RootOwned(s: State, hurt: int)
    requires Whole(s, hurt)
    ensures s.rootId in s.pageIds && s.t.leaves != []
  {
    hide LeavesHeld, Represents, Holds, Sized, Accounted;
  }

  lemma WholeAccounted(s: State, hurt: int)
    requires Whole(s, hurt)
    ensures Limits(s) && Accounted(s.pageIds, s.free, s.others, s.pageCount)
  {
  }

  // ---- an underfull leaf borrows from a sibling, or is merged with it

  /** The two leaves at `i` and `i + 1`, of which `hurt` is one entry short. */
  ghost predicate ShortPair(s: State, hurt: int, i: nat) {
    && Whole(s, hurt) && i + 1 < |s.t.leaves| && hurt in {i, i + 1}
    && |s.t.leaves[hurt].keys| + 1 == s.minKeys
  }

  lemma PairFacts(s: State, hurt: int, i: nat)
    requires ShortPair(s, hurt, i)
    ensures LeafShape(s.t.leaves[i]) && LeafShape(s.t.leaves[i + 1]) && Siblings(s.t.leaves[i], s.t.leaves[i + 1])
    ensures |s.t.leaves| == |s.t.seps| + 1 && Limits(s) && Accounted(s.pageIds, s.free, s.others, s.pageCount)
    ensures s.minKeys <= |s.t.leaves[if hurt == i then i + 1 else i].keys| <= s.order
    ensures s.t.leaves[i].pid in s.pageIds && s.t.leaves[i + 1].pid in s.pageIds
    ensures s.t.leaves[i].pid != s.t.leaves[i + 1].pid
    ensures s.rootId in s.pageIds && s.rootId !in {s.t.leaves[i].pid, s.t.leaves[i + 1].pid}
    ensures s.t.leaves[i].next < U32_LIMIT && s.t.leaves[i + 1].next < U32_LIMIT
  {
    hide LeavesHeld, Represents, Holds;
    assert s.t.leaves[i].pid in PidSet(s.t.leaves) && s.t.leaves[i + 1].pid in PidSet(s.t.leaves);
    NextIsSmall(s, i);
    NextIsSmall(s, i + 1);
  }

  lemma BorrowedFromLeft(left: Node, sep: int, node: Node)
    requires LeafShape(left) && LeafShape(node) && |left.keys| >= 2
    ensures
      var (left', sep', node') := BorrowFromLeft(left, sep, node);
      && Reshared(left, node, left', node') && sep' == node'.keys[0]
      && |left'.keys| == |left.keys| - 1 && |node'.keys| == |node.keys| + 1
  {
    assert left.keys == Front(left.keys) + [Last(left.keys)];
    assert left.values == Front(left.values) + [Last(left.values)];
  }

  lemma BorrowedFromRight(node: Node, sep: int, right: Node)
    requires LeafShape(node) && LeafShape(right) && |right.keys| >= 2
    ensures
      var (node', sep', right') := BorrowFromRight(node, sep, right);
      && Reshared(node, right, node', right') && sep' == right'.keys[0]
      && |right'.keys| == |right.keys| - 1 && |node'.keys| == |node.keys| + 1
  {
    assert right.keys == [right.keys[0]] + right.keys[1..];
    assert right.values == [right.values[0]] + right.values[1..];
  }

  /** The two leaves and the root can be written after the exchange. */
  lemma ReshareWritable(s: State, hurt: int, i: nat, a: Node, b: Node)
    requires ShortPair(s, hurt, i) && Reshared(s.t.leaves[i], s.t.leaves[i + 1], a, b)
    requires |a.keys| <= s.order && |b.keys| <= s.order
    ensures Writable(a) && Writable(b) && |s.t.leaves| == |s.t.seps| + 1
    ensures Fits(a, s.pageSize) && Fits(b, s.pageSize)
    ensures Fits(Internal(s.rootId, s.t.seps[i := b.keys[0]], Pids(s.t.leaves)), s.pageSize)
    ensures Writable(Internal(s.rootId, s.t.seps[i := b.keys[0]], Pids(s.t.leaves)))
  {
    hide LeavesHeld, Represents, Holds, Sized, Linked, DistinctPids, Fits, Writable, Back, Reshared, LeafShape;
    PairFacts(s, hurt, i);
    ReshareLeaves(s, i, a, b);
    ChildrenAreSmall(s);
    hide Accounted, OwnPages, Shape;
    RootWritable(s.rootId, s.t.seps[i := b.keys[0]], Pids(s.t.leaves), s.pageSize);
  }

  lemma ReshareLeaves(s: State, i: nat, a: Node, b: Node)
    requires PageSizeOk(s.pageSize) && Ordered(s.t) && i + 1 < |s.t.leaves| && EntriesRoom(s.pageSize, s.order + 1)
    requires Reshared(s.t.leaves[i], s.t.leaves[i + 1], a, b) && |a.keys| <= s.order && |b.keys| <= s.order
    requires s.t.leaves[i].pid < U32_LIMIT && s.t.leaves[i + 1].pid < U32_LIMIT
    requires s.t.leaves[i].next < U32_LIMIT && s.t.leaves[i + 1].next < U32_LIMIT
    ensures Fits(a, s.pageSize) && Fits(b, s.pageSize) && Writable(a) && Writable(b)
    ensures b.keys != [] && IsI64(b.keys[0])
  {
    hide InBand, Fits, Writable, Back, NodePage, NodeOfPage;
    ResharedOk(s.t, i, a, b);
    ResharedShapes(s.t, i, a, b);
    LeafWritable(a, s.pageSize);
    LeafWritable(b, s.pageSize);
  }

  lemma ResharedShapes(t: Tree, i: nat, a: Node, b: Node)
    requires Ordered(Tree([if b.keys == [] then 0 else b.keys[0]], [a, b]))
    ensures LeafShape(a) && LeafShape(b)
  {
    var leaves := [a, b];
    assert leaves[0] == a && leaves[1] == b;
  }

  /** Both leaves and the root above them have been written: the exchange is complete. */
  lemma ReshareComplete(s: State, hurt: int, i: nat, a: Node, b: Node, pages: seq<seq<Byte>>)
    requires ShortPair(s, hurt, i) && Reshared(s.t.leaves[i], s.t.leaves[i + 1], a, b) && |s.t.leaves| == |s.t.seps| + 1
    requires s.minKeys <= |a.keys| <= s.order && s.minKeys <= |b.keys| <= s.order
    requires SameBut(s.pages, pages, {a.pid, b.pid, s.rootId}) && |pages| == |s.pages|
    requires Holds(pages, a) && Holds(pages, b)
    requires Holds(pages, Internal(s.rootId, s.t.seps[i := b.keys[0]], Pids(s.t.leaves)))
    ensures Whole(AfterReshare(s, i, a, b, pages), -1) && Kept(s.others, s.pages, pages)
  {
    hide Whole, Holds, Shape;
    PairFacts(s, hurt, i);
    WholeHeld(s, hurt);
    OwnedKept(s, s.pages, pages, {a.pid, b.pid, s.rootId});
    WholeSplit(s, hurt);
    ReshareDone(s, hurt, i, a, b, pages);
  }

  lemma WholeSplit(s: State, hurt: int)
    requires Whole(s, hurt)
    ensures Grown(s, hurt) && s.t.leaves != [] && Rooted(s)
  {
  }

  lemma WholeHeld(s: State, hurt: int)
    requires Whole(s, hurt)
    ensures |s.pages| == s.pageCount && forall p :: p in s.others ==> p < |s.pages|
  {
  }

  /** Writing only pages of the tree leaves everyone else's as they are. */
  lemma OwnedKept(s: State, pages: seq<seq<Byte>>, pages': seq<seq<Byte>>, ids: set<nat>)
    requires Accounted(s.pageIds, s.free, s.others, s.pageCount) && ids <= s.pageIds
    requires |pages| == s.pageCount && SameBut(pages, pages', ids)
    ensures Kept(s.others, pages, pages')
  {
  }

  lemma ThreeWritten(pages: seq<seq<Byte>>, a: Node, b: Node, c: Node, pageSize: nat)
    requires Fits(a, pageSize) && Fits(b, pageSize) && Fits(c, pageSize)
    requires a.pid < |pages| && b.pid < |pages| && c.pid < |pages| && a.pid != b.pid && c.pid !in {a.pid, b.pid}
    ensures
      var pages' := pages[a.pid := NodePage(a, pageSize)][b.pid := NodePage(b, pageSize)]
                         [c.pid := NodePage(c, pageSize)];
      && |pages'| == |pages| && SameBut(pages, pages', {a.pid, b.pid, c.pid})
      && Holds(pages', a) && Holds(pages', b) && Holds(pages', c)
  {
    hide Writable, NodePage, NodeOfPage, NodeSize;
    FitsReads(a, pageSize);
    FitsReads(b, pageSize);
    FitsReads(c, pageSize);
  }

  lemma JoinedToLeft(left: Node, sep: int, node: Node)
    requires LeafShape(left) && LeafShape(node)
    ensures
      var a := JoinToLeft(left, sep, node);
      Merged(left, node, a) && a.pid == left.pid && |a.keys| == |left.keys| + |node.keys|
  {
  }

  lemma JoinedToRight(node: Node, sep: int, right: Node)
    requires LeafShape(node) && LeafShape(right)
    ensures
      var a := JoinToRight(node, sep, right);
      Merged(node, right, a) && a.pid == right.pid && |a.keys| == |node.keys| + |right.keys|
  {
  }

  /** The merged leaf `a`, and the leaf `gone` whose page is given back. */
  ghost predicate MergeOf(s: State, i: nat, a: Node, gone: nat)
    requires i + 1 < |s.t.leaves|
  {
    && Merged(s.t.leaves[i], s.t.leaves[i + 1], a)
    && ((a.pid == s.t.leaves[i].pid && gone == s.t.leaves[i + 1].pid)
        || (i == 0 && a.pid == s.t.leaves[1].pid && gone == s.t.leaves[0].pid))
  }

  ghost function MergedParent(s: State, i: nat, a: Node): Node
    requires i + 1 < |s.t.leaves| && |s.t.leaves| == |s.t.seps| + 1
  {
    var t' := Splice(s.t, i, 2, Tree([], [a]));
    Internal(s.rootId, t'.seps, Pids(t'.leaves))
  }

  lemma MergeWritable(s: State, hurt: int, i: nat, a: Node, gone: nat)
    requires ShortPair(s, hurt, i) && MergeOf(s, i, a, gone) && |a.keys| <= s.order
    ensures |s.t.leaves| == |s.t.seps| + 1 && Writable(a) && Writable(MergedParent(s, i, a))
    ensures Fits(a, s.pageSize) && Fits(MergedParent(s, i, a), s.pageSize)
    ensures a.pid in s.pageIds && gone in s.pageIds && a.pid != gone && s.rootId !in {a.pid, gone}
  {
    hide LeavesHeld, Represents, Holds, Sized, InBand, Linked, DistinctPids, Splice, Fits, Writable, Back;
    PairFacts(s, hurt, i);
    MergedOk(s.t, i, a);
    MergedShape(a);
    MergedParts(s, i, a);
    LeafWritable(a, s.pageSize);
    RootWritable(s.rootId, MergedParent(s, i, a).keys, MergedParent(s, i, a).children, s.pageSize);
  }

  lemma MergedShape(a: Node)
    requires Ordered(Tree([], [a]))
    ensures LeafShape(a)
  {
    assert [a][0] == a;
  }

  lemma MergedParts(s: State, i: nat, a: Node)
    requires Limits(s) && Ordered(s.t) && i + 1 < |s.t.leaves|
    requires Accounted(s.pageIds, s.free, s.others, s.pageCount) && OwnPages(s.t, s.rootId, s.pageIds)
    requires a.pid in {s.t.leaves[i].pid, s.t.leaves[i + 1].pid}
    ensures var p := MergedParent(s, i, a);
            && |p.keys| == |s.t.seps| - 1 && |p.children| == |s.t.leaves| - 1
            && AllI64(p.keys) && AllBelow(p.children, U32_LIMIT)
  {
    hide LeafShape, Below, AtLeast, Splice, Accounted, OwnPages;
    RootAfterMerge(s.t, i, a);
    ChildrenAreSmall(s);
  }

  /** The file after a merge: the merged leaf and the root have been written, and a page has been freed. */
  lemma MergeComplete(s: State, hurt: int, i: nat, a: Node, gone: nat, pages: seq<seq<Byte>>, free: seq<nat>)
    requires ShortPair(s, hurt, i) && MergeOf(s, i, a, gone)
    requires s.minKeys <= |a.keys| <= s.order && |s.t.leaves| == |s.t.seps| + 1
    requires SameBut(s.pages, pages, {a.pid, gone, s.rootId}) && |pages| == |s.pages| && free == [gone] + s.free
    requires Holds(pages, a) && Holds(pages, MergedParent(s, i, a))
    ensures
      var s' := AfterMerge(s, i, a, pages, free, s.pageIds - {gone});
      && Grown(s', -1) && |s'.t.leaves| == |s.t.leaves| - 1 && s'.rootId !in PidSet(s'.t.leaves)
      && s'.pageIds == PidSet(s'.t.leaves) + {s'.rootId}
    ensures Kept(s.others, s.pages, pages)
  {
    hide LeafShape, Represents, LeavesHeld, Kept, Splice, Shape, Sized, Merged, Siblings, Holds, SameBut;
    var ids := {a.pid, gone, s.rootId};
    PairFacts(s, hurt, i);
    AccountedRelease(s.pageIds, s.free, s.others, s.pageCount, gone);
    hide Accounted;
    MergeKept(s, hurt, pages, ids);
    MergeDone(s, hurt, i, a, gone, pages, free, s.pageIds - {gone});
  }

  lemma MergeKept(s: State, hurt: int, pages: seq<seq<Byte>>, ids: set<nat>)
    requires Whole(s, hurt) && SameBut(s.pages, pages, ids) && ids <= s.pageIds
    ensures Kept(s.others, s.pages, pages)
  {
    hide LeavesHeld, Represents, Rooted, SameBut, Shape, Sized;
    OwnedKept(s, s.pages, pages, ids);
  }

  lemma MergeWrites(pages: seq<seq<Byte>>, a: Node, gone: nat, freed: seq<Byte>, c: Node, pageSize: nat)
    requires Fits(a, pageSize) && Fits(c, pageSize)
    requires a.pid < |pages| && gone < |pages| && c.pid < |pages| && a.pid != gone && c.pid !in {a.pid, gone}
    ensures
      var pages' := pages[a.pid := NodePage(a, pageSize)][gone := freed][c.pid := NodePage(c, pageSize)];
      && |pages'| == |pages| && SameBut(pages, pages', {a.pid, gone, c.pid})
      && Holds(pages', a) && Holds(pages', c)
  {
    hide Writable, NodePage, NodeOfPage, NodeSize;
    FitsReads(a, pageSize);
    FitsReads(c, pageSize);
  }

  lemma ShrinkFacts(s: State)
    requires Grown(s, -1) && s.pageIds == PidSet(s.t.leaves) + {s.rootId}
    ensures 0 < s.rootId < s.pageCount == |s.pages| && s.rootId !in s.free && |s.t.leaves| == |s.t.seps| + 1
  {
    hide LeavesHeld, Represents, Sized;
    OwnedPage(s.pageIds, s.free, s.others, s.pageCount, s.rootId);
  }

  lemma UnshrunkComplete(s: State)
    requires Grown(s, -1) && s.rootId !in PidSet(s.t.leaves) && s.pageIds == PidSet(s.t.leaves) + {s.rootId}
    requires |s.t.leaves| > 1 && Holds(s.pages, Internal(s.rootId, s.t.seps, Pids(s.t.leaves)))
    ensures Whole(s, -1) && Kept(s.others, s.pages, s.pages)
  {
    hide LeavesHeld, Represents, Sized, Shape, Holds;
  }

  lemma ShrinkComplete(s: State, freed: seq<Byte>, pages: seq<seq<Byte>>, free: seq<nat>)
    requires Grown(s, -1) && |s.t.leaves| == 1 && s.rootId !in PidSet(s.t.leaves)
    requires s.pageIds == PidSet(s.t.leaves) + {s.rootId}
    requires s.rootId < |s.pages| && pages == s.pages[s.rootId := freed] && free == [s.rootId] + s.free
    ensures s.pageIds - {s.rootId} == {s.t.leaves[0].pid}
    ensures Whole(s.(pages := pages, free := free, rootId := s.t.leaves[0].pid, pageIds := s.pageIds - {s.rootId}), -1)
    ensures Kept(s.others, s.pages, pages)
  {
    hide LeavesHeld, Represents, Sized, Shape, Kept;
    OneContents(s.t.leaves[0]);
    assert s.t.leaves == [s.t.leaves[0]];
    AccountedRelease(s.pageIds, s.free, s.others, s.pageCount, s.rootId);
    OwnedKept(s, s.pages, pages, {s.rootId});
    ShrinkDone(s, pages, free);
  }

  /** Two leaves of the least size, one of them one entry short, fit into one. */
  lemma MinLimits(order: nat, minKeys: nat)
    requires 1 <= order && minKeys == Max(1, order / 2)
    ensures 1 <= minKeys && minKeys - 1 + minKeys <= order
  {
  }

  /** A leaf is the root exactly when it is the only leaf. */
  lemma LeafOrRoot(s: State, i: nat)
    requires Whole(s, -1) && i < |s.t.leaves|
    ensures s.t.leaves[i].pid == s.rootId <==> |s.t.leaves| == 1
  {
    hide LeavesHeld, Represents, Holds, Sized, Shape, Accounted;
    assert s.t.leaves[i].pid in PidSet(s.t.leaves);
  }

  /** A leaf that is within its limits after all. */
  lemma NotHurt(s: State, hurt: int)
    requires Whole(s, hurt) && 0 <= hurt < |s.t.leaves| && s.minKeys <= |s.t.leaves[hurt].keys| <= s.order
    ensures Whole(s, -1)
  {
    hide LeavesHeld, Represents, Shape, Accounted, Rooted;
  }
}
