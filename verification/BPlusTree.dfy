/** The B+ tree index, page by page, from `create` on. */
module BPlusTreeIndex {
  import opened Bytes
  import opened Storage
  import opened NodeCodec
  import opened NodeEdits
  import opened SearchTree
  import opened OrderedAnswers
  import opened TreePages
  import opened TreeState
  import opened TreeScan

  class BPlusTree {
    const store: FileStore
    const order: nat
    const minKeys: nat
    var rootId: nat
    var pageIds: set<nat>
    /** The separators and leaves that the pages hold, and the map they stand for. */
    ghost var t: Tree
    ghost var m: map<int, nat>
    /** A leaf that was split had lost its link, so the chain of leaves may end early. */
    ghost var cut: bool
    /** Pages in use that belong to someone else. */
    ghost var others: set<nat>

    /** The tree and its file as one value. */
    ghost function View(): State
      reads this, store
    {
      State(store.pageSize, order, minKeys, store.pages, store.pageCount, store.freeList,
            rootId, pageIds, others, t, cut, m)
    }

    /** Everything that holds between page writes, with leaf `hurt` (or none, -1) over or under its limits. */
    ghost predicate Core(hurt: int)
      reads this, store
    {
      store.Valid() && Whole(View(), hurt)
    }

    ghost predicate Valid()
      reads this, store
    {
      Core(-1)
    }

    /** The root's page has room for one more separator. */
    ghost predicate HasRoom()
      reads this
    {
      PageSizeOk(store.pageSize) && RootRoom(store.pageSize, |t.seps| + 1)
    }

    /** The key is new and the leaf in charge of it is full. */
    ghost predicate NeedsSplit(key: int)
      reads this
    {
      key !in m && exists i: nat :: i < |t.leaves| && IsChildIndex(t.seps, key, i) && |t.leaves[i].keys| == order
    }

    /** The page of a lone leaf, the key being new, has no room for one more entry. */
    ghost predicate Crowded(key: int)
      reads this
    {
      |t.leaves| == 1 && key !in m && PageSizeOk(store.pageSize) && !EntriesRoom(store.pageSize, |m| + 1)
    }

    /** The key can be stored: there is room for the entry, and for a separator if one is needed. */
    ghost predicate Takes(key: int)
      reads this
    {
      !Crowded(key) && (NeedsSplit(key) ==> HasRoom())
    }

    /** Storing the key splits a leaf that links to another one, and whose link is cut off before the split. */
    ghost predicate Severs(key: int)
      reads this
    {
      && key !in m && PageSizeOk(store.pageSize) && !LeafRoom(store.pageSize, order + 1)
      && exists i: nat ::
           i < |t.leaves| && IsChildIndex(t.seps, key, i) && |t.leaves[i].keys| == order && t.leaves[i].next != 0
    }

    /** The root's page does not read as a node, so that every operation raises. */
    ghost predicate Lost()
      reads this, store
    {
      && store.Valid() && rootId < store.pageCount && NodeOfPage(rootId, store.pages[rootId]) == None
      && forall p :: p in others ==> p < |store.pages|
    }

    /** Opens the tree below `rootId`; its own pages are taken to be the root page alone. */
    constructor (store: FileStore, rootId: nat, order: nat, ghost t: Tree, ghost m: map<int, nat>,
                 ghost others: set<nat>)
      ensures this.store == store && this.order == order && minKeys == Max(1, order / 2)
      ensures this.rootId == rootId && pageIds == {rootId} && this.t == t && this.m == m && this.others == others
      ensures !cut
    {
      this.store, this.order, minKeys := store, order, Max(1, order / 2);
      this.rootId, pageIds := rootId, {rootId};
      this.t, this.m, this.others, this.cut := t, m, others, false;
    }

    /** An empty tree on a page of its own; all pages in use before belong to others. */
    static method Create(store: FileStore, order: nat) returns (tree: BPlusTree)
      requires store.Valid() && 1 <= order
      requires store.freeList == [] ==> store.pageCount < U32_LIMIT
      modifies store
      ensures fresh(tree) && tree.Valid() && tree.m == map[] && tree.store == store && tree.order == order && !tree.cut
      ensures |tree.t.leaves| == 1
      ensures tree.others == InUse(old(store.pageCount), old(store.freeList))
      ensures Kept(tree.others, old(store.pages), store.pages)
      ensures store.pageCount <= old(store.pageCount) + 1
      ensures store.pageCount > old(store.pageCount) ==> store.freeList == []
    {
      hide InUse, Accounted, Kept, NodePage, Writable, Whole, RawPage, NodeOfPage;
      ghost var others := InUse(store.pageCount, store.freeList);
      var pid := TakePage(store, {}, others);
      assert {} + {pid} == {pid};
      var node := Leaf(pid, [], [], 0);
      LeafWritable(node, store.pageSize);
      WriteNode(store, node);
      KeptOutside(others, old(store.pages), store.pages, {pid});
      tree := new BPlusTree(store, pid, order, Tree([], [node]), map[], others);
      EmptyWhole(tree.View());
    }

    /** Takes a page of the file, for a tree that has the pages `ids`. */
    static method TakePage(store: FileStore, ghost ids: set<nat>, ghost others: set<nat>) returns (pid: nat)
      requires store.Valid() && Accounted(ids, store.freeList, others, store.pageCount)
      requires store.freeList == [] ==> store.pageCount < U32_LIMIT
      modifies store
      ensures store.Valid() && Accounted(ids + {pid}, store.freeList, others, store.pageCount)
      ensures pid !in ids && pid !in others && pid !in store.freeList && 0 < pid < store.pageCount
      ensures SameBut(old(store.pages), store.pages, {pid})
      ensures forall p :: p in others ==> p < |old(store.pages)|
      ensures old(store.pageCount) <= store.pageCount <= old(store.pageCount) + 1
      ensures store.pageCount > old(store.pageCount) ==> old(store.freeList) == [] == store.freeList
      ensures old(store.freeList) == [] ==> store.freeList == []
      ensures PageSizeOk(store.pageSize) && |store.pages| == store.pageCount <= U32_LIMIT
    {
      hide RawPage;
      ghost var free, count := store.freeList, store.pageCount;
      pid := store.AllocPage(IndexPageType);
      AccountedTake(ids, free, others, count, pid);
    }

    /** Node `n` can be read from its page. */
    ghost predicate Readable(n: Node)
      reads store
    {
      store.Valid() && Holds(store.pages, n)
    }

    /** All nodes of the tree can be read; the root names the leaves. */
    lemma NodesReadable(hurt: int)
      requires Core(hurt)
      ensures |t.leaves| == |t.seps| + 1 && (|t.leaves| == 1 <==> RootNode(t, rootId).isLeaf)
      ensures store.Valid() && Readable(RootNode(t, rootId)) && RootNode(t, rootId).pid == rootId
      ensures forall i {:trigger t.leaves[i]} :: 0 <= i < |t.leaves| ==> t.leaves[i].isLeaf && Readable(t.leaves[i])
    {
      hide Accounted, FreeChain, Represents, Holds;
    }

    /** Reads the node that a page is known to hold. */
    method Fetch(pid: nat, ghost n: Node) returns (r: Node)
      requires Readable(n) && n.pid == pid
      ensures r == n
    {
      var o := ReadNode(store, pid);
      r := o.value;
    }

    /** The root's page reads as the root. */
    lemma RootReads(hurt: int)
      requires Core(hurt)
      ensures store.Valid() && rootId < store.pageCount
      ensures NodeOfPage(rootId, store.pages[rootId]) == Some(RootNode(t, rootId))
      ensures |t.leaves| == 1 ==> RootNode(t, rootId) == t.leaves[0] && HasRoom()
    {
      hide Core, NodeOfPage;
      NodesReadable(hurt);
    }

    /** Reads the root, or raises. */
    method FetchRoot() returns (root: Option<Node>)
      requires Valid() || Lost()
      ensures Lost() ==> root == None
      ensures Valid() ==> t.leaves != [] && root == Some(RootNode(t, rootId))
    {
      hide Core, NodeOfPage, FileStore.Valid;
      if Valid() {
        RootReads(-1);
        NodesReadable(-1);
      }
      root := ReadNode(store, rootId);
    }

    /** One step down: the child of the root that is in charge of `key`. */
    method Descend(node: Node, key: int) returns (child: Node, childIdx: nat)
      requires Valid() && |t.leaves| > 1 && node == RootNode(t, rootId)
      ensures IsChildIndex(t.seps, key, childIdx) && child == t.leaves[childIdx] && child.isLeaf
    {
      NodesReadable(-1);
      hide Core, Readable;
      childIdx := ChildIndex(node.keys, key);
      child := Fetch(node.children[childIdx], t.leaves[childIdx]);
    }

    /** From the root down: the leaf in charge of `key`, and the nodes passed on the way with the child taken. */
    method FindLeafWithPath(key: int) returns (found: Option<Node>, path: seq<(Node, nat)>, ghost i: nat)
      requires Valid() || Lost()
      ensures Lost() ==> found == None
      ensures Valid() ==> found.Some? && IsChildIndex(t.seps, key, i) && found.value == t.leaves[i]
      ensures Valid() ==> path == if |t.leaves| == 1 then [] else [(RootNode(t, rootId), i)]
    {
      hide Core, Lost, Readable;
      var root := FetchRoot();
      path, i := [], 0;
      if root.None? {
        return None, path, i;
      }
      var leaf := root.value;
      NodesReadable(-1);
      while !leaf.isLeaf
        invariant path == [] ==> leaf == RootNode(t, rootId) && i == 0
        invariant path != [] ==> |t.leaves| > 1 && path == [(RootNode(t, rootId), i)]
        invariant path != [] ==> IsChildIndex(t.seps, key, i) && leaf == t.leaves[i] && leaf.isLeaf
        decreases !leaf.isLeaf
      {
        var child, childIdx := Descend(leaf, key);
        path := path + [(leaf, childIdx)];
        leaf, i := child, childIdx;
      }
      found := Some(leaf);
    }

    method FindLeaf(key: int) returns (found: Option<Node>, ghost i: nat)
      requires Valid() || Lost()
      ensures Lost() ==> found == None
      ensures Valid() ==> found.Some? && IsChildIndex(t.seps, key, i) && found.value == t.leaves[i]
    {
      hide Core, Lost;
      var path;
      found, path, i := FindLeafWithPath(key);
    }

    // ---- queries

    lemma LeafOfKey(key: int, i: nat)
      requires Valid() && IsChildIndex(t.seps, key, i)
      ensures i < |t.leaves| && LeafShape(t.leaves[i]) && (key in m <==> key in t.leaves[i].keys)
      ensures forall j :: 0 <= j < |t.leaves[i].keys| ==>
                t.leaves[i].keys[j] in m && m[t.leaves[i].keys[j]] == t.leaves[i].values[j]
    {
      hide LeavesHeld, Accounted, Sized, Rooted, FileStore.Valid;
      SeekFinds(t, m, key, i);
    }

    /** The rowid stored for the key, or nothing. */
    method Seek(key: int) returns (r: Option<seq<nat>>)
      requires Valid() || Lost()
      ensures Lost() ==> r == None
      ensures Valid() ==> r == Some(if key in m then [m[key]] else [])
    {
      hide Core, Lost, IsChildIndex;
      var found, i := FindLeaf(key);
      if found.None? {
        return None;
      }
      var leaf := found.value;
      LeafOfKey(key, i);
      var j := FindKey(leaf.keys, key);
      r := Some(if j.Some? then [leaf.values[j.value]] else []);
    }

    /** A link names the next leaf or is 0; at all but the last leaf it is 0 only in a chain that was cut. */
    lemma ChainLink(c: nat)
      requires Valid() && c < |t.leaves|
      ensures t.leaves[c].next != 0 ==> c + 1 < |t.leaves| && t.leaves[c].next == t.leaves[c + 1].pid
      ensures t.leaves[c].next == 0 ==> c + 1 == |t.leaves| || cut
    {
      hide LeavesHeld, Represents, Sized, Ordered, FileStore.Valid;
      assert LinkOk(t.leaves[c].next, NextPid(t.leaves, c), cut);
      if c + 1 < |t.leaves| {
        LeafIsOwned(View(), c + 1);
      }
    }

    lemma UncutChain()
      requires Valid()
      ensures !cut ==> !Broken(t.leaves)
    {
      hide Core;
      if !cut && Broken(t.leaves) {
        var c :| 0 <= c < |t.leaves| - 1 && t.leaves[c].next == 0;
        ChainLink(c);
      }
    }

    /** Adds the wanted entries of one leaf of `p`; `stop` when a key past the range was met. */
    method ScanLeaf(result: seq<nat>, leaf: Node, ghost p: Tree, ghost c: nat, lo: int, hi: int, inclusive: bool)
      returns (result': seq<nat>, stop: bool)
      requires Ordered(p) && Leaves(p.leaves) && c < |p.leaves| && leaf == p.leaves[c]
      ensures stop ==> result' == result + Rest(p.leaves, c, 0, Between(lo, hi, inclusive))
      ensures !stop && c + 1 == |p.leaves| ==> result' == result + Rest(p.leaves, c, 0, Between(lo, hi, inclusive))
      ensures !stop && c + 1 < |p.leaves| ==>
                (result' + Rest(p.leaves, c + 1, 0, Between(lo, hi, inclusive))
                 == result + Rest(p.leaves, c, 0, Between(lo, hi, inclusive)))
    {
      hide Rest, Ordered;
      assert LeafShape(leaf);
      result' := result;
      for j := 0 to |leaf.keys|
        invariant result + Rest(p.leaves, c, 0, Between(lo, hi, inclusive))
               == result' + Rest(p.leaves, c, j, Between(lo, hi, inclusive))
      {
        NextEntry(p.leaves, c, j, Between(lo, hi, inclusive));
        var key := leaf.keys[j];
        if if inclusive then lo <= key <= hi else lo < key < hi {
          result' := result' + [leaf.values[j]];
        } else if hi < key {
          NothingAfter(p, c, j, lo, hi, inclusive);
          assert result' + [] == result';
          return result', true;
        }
      }
      NextLeaf(p.leaves, c, Between(lo, hi, inclusive));
      assert result' + [] == result';
      stop := false;
    }

    /** The leaf that the link names, if it names one. */
    method FollowLink(leaf: Node, ghost c: nat) returns (next: Option<Node>)
      requires Valid() && c < |t.leaves| && leaf == t.leaves[c]
      ensures if leaf.next == 0 then next == None else c + 1 < |t.leaves| && next == Some(t.leaves[c + 1])
    {
      ChainLink(c);
      NodesReadable(-1);
      hide Core, Readable;
      if leaf.next == 0 {
        return None;
      }
      var n := Fetch(leaf.next, t.leaves[c + 1]);
      next := Some(n);
    }

    /** The walk along the chain from a leaf on, up to its end or to a key past the range. */
    method WalkRange(first: Node, ghost i: nat, ghost e: nat, lo: int, hi: int, inclusive: bool)
      returns (result: seq<nat>)
      requires Valid() && i < |t.leaves| && first == t.leaves[i] && e == ChainEnd(t.leaves, i)
      requires |t.leaves| == |t.seps| + 1
      requires Ordered(FirstLeaves(t, e)) && Leaves(t.leaves[..e])
      ensures result == Rest(t.leaves[..e], i, 0, Between(lo, hi, inclusive))
    {
      hide Valid, Core, Rest, Ordered, Leaves;
      var leaf := first;
      ghost var p := FirstLeaves(t, e);
      ghost var c := i;
      result := [];
      while true
        invariant c < e && leaf == t.leaves[c] && e == ChainEnd(t.leaves, c)
        invariant Rest(p.leaves, i, 0, Between(lo, hi, inclusive))
               == result + Rest(p.leaves, c, 0, Between(lo, hi, inclusive))
        decreases e - c
      {
        var stop;
        result, stop := ScanLeaf(result, leaf, p, c, lo, hi, inclusive);
        if stop {
          return;
        }
        var next := FollowLink(leaf, c);
        if next.None? {
          return;
        }
        leaf, c := next.value, c + 1;
      }
    }

    lemma StartOfRange(lo: int, hi: int, inclusive: bool, c: nat)
      requires Valid() && IsChildIndex(t.seps, lo, c)
      ensures c < |t.leaves| == |t.seps| + 1
      ensures
        var e := ChainEnd(t.leaves, c);
        && Ordered(FirstLeaves(t, e)) && Leaves(t.leaves[..e])
        && Answers(Reached(t.leaves, e, m), Between(lo, hi, inclusive),
                   Rest(t.leaves[..e], c, 0, Between(lo, hi, inclusive)))
      ensures !Broken(t.leaves) ==> Reached(t.leaves, ChainEnd(t.leaves, c), m) == m
    {
      hide LeavesHeld, Sized, Accounted, Rooted, FileStore.Valid, Keys, Rowids, LeafShape, Reached, Rest, Linked,
           DistinctPids;
      var e := ChainEnd(t.leaves, c);
      FirstOrdered(t, e);
      FirstAnswer(t, m, lo, hi, inclusive, c, e);
      if !Broken(t.leaves) {
        UnbrokenEnd(t.leaves, c);
        ReachedAll(t.leaves, m);
      }
    }

    /**
      * The rowids of all keys in the range that the chain reaches from the leaf in charge of `lo`, in key order;
      * these are all when the chain is not broken.
      */
    method Range(lo: int, hi: int, inclusive: bool) returns (r: Option<seq<nat>>)
      requires Valid() || Lost()
      ensures Lost() ==> r == None
      ensures Valid() ==>
                && r.Some?
                && exists c: nat ::
                     && c < |t.leaves| && IsChildIndex(t.seps, lo, c)
                     && Answers(Reached(t.leaves, ChainEnd(t.leaves, c), m), Between(lo, hi, inclusive), r.value)
      ensures Valid() && !Broken(t.leaves) ==> Answers(m, Between(lo, hi, inclusive), r.value)
    {
      hide Core, Lost, Rest, Answers, Reached, Ordered, Leaves, IsChildIndex, Broken;
      var found, i := FindLeaf(lo);
      if found.None? {
        return None;
      }
      StartOfRange(lo, hi, inclusive, i);
      var result := WalkRange(found.value, i, ChainEnd(t.leaves, i), lo, hi, inclusive);
      r := Some(result);
    }

    /** The first leaf: down the first children. */
    method FirstLeaf() returns (first: Option<Node>)
      requires Valid() || Lost()
      ensures Lost() ==> first == None
      ensures Valid() ==> t.leaves != [] && first == Some(t.leaves[0])
    {
      hide Core, Lost, Readable;
      first := FetchRoot();
      if first.None? {
        return;
      }
      NodesReadable(-1);
      var node := first.value;
      while !node.isLeaf
        invariant node == RootNode(t, rootId) || (node == t.leaves[0] && node.isLeaf)
        decreases !node.isLeaf
      {
        if node.children == [] {
          break;
        }
        node := Fetch(node.children[0], t.leaves[0]);
      }
      first := Some(node);
    }

    /** All rowids that the chain reaches, in key order; these are all if and only if the chain is not broken. */
    method FullScan() returns (r: Option<seq<nat>>)
      requires Valid() || Lost()
      ensures Lost() ==> r == None
      ensures Valid() ==>
                && r.Some? && t.leaves != []
                && Answers(Reached(t.leaves, ChainEnd(t.leaves, 0), m), Everything(), r.value)
      ensures Valid() ==> (Answers(m, Everything(), r.value) <==> !Broken(t.leaves))
      ensures Valid() ==> if Broken(t.leaves) then |r.value| < |m| else |r.value| == |m|
    {
      hide Core, Lost, Answers, Reached, Broken;
      var first := FirstLeaf();
      if first.None? {
        return None;
      }
      var result := WalkAll(first.value);
      ScanAnswers();
      r := Some(result);
    }

    /** The walk along the chain. */
    method WalkAll(first: Node) returns (result: seq<nat>)
      requires Valid() && t.leaves != [] && first == t.leaves[0]
      ensures result == Rowids(t.leaves[..ChainEnd(t.leaves, 0)])
    {
      hide Valid, Core, Rowids;
      var node := first;
      ghost var c, e := 0, ChainEnd(t.leaves, 0);
      result := [];
      assert t.leaves[..e][0..] == t.leaves[..e];
      while true
        invariant c < e && node == t.leaves[c] && e == ChainEnd(t.leaves, c)
        invariant Rowids(t.leaves[..e]) == result + Rowids(t.leaves[..e][c..])
        decreases e - c
      {
        RowidsStep(t.leaves[..e], c, result);
        result := result + node.values;
        var next := FollowLink(node, c);
        if next.None? {
          return;
        }
        node, c := next.value, c + 1;
      }
    }

    lemma ScanAnswers()
      requires Valid()
      ensures t.leaves != []
      ensures
        var e := ChainEnd(t.leaves, 0);
        && Answers(Reached(t.leaves, e, m), Everything(), Rowids(t.leaves[..e]))
        && (Answers(m, Everything(), Rowids(t.leaves[..e])) <==> !Broken(t.leaves))
        && if Broken(t.leaves) then |Rowids(t.leaves[..e])| < |m| else |Rowids(t.leaves[..e])| == |m|
    {
      hide LeavesHeld, Accounted, Rooted, FileStore.Valid, Keys, Rowids, LeafShape, Reached, Linked, DistinctPids,
           Below, AtLeast, Answers;
      var e := ChainEnd(t.leaves, 0);
      FirstScan(t, m, e);
      if Broken(t.leaves) {
        var b :| 0 <= b < |t.leaves| - 1 && t.leaves[b].next == 0;
        BrokenEnd(t.leaves, 0, b);
        assert minKeys <= |t.leaves[e].keys|;
        BrokenMisses(t, m, e, Rowids(t.leaves[..e]));
      } else {
        UnbrokenEnd(t.leaves, 0);
        ReachedAll(t.leaves, m);
      }
      ScanLength(t, m, e);
    }

    /** The height is 1 for a root leaf and 2 otherwise. */
    method Height() returns (r: Option<nat>)
      requires Valid() || Lost()
      ensures Lost() ==> r == None
      ensures Valid() ==> r == Some(if |t.leaves| == 1 then 1 else 2)
    {
      hide Core, Lost, Readable;
      var root := FetchRoot();
      if root.None? {
        return None;
      }
      NodesReadable(-1);
      var h: nat, node := 1, root.value;
      while !node.isLeaf
        invariant (h == 1 && node == RootNode(t, rootId)) || (h == 2 && |t.leaves| > 1 && node.isLeaf)
        decreases !node.isLeaf
      {
        if node.children == [] {
          break;
        }
        node := Fetch(node.children[0], t.leaves[0]);
        h := h + 1;
      }
      r := Some(h);
    }

    // ---- insertion

    /** Writes the leaf at `i` with other entries; a lone leaf whose page has no room for them is lost. */
    method WriteLeaf(ghost i: nat, n: Node, ghost m': map<int, nat>)
      requires Valid() && Replaces(View(), i, n) && Stands(View(), i, n.keys, n.values, m')
      requires PageSizeOk(store.pageSize) && 11 + 19 * |n.keys| < U16_LIMIT
      modifies this`t, this`m, this`cut, store`pages
      ensures Kept(others, old(store.pages), store.pages)
      ensures EntriesRoom(store.pageSize, |n.keys|) ==>
                && Core(i) && t == Tree(old(t.seps), old(t.leaves)[i := Back(n, store.pageSize)]) && m == m'
                && cut == (old(cut) || Back(n, store.pageSize) != n)
                && (|n.keys| <= order && (|t.leaves| > 1 ==> minKeys <= |n.keys|) ==> Valid())
                && (|t.leaves| > 1 ==> RootNode(t, rootId) == old(RootNode(t, rootId)))
      ensures !EntriesRoom(store.pageSize, |n.keys|) ==> Lost() && |old(t.leaves)| == 1
    {
      hide Whole, NodePage, NodeOfPage, Stands, Kept, FileStore.Valid, Writable, RootNode, LeafShape, AtLeast, Below,
           Holds, EntriesRoom, Back;
      ghost var s := View();
      LeafCanBeWritten(s, -1, i, n);
      WholeAccounted(s, -1);
      OthersInFile(pageIds, store.freeList, others, store.pageCount);
      WholeKept(s, i, n);
      WriteNode(store, n);
      if EntriesRoom(store.pageSize, |n.keys|) {
        if |t.leaves| > 1 {
          BackPid(n, store.pageSize);
          SameRoot(t, i, Back(n, store.pageSize), rootId);
        }
        LeafWritten(s, i, n, m');
        t, m, cut := Tree(t.seps, t.leaves[i := Back(n, store.pageSize)]), m', cut || Back(n, store.pageSize) != n;
        assert View() == WithLeaf(s, i, n, m');
      }
    }

    /** Moves the upper half of an overfull leaf to a new page. */
    method SplitLeafPages(ghost i: nat, child: Node) returns (newPid: nat, sep: int)
      requires Core(i) && i < |t.leaves| && child == t.leaves[i] && |child.keys| == order + 1
      requires store.pageCount < U32_LIMIT
      modifies store, this`pageIds
      ensures store.Valid() && Accounted(pageIds, store.freeList, others, store.pageCount)
      ensures pageIds == old(pageIds) + {newPid} && newPid !in old(pageIds) && 0 < newPid < store.pageCount
      ensures LeafShape(child) && child.isLeaf && |child.values| == |child.keys| >= 2 && |t.leaves| == |t.seps| + 1
      ensures SplitSub(child, newPid).seps == [sep] && LeavesHeld(store.pages, SplitSub(child, newPid).leaves)
      ensures SameBut(old(store.pages), store.pages, {child.pid, newPid})
      ensures store.pageCount <= old(store.pageCount) + 1
      ensures store.pageCount > old(store.pageCount) ==> store.freeList == []
      ensures old(store.freeList) == [] ==> store.freeList == []
      ensures PageSizeOk(store.pageSize) && |store.pages| == store.pageCount <= U32_LIMIT
    {
      hide Whole, NodePage, Writable, LeavesHeld, FileStore.Valid, SameBut, LeafShape, Accounted, Fits, Holds;
      ghost var s := View();
      WholeAccounted(s, i);
      newPid := TakePage(store, pageIds, others);
      pageIds := pageIds + {newPid};
      SplitWritable(s, i, newPid);
      OwnedPage(pageIds, store.freeList, others, store.pageCount, child.pid);
      ghost var taken := store.pages;
      var (left, sep', right) := SplitNode(child, newPid);
      sep := sep';
      TwoWritten(store.pages, left, right, store.pageSize);
      WriteNode(store, left);
      WriteNode(store, right);
      SameButTwice(s.pages, taken, store.pages, {newPid}, {child.pid, newPid});
      assert {newPid} + {child.pid, newPid} == {child.pid, newPid};
      PairHeld(store.pages, left, right);
    }

    /** The root leaf is overfull: its upper half moves to a new leaf, and a new root is put above the two. */
    method SplitRoot(child: Node)
      requires Core(0) && |t.leaves| == 1 && child == t.leaves[0] && |child.keys| == order + 1
      requires HasRoom() && store.pageCount + 2 <= U32_LIMIT
      modifies this, store
      ensures Valid() && m == old(m) && cut == old(cut) && |t.leaves| == 2
      ensures others == old(others) && Kept(others, old(store.pages), store.pages)
      ensures store.pageCount > old(store.pageCount) ==> store.freeList == []
    {
      hide Whole, NodePage, LeafShape, LeavesHeld, SplitSub, SameBut, FileStore.Valid, Accounted, RootRoom, Kept,
           Splice, Holds, Writable, Fits;
      ghost var s := View();
      var newPid, sep := SplitLeafPages(0, child);
      ghost var split := store.pages;
      var newRoot := TakePage(store, pageIds, others);
      pageIds := pageIds + {newRoot};
      ghost var taken := store.pages;
      SplitParentWritable(s, 0, newPid, sep, newRoot);
      var root := Internal(newRoot, [sep], [child.pid, newPid]);
      assert root == SplitParent(s, 0, newPid, sep, newRoot);
      WriteNode(store, root);
      rootId := newRoot;
      t := Splice(t, 0, 1, SplitSub(child, newPid));
      OneWritten(taken, root, store.pageSize);
      SplitComplete(s, 0, newPid, sep, newRoot, split, taken, store.pages, store.freeList, pageIds);
      assert View() == AfterSplit(s, 0, newPid, store.pages, store.freeList, newRoot, pageIds);
    }

    /**
      * A leaf below the root is overfull: its upper half moves to a new leaf, which the root gets as a child.
      * When the root's page has no room for the new separator, the root is lost.
      */
    method SplitChild(parent: Node, childIdx: nat, child: Node) returns (parent': Node)
      requires Core(childIdx) && |t.leaves| > 1 && childIdx < |t.leaves| && parent == RootNode(t, rootId)
      requires child == t.leaves[childIdx] && |child.keys| == order + 1 && store.pageCount < U32_LIMIT
      modifies this, store
      ensures others == old(others) && Kept(others, old(store.pages), store.pages) && rootId == old(rootId)
      ensures |parent'.keys| == |old(t.seps)| + 1
      ensures if old(HasRoom()) then Valid() && m == old(m) && |t.leaves| == |old(t.leaves)| + 1 else Lost()
      ensures cut == old(cut)
      ensures old(HasRoom()) && child.next == 0 && childIdx + 1 < |old(t.leaves)| ==> Broken(t.leaves)
      ensures store.pageCount > old(store.pageCount) ==> store.freeList == []
      ensures store.pageCount <= old(store.pageCount) + 1
    {
      hide Whole, NodePage, LeafShape, LeavesHeld, SplitSub, SameBut, FileStore.Valid, Accounted, RootRoom, Kept,
           Splice, Holds, Writable, NodeOfPage, Fits, Broken;
      ghost var s := View();
      RootOwned(s, childIdx);
      var newPid, sep := SplitLeafPages(childIdx, child);
      ghost var split := store.pages;
      OwnedPage(pageIds, store.freeList, others, store.pageCount, rootId);
      SplitParentWritable(s, childIdx, newPid, sep, rootId);
      parent' := Internal(parent.pid, InsertAt(parent.keys, childIdx, sep),
                          InsertAt(parent.children, childIdx + 1, newPid));
      WriteNode(store, parent');
      if RootRoom(s.pageSize, |s.t.seps| + 1) {
        t := Splice(t, childIdx, 1, SplitSub(child, newPid));
        OneWritten(split, parent', store.pageSize);
        SplitComplete(s, childIdx, newPid, sep, rootId, split, split, store.pages, store.freeList, pageIds);
        assert View() == AfterSplit(s, childIdx, newPid, store.pages, store.freeList, s.rootId, pageIds);
        if child.next == 0 && childIdx + 1 < |s.t.leaves| {
          SplitBreaks(s.t, childIdx, newPid);
        }
      } else {
        SplitLost(s, childIdx, newPid, sep, split, store.pages, store.freeList);
        OthersInFile(pageIds, store.freeList, others, store.pageCount);
      }
    }

    lemma NothingWritten(hurt: int)
      requires Core(hurt)
      ensures Kept(others, store.pages, store.pages)
    {
      hide LeavesHeld, Represents, Shape, Sized, Rooted, FreeChain;
      KeptAll(others, store.pages);
    }

    /** At the top of a path: only a root that is an overfull leaf is split, and a root that is lost raises. */
    method SplitAtRoot(ghost hurt: int) returns (ok: bool)
      requires if hurt == -2 then Lost() else Core(hurt) && hurt == (if |t.leaves| == 1 then 0 else -1)
      requires hurt == 0 ==> |t.leaves[0].keys| == order + 1 && store.pageCount + 2 <= U32_LIMIT
      modifies this, store
      ensures others == old(others) && Kept(others, old(store.pages), store.pages)
      ensures store.pageCount > old(store.pageCount) ==> store.freeList == []
      ensures if hurt == -2 then !ok && Lost() else ok && Valid() && m == old(m) && cut == old(cut)
      ensures hurt == 0 ==> |t.leaves| == 2
      ensures hurt < 0 ==> View() == old(View())
      ensures hurt == 0 ==> old(HasRoom())
    {
      hide Core, Kept, HasRoom, NodeOfPage, RootNode;
      if hurt != -2 {
        NodesReadable(hurt);
        NothingWritten(hurt);
        RootReads(hurt);
      } else {
        KeptAll(others, store.pages);
      }
      var root := ReadNode(store, rootId);
      if root.None? {
        return false;
      }
      var child := root.value;
      if child.isLeaf && |child.keys| > order {
        SplitRoot(child);
      }
      ok := true;
    }

    /**
      * Splits the overfull leaf at the end of the path; for an empty path only a root that is a leaf is split.
      * `hurt` is the overfull leaf, -1 when there is none, and -2 when the root was lost before.
      */
    method SplitAndPropagate(path: seq<(Node, nat)>, ghost hurt: int) returns (ok: bool)
      requires if hurt == -2 then Lost() && path == []
               else Core(hurt) && (hurt >= 0 ==> store.pageCount + 2 <= U32_LIMIT)
      requires hurt >= 0 ==> hurt < |t.leaves| && |t.leaves[hurt].keys| == order + 1
      requires hurt == -2 || if path == [] then hurt == (if |t.leaves| == 1 then 0 else -1)
               else |t.leaves| > 1 && hurt >= 0 && path == [(RootNode(t, rootId), hurt)]
      modifies this, store
      ensures others == old(others) && Kept(others, old(store.pages), store.pages)
      ensures store.pageCount > old(store.pageCount) ==> store.freeList == []
      ensures hurt == -1 || (hurt >= 0 && old(HasRoom())) ==> ok && Valid() && m == old(m) && cut == old(cut)
      ensures hurt >= 0 && old(HasRoom()) ==> |t.leaves| == |old(t.leaves)| + 1
      ensures hurt >= 0 && old(HasRoom()) && hurt + 1 < |old(t.leaves)| && old(t.leaves)[hurt].next == 0 ==>
                Broken(t.leaves)
      ensures hurt == -2 || (hurt >= 0 && !old(HasRoom())) ==> Lost() && rootId == old(rootId)
      ensures hurt < 0 ==> View() == old(View()) && ok == (hurt == -1)
      ensures hurt >= 0 && !old(HasRoom()) ==> ok == (|old(t.seps)| + 1 <= order)
      decreases |path|
    {
      hide Readable, Core, Lost, Kept, HasRoom, Broken;
      if path == [] {
        ok := SplitAtRoot(hurt);
        return;
      }
      NodesReadable(hurt);
      var (parent, childIdx) := path[|path| - 1];
      var child := Fetch(parent.children[childIdx], t.leaves[childIdx]);
      ok := true;
      if |child.keys| <= order {
        return;
      }
      ghost var room, first := HasRoom(), store.pages;
      var parent' := SplitChild(parent, childIdx, child);
      if |parent'.keys| > order {
        ghost var split := store.pages;
        ok := SplitAndPropagate(path[..|path| - 1], if room then -1 else -2);
        KeptTwice(others, first, split, store.pages);
      }
    }

    /** What has room for one more key takes any key. */
    lemma RoomForKey(key: int)
      requires Valid() && PageSizeOk(store.pageSize) && 1 <= order
      requires key in m || KeysRoom(store.pageSize, order, |m| + 1)
      ensures Takes(key)
    {
      hide LeavesHeld, Represents, Accounted, Rooted, FileStore.Valid, RootRoom, Sized, LeafShape, Linked,
           DistinctPids, Sorted, EntriesRoom;
      Entries();
      LoneLeaf();
      SingleRoot();
      if |t.leaves| == 1 && EntriesRoom(store.pageSize, order + 1) {
        FewerEntries(store.pageSize, |m| + 1, order + 1);
      }
      if NeedsSplit(key) && |t.leaves| > 1 {
        var i: nat :| i < |t.leaves| && IsChildIndex(t.seps, key, i) && |t.leaves[i].keys| == order;
        RoomToSplit(View(), i);
      }
    }

    lemma SingleRoot()
      requires Valid()
      ensures |t.leaves| == 1 ==> HasRoom()
    {
      hide LeavesHeld, Represents, Accounted, Rooted, FreeChain, Sized, LeafShape, Linked, DistinctPids, Sorted;
    }

    /**
      * The tree holds at most as many keys as full leaves have below a root that fits its page, or as a lone leaf's
      * page takes.
      */
    lemma FullAtMost()
      requires Valid()
      ensures PageSizeOk(store.pageSize) && order > 0 && KeysCanFit(store.pageSize, order, |m|)
    {
      hide LeavesHeld, Represents, Accounted, Rooted, FileStore.Valid, RootRoom, Shape, Sized, EntriesRoom;
      LoneLeaf();
      RoomTaken(View());
    }

    /** One child is in charge of a key, so a split is needed exactly when that leaf is full and has not got the key. */
    lemma SplitExact(key: int, i: nat)
      requires i < |t.leaves| && IsChildIndex(t.seps, key, i)
      ensures NeedsSplit(key) <==> key !in m && |t.leaves[i].keys| == order
      ensures Severs(key) <==> NeedsSplit(key) && t.leaves[i].next != 0
                               && PageSizeOk(store.pageSize) && !LeafRoom(store.pageSize, order + 1)
    {
      forall j: nat | IsChildIndex(t.seps, key, j) ensures j == i {
      }
    }

    lemma LoneLeaf()
      requires Valid()
      ensures |t.leaves| == 1 ==> |t.leaves[0].keys| == |m|
    {
      hide Core;
      Entries();
      if |t.leaves| == 1 {
        assert t.leaves == [t.leaves[0]];
        OneContents(t.leaves[0]);
      }
    }

    /**
      * Stores the rowid for the key. A new key needs room for its entry in a leaf that is alone, and for one more
      * separator in the root when its leaf is split: without it the root is lost, which raises at once only when
      * the root is over its limit of keys, too, or too long for the page header. A leaf that is split when its
      * link was cut off leaves a broken chain.
      */
    method Insert(key: int, rowid: nat) returns (ok: bool)
      requires (Valid() || Lost()) && IsI64(key) && rowid < U64_LIMIT && store.pageCount + 2 <= U32_LIMIT
      modifies this, store
      ensures others == old(others) && Kept(others, old(store.pages), store.pages)
      ensures store.pageCount > old(store.pageCount) ==> store.freeList == []
      ensures old(Lost()) ==> !ok && Lost() && View() == old(View())
      ensures old(Valid()) && old(Takes(key)) ==>
                ok && Valid() && m == old(m)[key := rowid] && cut == (old(cut) || old(Severs(key)))
      ensures old(Valid()) && old(Takes(key)) ==> |t.leaves| == |old(t.leaves)| + if old(NeedsSplit(key)) then 1 else 0
      ensures old(Valid()) && old(Takes(key)) && old(Severs(key)) ==> Broken(t.leaves)
      ensures old(Valid()) && old(Crowded(key)) && 11 + 19 * (|old(m)| + 1) >= U16_LIMIT ==>
                !ok && Valid() && View() == old(View())
      ensures old(Valid()) && old(Crowded(key)) && 11 + 19 * (|old(m)| + 1) < U16_LIMIT ==>
                Lost() && ok == (|old(m)| < order)
      ensures old(Valid()) && !old(Takes(key)) && !old(Crowded(key)) ==> Lost() && ok == (|old(t.seps)| + 1 <= order)
    {
      hide Whole, IsChildIndex, Stands, Replaces, Kept, FileStore.Valid, RootNode, AllI64, AllBelow, NeedsSplit,
           RootRoom, Lost, Severs, Broken;
      ghost var s := View();
      var found, path, i := FindLeafWithPath(key);
      ok := found.Some?;
      if !ok {
        LostKept();
        return;
      }
      var leaf := found.value;
      LeafOfKey(key, i);
      SplitExact(key, i);
      NothingWritten(-1);
      LoneLeaf();
      LeafFits(s, i);
      var j := FindKey(leaf.keys, key);
      if j.Some? {
        EntryReplaced(s, i, j.value, rowid);
        BackSame(s, i, WithValue(leaf, j.value, rowid));
        WriteLeaf(i, WithValue(leaf, j.value, rowid), m[key := rowid]);
        return;
      }
      var idx := BisectRight(leaf.keys, key);
      EntryInserted(s, i, idx, key, rowid);
      var leaf' := WithEntry(leaf, idx, key, rowid);
      if 11 + 19 * |leaf'.keys| >= U16_LIMIT {
        return false;
      }
      WriteLeaf(i, leaf', m[key := rowid]);
      if |leaf'.keys| > order {
        ghost var written := store.pages;
        ok := SplitAndPropagate(path, if EntriesRoom(store.pageSize, |leaf'.keys|) then i else -2);
        KeptTwice(others, s.pages, written, store.pages);
      }
    }

    lemma LostKept()
      requires Lost()
      ensures Kept(others, store.pages, store.pages)
    {
      KeptAll(others, store.pages);
    }

    // ---- deletion

    /** Writes two neighbouring leaves after an exchange, and the root with the new separator. */
    method WriteReshared(ghost hurt: int, i: nat, a: Node, b: Node, parent: Node)
      requires Core(hurt) && ShortPair(View(), hurt, i) && Reshared(t.leaves[i], t.leaves[i + 1], a, b)
      requires minKeys <= |a.keys| <= order && minKeys <= |b.keys| <= order
      requires |t.leaves| == |t.seps| + 1 && parent == Internal(rootId, t.seps[i := b.keys[0]], Pids(t.leaves))
      modifies this`t, store`pages
      ensures Valid() && Kept(others, old(store.pages), store.pages)
    {
      hide Whole, NodePage, Writable, FileStore.Valid, Kept, Accounted, LeafShape, Siblings, Fits, Holds, SameBut;
      ghost var s := View();
      PairFacts(s, hurt, i);
      ReshareWritable(s, hurt, i, a, b);
      OwnedPage(pageIds, store.freeList, others, store.pageCount, a.pid);
      OwnedPage(pageIds, store.freeList, others, store.pageCount, b.pid);
      OwnedPage(pageIds, store.freeList, others, store.pageCount, rootId);
      WriteNode(store, a);
      WriteNode(store, b);
      WriteNode(store, parent);
      t := Tree(t.seps[i := b.keys[0]], t.leaves[i := a][i + 1 := b]);
      ThreeWritten(s.pages, a, b, parent, store.pageSize);
      ReshareComplete(s, hurt, i, a, b, store.pages);
      assert View() == AfterReshare(s, i, a, b, store.pages);
    }

    method RedistributeLeft(parent: Node, childIdx: nat, left: Node, node: Node)
      requires 0 < childIdx < |t.leaves| && ShortPair(View(), childIdx, childIdx - 1) && Core(childIdx)
      requires parent == RootNode(t, rootId) && left == t.leaves[childIdx - 1] && node == t.leaves[childIdx]
      requires |left.keys| > minKeys
      modifies this`t, store`pages
      ensures Valid() && Kept(others, old(store.pages), store.pages)
    {
      hide Whole, FileStore.Valid, Kept, Accounted, BorrowFromLeft, Siblings, LeafShape;
      PairFacts(View(), childIdx, childIdx - 1);
      BorrowedFromLeft(left, parent.keys[childIdx - 1], node);
      var (left', sep, node') := BorrowFromLeft(left, parent.keys[childIdx - 1], node);
      WriteReshared(childIdx, childIdx - 1, left', node', parent.(keys := parent.keys[childIdx - 1 := sep]));
    }

    method RedistributeRight(parent: Node, childIdx: nat, node: Node, right: Node)
      requires childIdx + 1 < |t.leaves| && ShortPair(View(), childIdx, childIdx) && Core(childIdx)
      requires parent == RootNode(t, rootId) && node == t.leaves[childIdx] && right == t.leaves[childIdx + 1]
      requires |right.keys| > minKeys
      modifies this`t, store`pages
      ensures Valid() && Kept(others, old(store.pages), store.pages)
    {
      hide Whole, FileStore.Valid, Kept, Accounted, BorrowFromRight, Siblings, LeafShape;
      PairFacts(View(), childIdx, childIdx);
      BorrowedFromRight(node, parent.keys[childIdx], right);
      var (node', sep, right') := BorrowFromRight(node, parent.keys[childIdx], right);
      WriteReshared(childIdx, childIdx, node', right', parent.(keys := parent.keys[childIdx := sep]));
    }

    /** A root without separators is given back, and its only child becomes the root. */
    method MaybeShrinkRoot(parent: Node)
      requires store.Valid() && Grown(View(), -1) && rootId !in PidSet(t.leaves)
      requires pageIds == PidSet(t.leaves) + {rootId}
      requires parent == Internal(rootId, t.seps, Pids(t.leaves)) && Holds(store.pages, parent)
      modifies this`rootId, this`pageIds, store
      ensures Valid() && Kept(others, old(store.pages), store.pages) && store.pageCount == old(store.pageCount)
    {
      hide LeavesHeld, Represents, Kept, Sized, Holds, NodePage;
      ghost var s, head := View(), store.freeHead;
      ShrinkFacts(s);
      if parent.pid == rootId && parent.keys == [] && parent.children != [] {
        var newRoot := parent.children[0];
        var ok := store.FreePage(parent.pid);
        pageIds := pageIds - {parent.pid};
        rootId := newRoot;
        ShrinkComplete(s, FreeRaw(s.rootId, head, s.pageSize), store.pages, store.freeList);
      } else {
        UnshrunkComplete(s);
      }
    }

    /** Writes the merged leaf and the root below and above a leaf that is given up. */
    method WriteMerged(ghost hurt: int, ghost i: nat, a: Node, gone: nat, parent: Node)
      requires Core(hurt) && ShortPair(View(), hurt, i) && MergeOf(View(), i, a, gone) && minKeys <= |a.keys| <= order
      requires |t.leaves| == |t.seps| + 1 && parent == MergedParent(View(), i, a)
      modifies this, store
      ensures Valid() && m == old(m) && cut == old(cut) && others == old(others)
      ensures Kept(others, old(store.pages), store.pages) && store.pageCount == old(store.pageCount)
      decreases 0, 1
    {
      hide Whole, Grown, NodePage, Writable, FileStore.Valid, Kept, Accounted, Splice, MergeOf, Holds, Fits, SameBut;
      ghost var s, head := View(), store.freeHead;
      MergeWritable(s, hurt, i, a, gone);
      PairFacts(s, hurt, i);
      OwnedPage(pageIds, store.freeList, others, store.pageCount, a.pid);
      OwnedPage(pageIds, store.freeList, others, store.pageCount, gone);
      OwnedPage(pageIds, store.freeList, others, store.pageCount, rootId);
      WriteNode(store, a);
      var ok := store.FreePage(gone);
      pageIds := pageIds - {gone};
      WriteNode(store, parent);
      t := Splice(t, i, 2, Tree([], [a]));
      MergeWrites(s.pages, a, gone, FreeRaw(gone, head, s.pageSize), parent, s.pageSize);
      MergeComplete(s, hurt, i, a, gone, store.pages, store.freeList);
      assert View() == AfterMerge(s, i, a, store.pages, store.freeList, s.pageIds - {gone});
      ghost var merged := store.pages;
      MaybeShrinkRoot(parent);
      KeptTwice(others, s.pages, merged, store.pages);
      if parent.pid != rootId && |parent.keys| < minKeys {
        Rebalance([], -1);
      }
    }

    lemma WithinLimits(hurt: int)
      requires Core(hurt) && 0 <= hurt < |t.leaves| && minKeys <= |t.leaves[hurt].keys| <= order
      ensures Valid()
    {
      hide Whole;
      NotHurt(View(), hurt);
    }

    lemma ShortBeside(hurt: int)
      requires Core(hurt) && 0 <= hurt < |t.leaves| && |t.leaves[hurt].keys| + 1 == minKeys
      ensures hurt > 0 ==> ShortPair(View(), hurt, hurt - 1)
      ensures hurt + 1 < |t.leaves| ==> ShortPair(View(), hurt, hurt)
    {
      hide Whole;
    }

    /** Repairs an underfull leaf at the end of the path; there is nothing to do for an empty path. */
    method Rebalance(path: seq<(Node, nat)>, ghost hurt: int)
      requires Core(hurt)
      requires if path == [] then hurt == -1
               else |t.leaves| > 1 && 0 <= hurt < |t.leaves| && path == [(RootNode(t, rootId), hurt)]
                    && minKeys <= |t.leaves[hurt].keys| + 1 && |t.leaves[hurt].keys| <= order
      modifies this, store
      ensures Valid() && m == old(m) && cut == old(cut) && others == old(others)
      ensures Kept(others, old(store.pages), store.pages) && store.pageCount == old(store.pageCount)
      ensures path == [] ==> View() == old(View())
      decreases |path|, 0
    {
      hide Core, Readable, Kept, ShortPair;
      NodesReadable(hurt);
      NothingWritten(hurt);
      if path == [] {
        return;
      }
      var (parent, childIdx) := path[|path| - 1];
      var node := Fetch(parent.children[childIdx], t.leaves[childIdx]);
      if |node.keys| >= minKeys {
        WithinLimits(hurt);
        return;
      }
      ShortBeside(hurt);
      if childIdx > 0 {
        var left := Fetch(parent.children[childIdx - 1], t.leaves[childIdx - 1]);
        if |left.keys| > minKeys {
          RedistributeLeft(parent, childIdx, left, node);
          return;
        }
        MergeIntoLeft(parent, childIdx, left, node);
        return;
      }
      if childIdx < |parent.children| - 1 {
        var right := Fetch(parent.children[childIdx + 1], t.leaves[childIdx + 1]);
        if |right.keys| > minKeys {
          RedistributeRight(parent, childIdx, node, right);
          return;
        }
        MergeIntoRight(parent, childIdx, node, right);
      }
    }

    method MergeIntoLeft(parent: Node, childIdx: nat, left: Node, node: Node)
      requires 0 < childIdx < |t.leaves| && ShortPair(View(), childIdx, childIdx - 1) && Core(childIdx)
      requires parent == RootNode(t, rootId) && left == t.leaves[childIdx - 1] && node == t.leaves[childIdx]
      requires |left.keys| <= minKeys
      modifies this, store
      ensures Valid() && m == old(m) && cut == old(cut) && others == old(others)
      ensures Kept(others, old(store.pages), store.pages) && store.pageCount == old(store.pageCount)
      decreases 0, 2
    {
      hide Whole, FileStore.Valid, Kept, Accounted, JoinToLeft, Siblings, LeafShape, Splice, Merged;
      PairFacts(View(), childIdx, childIdx - 1);
      MinLimits(order, minKeys);
      JoinedToLeft(left, parent.keys[childIdx - 1], node);
      var left' := JoinToLeft(left, parent.keys[childIdx - 1], node);
      var parent' := Internal(parent.pid, RemoveAt(parent.keys, childIdx - 1), RemoveAt(parent.children, childIdx));
      RootAfterMerge(t, childIdx - 1, left');
      WriteMerged(childIdx, childIdx - 1, left', node.pid, parent');
    }

    method MergeIntoRight(parent: Node, childIdx: nat, node: Node, right: Node)
      requires childIdx == 0 && |t.leaves| > 1 && ShortPair(View(), 0, 0) && Core(0)
      requires parent == RootNode(t, rootId) && node == t.leaves[0] && right == t.leaves[1]
      requires |right.keys| <= minKeys
      modifies this, store
      ensures Valid() && m == old(m) && cut == old(cut) && others == old(others)
      ensures Kept(others, old(store.pages), store.pages) && store.pageCount == old(store.pageCount)
      decreases 0, 2
    {
      hide Whole, FileStore.Valid, Kept, Accounted, JoinToRight, Siblings, LeafShape, Splice, Merged;
      PairFacts(View(), 0, 0);
      MinLimits(order, minKeys);
      JoinedToRight(node, parent.keys[0], right);
      var right' := JoinToRight(node, parent.keys[0], right);
      var parent' := Internal(parent.pid, RemoveAt(parent.keys, childIdx), RemoveAt(parent.children, childIdx));
      RootAfterMerge(t, 0, right');
      WriteMerged(0, 0, right', node.pid, parent');
    }

    /** Removes the key, if it is there. */
    method Delete(key: int) returns (ok: bool)
      requires Valid() || Lost()
      modifies this, store
      ensures others == old(others) && Kept(others, old(store.pages), store.pages)
      ensures store.pageCount == old(store.pageCount)
      ensures old(Lost()) ==> !ok && Lost() && View() == old(View())
      ensures old(Valid()) ==> ok && Valid() && m == old(m) - {key} && cut == old(cut)
    {
      hide Whole, Lost, IsChildIndex, Stands, Replaces, Kept, FileStore.Valid, RootNode, LeafShape, EntriesRoom,
           LeafRoom;
      ghost var s := View();
      var found, path, i := FindLeafWithPath(key);
      ok := found.Some?;
      if !ok {
        LostKept();
        return;
      }
      var leaf := found.value;
      LeafOfKey(key, i);
      NothingWritten(-1);
      var j := FindKey(leaf.keys, key);
      if j.Some? {
        EntryDeleted(s, i, j.value);
        var leaf' := WithoutEntry(leaf, j.value);
        LeafFits(s, i);
        BackSame(s, i, leaf');
        WriteLeaf(i, leaf', m - {key});
        LeafOrRoot(s, i);
        ghost var written := store.pages;
        if |leaf'.keys| < minKeys && leaf'.pid != rootId {
          Rebalance(path, i);
          KeptTwice(others, s.pages, written, store.pages);
        }
      } else {
        assert m == m - {key};
      }
    }

    // ---- what a valid tree is, spelled out

    /** Node by node: the order of keys and separators, the sizes, and the chain of leaves. */
    lemma Structure()
      requires Valid()
      ensures |t.leaves| == |t.seps| + 1
      ensures forall i, j :: 0 <= i < j < |t.seps| ==> t.seps[i] < t.seps[j]
      ensures forall i, j :: 0 <= i < |t.seps| && 0 <= j < |t.leaves[i].keys| ==> t.leaves[i].keys[j] < t.seps[i]
      ensures forall i, j :: 0 < i < |t.leaves| && 0 <= j < |t.leaves[i].keys| ==> t.seps[i - 1] <= t.leaves[i].keys[j]
      ensures forall i :: 0 <= i < |t.leaves| ==>
                |t.leaves[i].keys| <= order && (|t.leaves| > 1 ==> Max(1, order / 2) <= |t.leaves[i].keys|)
      ensures forall i {:trigger t.leaves[i]} :: 0 <= i < |t.leaves| ==>
                LinkOk(t.leaves[i].next, if i == |t.leaves| - 1 then 0 else t.leaves[i + 1].pid, cut)
      ensures forall i, j :: 0 <= i < j < |t.leaves| ==> t.leaves[i].pid != t.leaves[j].pid
    {
      hide LeavesHeld, Accounted, Rooted, Represents, FileStore.Valid;
      forall i {:trigger t.leaves[i]} | 0 <= i < |t.leaves|
        ensures LinkOk(t.leaves[i].next, if i == |t.leaves| - 1 then 0 else t.leaves[i + 1].pid, cut)
      {
        assert LinkOk(t.leaves[i].next, NextPid(t.leaves, i), cut);
      }
    }

    /** As many keys in the leaves as in the map; a lone leaf has no more than the order allows. */
    lemma Entries()
      requires Valid()
      ensures |Keys(t.leaves)| == |m| && minKeys == Max(1, order / 2) && 1 <= order && PageSizeOk(store.pageSize)
      ensures |t.leaves| == 1 ==> |m| <= order
    {
      hide LeavesHeld, Accounted, Rooted, FileStore.Valid;
      KeyCount(t, m);
      if |t.leaves| == 1 {
        assert t.leaves == [t.leaves[0]];
        OneContents(t.leaves[0]);
      }
    }

    /**
      * Each page of the tree decodes to the node it is meant to hold, and the root's to the one that names the leaves.
      */
    lemma PagesDecode()
      requires Valid()
      ensures t.leaves != []
      ensures forall i {:trigger t.leaves[i]} :: 0 <= i < |t.leaves| ==>
                t.leaves[i].pid < |store.pages| && |store.pages[t.leaves[i].pid]| >= 15
                && NodeOfPage(t.leaves[i].pid, store.pages[t.leaves[i].pid]) == Some(t.leaves[i])
      ensures |t.leaves| > 1 ==>
                rootId < |store.pages| && |store.pages[rootId]| >= 15
                && NodeOfPage(rootId, store.pages[rootId]) == Some(Internal(rootId, t.seps, Pids(t.leaves)))
    {
      hide Core, NodeOfPage, NodePage, FreeChain;
      NodesReadable(-1);
    }

    /** Every page of the file is counted once: the header page, the tree's, the free ones and everyone else's. */
    lemma Census()
      requires Valid()
      ensures store.pageCount - 1 == |pageIds| + |store.freeList| + |others|
      ensures |pageIds| == if |t.leaves| == 1 then 1 else |t.leaves| + 1
      ensures pageIds == PidSet(t.leaves) + {rootId}
      ensures Distinct(store.freeList) && Accounted(pageIds, store.freeList, others, store.pageCount)
    {
      hide LeavesHeld, Represents, Sized, Ordered, Linked, Holds;
      PageCensus(pageIds, store.freeList, others, store.pageCount);
      PidSetSize(t.leaves);
      if |t.leaves| == 1 {
        OneContents(t.leaves[0]);
        assert t.leaves == [t.leaves[0]];
      }
    }
  }
}
