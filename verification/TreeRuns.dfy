/** Whole runs of insertions and deletions on a new tree in a new file. */
module TreeRuns {
  import opened Bytes
  import opened Storage
  import opened NodeCodec
  import opened NodeEdits
  import opened SearchTree
  import opened OrderedAnswers
  import opened TreePages
  import opened TreeState
  import opened TreeScan
  import opened BPlusTreeIndex

  datatype Op = Put(key: int, rowid: nat) | Remove(key: int)

  /** The map that a run of operations leads to, beginning with the empty one. */
  function Replay(ops: seq<Op>): map<int, nat> {
    if ops == [] then map[] else Apply(Replay(Front(ops)), Last(ops))
  }

  function Apply(m: map<int, nat>, op: Op): map<int, nat> {
    match op
    case Put(k, v) => m[k := v]
    case Remove(k) => m - {k}
  }

  /** The operations that the page layout of INT keys can take. */
  ghost predicate Storable(ops: seq<Op>) {
    forall i :: 0 <= i < |ops| ==> match ops[i] case Put(k, v) => IsI64(k) && v < U64_LIMIT case Remove(k) => true
  }

  /** At no time more keys than there is room for however the leaves are filled. */
  ghost predicate RoomThroughout(pageSize: nat, order: nat, ops: seq<Op>)
    requires PageSizeOk(pageSize) && 1 <= order
  {
    forall i :: 0 <= i <= |ops| ==> KeysRoom(pageSize, order, |Replay(ops[..i])|)
  }

  /** At no time more keys than there is room for with full leaves. */
  ghost predicate FitsThroughout(pageSize: nat, order: nat, ops: seq<Op>)
    requires PageSizeOk(pageSize) && 1 <= order
  {
    forall i :: 0 <= i <= |ops| ==> KeysCanFit(pageSize, order, |Replay(ops[..i])|)
  }

  /** The file of a lone tree never holds more pages than its root has had children at one time, and a few. */
  const PAGE_BOUND: int := 4400

  lemma FewPages(tree: BPlusTree)
    requires tree.Valid() && tree.others == {} && tree.store.freeList == []
    ensures tree.store.pageCount <= PAGE_BOUND
  {
    hide LeavesHeld, Represents, Sized, Rooted, Accounted, FreeChain, Linked, DistinctPids, LeafShape, AtLeast, Below,
         Sorted;
    tree.Census();
    assert RootRoom(tree.store.pageSize, |tree.t.seps|);
  }

  lemma NextOp(ops: seq<Op>, i: nat)
    requires Storable(ops) && i < |ops|
    ensures Replay(ops[..i + 1]) == Apply(Replay(ops[..i]), ops[i])
    ensures ops[i].Put? ==> IsI64(ops[i].key) && ops[i].rowid < U64_LIMIT
  {
    assert Front(ops[..i + 1]) == ops[..i] && Last(ops[..i + 1]) == ops[i];
  }

  lemma RoomForNext(pageSize: nat, order: nat, ops: seq<Op>, i: nat)
    requires PageSizeOk(pageSize) && 1 <= order && i < |ops| && ops[i].Put? && ops[i].key !in Replay(ops[..i])
    requires Replay(ops[..i + 1]) == Apply(Replay(ops[..i]), ops[i])
    ensures RoomThroughout(pageSize, order, ops) ==> RoomThroughout(pageSize, order, ops[..i + 1])
    ensures RoomThroughout(pageSize, order, ops[..i + 1]) ==> KeysRoom(pageSize, order, |Replay(ops[..i])| + 1)
  {
    hide Replay, KeysRoom;
    var first := ops[..i + 1];
    if RoomThroughout(pageSize, order, ops) {
      forall j | 0 <= j <= i + 1 ensures KeysRoom(pageSize, order, |Replay(first[..j])|) {
        assert first[..j] == ops[..j];
      }
    }
    assert first[..i + 1] == first;
  }

  lemma FitsNext(pageSize: nat, order: nat, ops: seq<Op>, i: nat)
    requires PageSizeOk(pageSize) && 1 <= order && i <= |ops|
    requires i > 0 ==> FitsThroughout(pageSize, order, ops[..i - 1])
    requires KeysCanFit(pageSize, order, |Replay(ops[..i])|)
    ensures FitsThroughout(pageSize, order, ops[..i])
  {
    hide Replay, KeysCanFit;
    assert ops[..i][..i] == ops[..i];
    forall j | 0 <= j < i ensures ops[..i][..j] == ops[..j] == ops[..i - 1][..j] {
    }
  }

  /** Where a lone leaf's page is what limits the keys, room for them and room with full leaves are the same. */
  lemma LoneLeafExact(pageSize: nat, order: nat, ops: seq<Op>)
    requires PageSizeOk(pageSize) && 1 <= order && !EntriesRoom(pageSize, order + 1)
    ensures RoomThroughout(pageSize, order, ops) <==> FitsThroughout(pageSize, order, ops)
  {
    hide Replay, EntriesRoom;
    assert forall i :: 0 <= i <= |ops| ==>
        KeysRoom(pageSize, order, |Replay(ops[..i])|) == KeysCanFit(pageSize, order, |Replay(ops[..i])|);
  }

  lemma NoOps(ops: seq<Op>)
    ensures Replay(ops[..0]) == map[] && ops[..|ops|] == ops
  {
  }

  method NewTree(pageSize: nat, order: nat) returns (tree: BPlusTree)
    requires PageSizeOk(pageSize) && 1 <= order
    ensures fresh(tree) && fresh(tree.store) && tree.Valid() && tree.store.pageSize == pageSize && tree.order == order
    ensures tree.m == map[] && tree.others == {} && !tree.cut && tree.store.pageCount <= PAGE_BOUND
    ensures |tree.t.leaves| == 1
  {
    hide BPlusTree.Valid;
    var store := new FileStore(pageSize, []);
    tree := BPlusTree.Create(store, order);
    assert tree.others == {};
  }

  /** One operation; it stops a run when it raises, or when the root cannot be read behind it. */
  method Perform(tree: BPlusTree, op: Op) returns (stop: bool)
    requires tree.Valid() && tree.others == {} && tree.store.pageCount <= PAGE_BOUND
    requires op.Put? ==> IsI64(op.key) && op.rowid < U64_LIMIT
    modifies tree, tree.store
    ensures tree.others == {}
    ensures !stop ==> tree.Valid() && tree.m == Apply(old(tree.m), op) && tree.store.pageCount <= PAGE_BOUND
    ensures !stop && op.Put? ==> |tree.t.leaves| == |old(tree.t.leaves)| + if old(tree.NeedsSplit(op.key)) then 1 else 0
    ensures !stop && op.Put? && old(tree.Severs(op.key)) ==> Broken(tree.t.leaves)
    ensures !stop ==> tree.cut == (old(tree.cut) || (op.Put? && old(tree.Severs(op.key))))
    ensures stop ==> op.Put? && op.key !in old(tree.m) && !old(tree.Takes(op.key))
    ensures stop ==> tree.Lost() || (tree.Valid() && tree.View() == old(tree.View()) && old(tree.Crowded(op.key)))
  {
    hide Whole, FileStore.Valid, Accounted, NodeOfPage, BPlusTree.HasRoom, BPlusTree.Severs, BPlusTree.Core,
         EntriesRoom;
    match op {
      case Put(k, v) =>
        ghost var count, takes := tree.store.pageCount, tree.Takes(k);
        var ok := tree.Insert(k, v);
        if takes {
          if tree.store.pageCount > count {
            FewPages(tree);
          }
        }
        var root := tree.FetchRoot();
        stop := !ok || root.None?;
      case Remove(k) =>
        var ok := tree.Delete(k);
        stop := false;
    }
  }

  /**
    * Any run of insertions and deletions on a new tree in a new file keeps the whole invariant, up to the first
    * insertion that finds no room: it leaves a root that cannot be read, or raises and changes nothing. None does
    * as long as there is room however the leaves are filled, and one has before there is none even in full leaves.
    */
  method Build(pageSize: nat, order: nat, ops: seq<Op>) returns (tree: BPlusTree, done: nat)
    requires PageSizeOk(pageSize) && 1 <= order && Storable(ops)
    ensures done <= |ops| && tree.others == {} && tree.order == order && tree.store.pageSize == pageSize
    ensures done == |ops| ==> tree.Valid() && tree.m == Replay(ops) && tree.store.pageCount <= PAGE_BOUND
    ensures done == |ops| && LeafRoom(pageSize, order + 1) ==> !tree.cut
    ensures done < |ops| ==> ops[done].Put? && ops[done].key !in Replay(ops[..done])
    ensures done < |ops| ==>
              tree.Lost() || (tree.Valid() && tree.m == Replay(ops[..done]) && !EntriesRoom(pageSize, order + 1))
    ensures done < |ops| ==> !RoomThroughout(pageSize, order, ops[..done + 1])
    ensures RoomThroughout(pageSize, order, ops) ==> done == |ops|
    ensures !FitsThroughout(pageSize, order, ops) ==> done < |ops|
    ensures !EntriesRoom(pageSize, order + 1) ==> (done == |ops| <==> RoomThroughout(pageSize, order, ops))
  {
    hide Whole, FileStore.Valid, RootRoom, LeafRoom, EntriesRoom, KeysRoom, KeysCanFit, Accounted, Storable,
         RoomThroughout, Replay, FitsThroughout, BPlusTree.Lost, BPlusTree.Valid, BPlusTree.Takes, BPlusTree.Crowded,
         Apply, InUse, Kept;
    tree := NewTree(pageSize, order);
    NoOps(ops);
    tree.FullAtMost();
    FitsNext(pageSize, order, ops, 0);
    if !EntriesRoom(pageSize, order + 1) {
      LoneLeafExact(pageSize, order, ops);
    }
    for i := 0 to |ops|
      invariant fresh(tree) && fresh(tree.store) && tree.Valid() && tree.store.pageSize == pageSize
      invariant tree.order == order
      invariant tree.m == Replay(ops[..i]) && tree.others == {} && tree.store.pageCount <= PAGE_BOUND
      invariant FitsThroughout(pageSize, order, ops[..i])
      invariant LeafRoom(pageSize, order + 1) ==> !tree.cut
    {
      NextOp(ops, i);
      if ops[i].Put? && ops[i].key !in tree.m {
        RoomForNext(pageSize, order, ops, i);
        RoomOrNot(tree, ops[i].key);
      }
      var stop := Perform(tree, ops[i]);
      if stop {
        return tree, i;
      }
      tree.FullAtMost();
      FitsNext(pageSize, order, ops, i + 1);
    }
    done := |ops|;
  }

  lemma RoomOrNot(tree: BPlusTree, key: int)
    requires tree.Valid()
    ensures PageSizeOk(tree.store.pageSize) && 1 <= tree.order
    ensures KeysRoom(tree.store.pageSize, tree.order, |tree.m| + 1) ==> tree.Takes(key)
    ensures tree.Crowded(key) ==> !EntriesRoom(tree.store.pageSize, tree.order + 1)
  {
    hide KeysRoom, EntriesRoom, BPlusTree.Core, BPlusTree.Takes;
    tree.Entries();
    if KeysRoom(tree.store.pageSize, tree.order, |tree.m| + 1) {
      tree.RoomForKey(key);
    }
    if tree.Crowded(key) && EntriesRoom(tree.store.pageSize, tree.order + 1) {
      FewerEntries(tree.store.pageSize, |tree.m| + 1, tree.order + 1);
    }
  }

  // ---- runs that lose the root

  function Ascending(n: nat): seq<Op> { seq(n, (i: nat) => Put(i, i)) }

  lemma {:induction false} AscendingKeys(n: nat)
    ensures |Replay(Ascending(n))| == n && forall k :: k in Replay(Ascending(n)) ==> k < n
  {
    if n > 0 {
      AscendingKeys(n - 1);
      assert Front(Ascending(n)) == Ascending(n - 1) && Last(Ascending(n)) == Put(n - 1, n - 1);
    }
  }

  /**
    * More keys than full leaves have room for are a run in which an insertion finds none, for any page size and order.
    */
  lemma EnoughKeys(pageSize: nat, order: nat, n: nat)
    requires PageSizeOk(pageSize) && 1 <= order && !KeysCanFit(pageSize, order, n) && n < I64_LIMIT
    ensures Storable(Ascending(n)) && !FitsThroughout(pageSize, order, Ascending(n))
  {
    hide KeysCanFit, Replay;
    AscendingKeys(n);
    assert Ascending(n)[..n] == Ascending(n);
  }

  /** On the smallest pages, with leaves of four keys, 133 insertions in ascending order lose the root. */
  method RootCanBeLost() returns (tree: BPlusTree)
    ensures tree.Lost() && tree.store.pageSize == PAGE_SIZE_MIN && tree.order == 4
  {
    hide FitsThroughout, Storable, RoomThroughout, Ascending, Replay;
    EnoughKeys(PAGE_SIZE_MIN, 4, 133);
    var done;
    tree, done := Build(PAGE_SIZE_MIN, 4, Ascending(133));
  }

  // ---- a run that breaks the chain

  ghost predicate Above(m: map<int, nat>, key: int) { forall k :: k in m ==> key < k }

  /** A key below all others belongs in the first leaf. */
  lemma FirstInCharge(tree: BPlusTree, key: int)
    requires tree.Valid() && Above(tree.m, key) && tree.m != map[]
    ensures tree.t.leaves != [] && IsChildIndex(tree.t.seps, key, 0)
  {
    hide LeavesHeld, Accounted, Rooted, FileStore.Valid, Linked, DistinctPids, Represents;
    tree.Entries();
    if tree.t.seps != [] {
      var leaf := tree.t.leaves[0];
      assert tree.minKeys <= |leaf.keys|;
      FirstKey(tree, leaf.keys[0]);
    }
  }

  lemma FirstKey(tree: BPlusTree, k: int)
    requires tree.Valid() && tree.t.leaves != [] && k in tree.t.leaves[0].keys
    ensures k in tree.m
  {
    hide LeavesHeld, Accounted, Rooted, FileStore.Valid, Linked, DistinctPids, LeafShape;
    KeysOfMember(tree.t.leaves, k);
    var i :| 0 <= i < |Keys(tree.t.leaves)| && Keys(tree.t.leaves)[i] == k;
  }

  /** With two leaves a tree has no more keys than two full ones. */
  lemma TwoLeaves(tree: BPlusTree)
    requires tree.Valid()
    ensures |tree.m| <= |tree.t.leaves| * tree.order
  {
    hide LeavesHeld, Accounted, Rooted, FileStore.Valid, Linked, DistinctPids, Ordered;
    tree.Entries();
    KeysBounded(tree.t.leaves, tree.order);
  }

  /** An insertion below all keys splits no leaf, or the only one, or it severs the chain. */
  lemma LowKeySplits(tree: BPlusTree, key: int)
    requires tree.Valid() && Above(tree.m, key) && tree.m != map[] && PageSizeOk(tree.store.pageSize)
    requires !LeafRoom(tree.store.pageSize, tree.order + 1)
    ensures tree.NeedsSplit(key) && |tree.t.leaves| > 1 && !Broken(tree.t.leaves) ==> tree.Severs(key)
  {
    hide BPlusTree.Core, LeafRoom;
    FirstInCharge(tree, key);
    tree.SplitExact(key, 0);
    assert |tree.t.leaves| > 1 && !Broken(tree.t.leaves) ==> tree.t.leaves[0].next != 0;
  }

  /** The keys down from 0 are in one leaf or two, with the links whole. */
  ghost predicate Descended(tree: BPlusTree, i: int)
    reads tree, tree.store
  {
    && tree.Valid() && tree.store.pageSize == PAGE_SIZE_MIN && tree.order == 25
    && tree.others == {} && tree.store.pageCount <= PAGE_BOUND
    && |tree.m| == i && Above(tree.m, -i)
    && !Broken(tree.t.leaves) && |tree.t.leaves| <= (if i == 0 then 1 else 2)
  }

  /** The next key down leaves two leaves and the links whole, or a scan that is short. */
  method OneDown(tree: BPlusTree, i: int) returns (all: seq<nat>)
    requires Descended(tree, i) && 0 <= i <= 50
    modifies tree, tree.store
    ensures tree.Valid() && |tree.m| == i + 1
    ensures if |all| == i + 1 then Descended(tree, i + 1) else |all| < i + 1 && !Answers(tree.m, Everything(), all)
  {
    hide BPlusTree.Valid, Answers, BPlusTree.Lost, FileStore.Valid, Broken, BPlusTree.Severs, BPlusTree.NeedsSplit,
         BPlusTree.Takes, BPlusTree.Crowded;
    RoomOrNot(tree, -i);
    if i > 0 {
      LowKeySplits(tree, -i);
    } else {
      assert tree.m == map[];
    }
    ghost var was := tree.m;
    var stop := Perform(tree, Put(-i, i));
    assert |was[-i := i]| == |was| + 1;
    var r := tree.FullScan();
    all := r.value;
  }

  /**
    * On the smallest pages and with leaves of 25 keys, insertions in descending order come to a point, before 52 of
    * them, where a full scan misses keys that are there.
    */
  method ScanCanMissKeys() returns (tree: BPlusTree, all: seq<nat>)
    ensures tree.Valid() && |tree.m| <= 51 && |all| < |tree.m| && !Answers(tree.m, Everything(), all)
  {
    hide BPlusTree.Valid, Answers, Broken;
    tree := NewTree(PAGE_SIZE_MIN, 25);
    tree.UncutChain();
    var i: int := 0;
    while true
      invariant fresh(tree) && fresh(tree.store) && Descended(tree, i) && 0 <= i <= 50
      decreases 51 - i
    {
      all := OneDown(tree, i);
      i := i + 1;
      if |all| != i {
        return;
      }
      TwoLeaves(tree);
    }
  }

  /**
    * A run, and if it was not stopped a query of each kind and a count of the pages: the header page, the tree's
    * and the free ones. Seeks answer by the map in any case, scans as far as the chain goes.
    */
  method Run(pageSize: nat, order: nat, ops: seq<Op>, key: int, lo: int, hi: int, inclusive: bool)
    returns (tree: BPlusTree, done: nat, found: seq<nat>, ranged: seq<nat>, all: seq<nat>, height: nat)
    requires PageSizeOk(pageSize) && 1 <= order && Storable(ops)
    ensures RoomThroughout(pageSize, order, ops) ==> done == |ops|
    ensures done < |ops| ==> !RoomThroughout(pageSize, order, ops[..done + 1])
    ensures done == |ops| ==> found == if key in Replay(ops) then [Replay(ops)[key]] else []
    ensures done == |ops| && !Broken(tree.t.leaves) ==> Answers(Replay(ops), Between(lo, hi, inclusive), ranged)
    ensures done == |ops| ==> (Answers(Replay(ops), Everything(), all) <==> !Broken(tree.t.leaves))
    ensures done == |ops| && LeafRoom(pageSize, order + 1) ==> !Broken(tree.t.leaves)
    ensures done == |ops| ==> 1 <= height <= 2 && (height == 1 ==> |Replay(ops)| <= order)
    ensures done == |ops| ==> tree.Valid() && tree.m == Replay(ops)
    ensures done == |ops| ==>
              Distinct(tree.store.freeList) && Accounted(tree.pageIds, tree.store.freeList, {}, tree.store.pageCount)
    ensures done == |ops| ==> tree.store.pageCount == 1 + |tree.pageIds| + |tree.store.freeList|
  {
    hide Whole, FileStore.Valid, RootRoom, LeafRoom, EntriesRoom, Accounted, Storable, RoomThroughout, Replay,
         FitsThroughout, BPlusTree.Lost, BPlusTree.Valid, Broken, Answers;
    tree, done := Build(pageSize, order, ops);
    found, ranged, all, height := [], [], [], 0;
    if done < |ops| {
      return;
    }
    var f := tree.Seek(key);
    var r := tree.Range(lo, hi, inclusive);
    var a := tree.FullScan();
    var h := tree.Height();
    found, ranged, all, height := f.value, r.value, a.value, h.value;
    tree.UncutChain();
    tree.Entries();
    tree.Census();
  }
}
