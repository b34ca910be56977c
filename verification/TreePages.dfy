/** How the nodes of a two-level tree lie on the pages of a file, and which pages are whose. */
module TreePages {
  import opened Bytes
  import opened Storage
  import opened NodeCodec
  import opened NodeEdits
  import opened SearchTree

  /** Node `n` is what its page reads as. */
  ghost predicate Holds(pages: seq<seq<Byte>>, n: Node) {
    n.pid < |pages| && |pages[n.pid]| >= FILE_HEADER_SIZE && NodeOfPage(n.pid, pages[n.pid]) == Some(n)
  }

  ghost predicate LeavesHeld(pages: seq<seq<Byte>>, leaves: seq<Node>) {
    forall i {:trigger leaves[i]} :: 0 <= i < |leaves| ==> Holds(pages, leaves[i])
  }

  /** A node that can be written and reads back from its page as it is. */
  ghost predicate Fits(n: Node, pageSize: nat) {
    && PageSizeOk(pageSize) && Writable(n)
    && (NodeSize(n) <= BodyRoom(pageSize) || (n.isLeaf && n.next == 0 && NodeSize(n) - 8 <= BodyRoom(pageSize)))
  }

  lemma FitsReads(n: Node, pageSize: nat)
    requires Fits(n, pageSize)
    ensures NodeOfPage(n.pid, NodePage(n, pageSize)) == Some(n)
  {
    NodePageSurvives(n, pageSize);
  }

  /** The only leaf is the root; two leaves or more have an internal root above them. */
  ghost function RootNode(t: Tree, rootId: nat): Node
    requires t.leaves != []
  {
    if |t.leaves| == 1 then t.leaves[0] else Internal(rootId, t.seps, Pids(t.leaves))
  }

  /** The tree uses exactly these pages. */
  ghost predicate OwnPages(t: Tree, rootId: nat, pageIds: set<nat>)
    requires t.leaves != []
  {
    if |t.leaves| == 1 then rootId == t.leaves[0].pid && pageIds == {rootId}
    else rootId !in PidSet(t.leaves) && pageIds == PidSet(t.leaves) + {rootId}
  }

  /** Every page but the header page belongs to the tree, or to someone else, or is free, and to one of these only. */
  ghost predicate Accounted(pageIds: set<nat>, free: seq<nat>, others: set<nat>, pageCount: nat) {
    && (forall p: nat :: 0 < p < pageCount <==> p in pageIds || p in free || p in others)
    && pageIds !! others
    && (forall p :: p in free ==> p !in pageIds && p !in others)
  }

  /** The pages that are neither free nor the header page. */
  ghost function InUse(pageCount: nat, free: seq<nat>): (r: set<nat>)
    requires forall i :: 0 <= i < |free| ==> 0 < free[i] < pageCount
    ensures Accounted({}, free, r, pageCount)
  {
    set p | p in Upto(pageCount) && p !in free
  }

  /** The pages of `others` are as they were. */
  ghost predicate Kept(others: set<nat>, pages: seq<seq<Byte>>, pages': seq<seq<Byte>>) {
    |pages| <= |pages'| && forall p :: p in others ==> p < |pages| && pages'[p] == pages[p]
  }

  /** No leaf is larger than one entry over the limit, none but `hurt` is over it or, beside others, too small. */
  ghost predicate Sized(leaves: seq<Node>, order: nat, minKeys: nat, hurt: int) {
    forall i {:trigger leaves[i]} :: 0 <= i < |leaves| ==>
      && |leaves[i].keys| <= order + 1
      && (i != hurt ==> |leaves[i].keys| <= order && (|leaves| > 1 ==> minKeys <= |leaves[i].keys|))
  }

  /** A page takes a leaf with this many entries whole. */
  predicate LeafRoom(pageSize: nat, entries: int)
    requires PageSizeOk(pageSize)
  {
    11 + 19 * entries <= BodyRoom(pageSize)
  }

  /** A page takes this many entries of a leaf, its link perhaps not. */
  predicate EntriesRoom(pageSize: nat, entries: int)
    requires PageSizeOk(pageSize)
  {
    3 + 19 * entries <= BodyRoom(pageSize)
  }

  lemma FewerEntries(pageSize: nat, few: nat, many: nat)
    requires PageSizeOk(pageSize) && few <= many && EntriesRoom(pageSize, many)
    ensures EntriesRoom(pageSize, few)
  {
  }

  /** What a written leaf reads back as when its entries fit: itself, or without the link that was cut off. */
  function Back(n: Node, pageSize: nat): Node
    requires PageSizeOk(pageSize)
  {
    if LeafRoom(pageSize, |n.keys|) then n else n.(next := 0)
  }

  /** A written leaf reads back as it is, or without its link, or not at all, by its number of entries. */
  lemma LeafReadBack(n: Node, pageSize: nat)
    requires PageSizeOk(pageSize) && n.isLeaf && Writable(n)
    ensures NodeOfPage(n.pid, NodePage(n, pageSize))
         == if LeafRoom(pageSize, |n.keys|) then Some(n)
            else if EntriesRoom(pageSize, |n.keys|) then Some(n.(next := 0))
            else None
  {
    hide DecodeNode, EncodeNode, RawPage, ParsePage;
    ParseOfRaw(Page(n.pid, IndexPageType, 0, EncodeNode(n)), pageSize);
    LeafCutOff(n, BodyRoom(pageSize));
  }

  /** The link of a leaf of 26 entries does not fit the smallest page, and its entries do. */
  lemma LinkIsCut(n: Node)
    requires LeafShape(n) && |n.keys| == 26 && n.pid < U32_LIMIT && 0 < n.next < U32_LIMIT
    ensures Writable(n) && NodeOfPage(n.pid, NodePage(n, PAGE_SIZE_MIN)) == Some(n.(next := 0)) != Some(n)
  {
    hide NodePage, NodeOfPage;
    LeafReadBack(n, PAGE_SIZE_MIN);
  }

  /** A root with this many separators fits on a page. */
  predicate RootRoom(pageSize: nat, seps: int)
    requires PageSizeOk(pageSize)
  {
    7 + 15 * seps <= BodyRoom(pageSize)
  }

  /** This many keys have room, however the leaves are filled: as minimal leaves below a root, or in a lone leaf. */
  predicate KeysRoom(pageSize: nat, order: nat, keys: nat)
    requires PageSizeOk(pageSize) && 1 <= order
  {
    if EntriesRoom(pageSize, order + 1) then RootRoom(pageSize, keys / Max(1, order / 2) - 1)
    else EntriesRoom(pageSize, keys)
  }

  /** This many keys have room if all leaves are full. */
  predicate KeysCanFit(pageSize: nat, order: nat, keys: nat)
    requires PageSizeOk(pageSize) && 1 <= order
  {
    if EntriesRoom(pageSize, order + 1) then RootRoom(pageSize, (keys + order - 1) / order - 1)
    else EntriesRoom(pageSize, keys)
  }

  /**
    * A root that is written with these separators is read back if they have room, and is no node at all if they have
    * not.
    */
  lemma RootReadBack(rootId: nat, seps: seq<int>, children: seq<nat>, pageSize: nat)
    requires PageSizeOk(pageSize) && Writable(Internal(rootId, seps, children))
    ensures NodeOfPage(rootId, NodePage(Internal(rootId, seps, children), pageSize))
         == if RootRoom(pageSize, |seps|) then Some(Internal(rootId, seps, children)) else None
  {
    hide DecodeNode, EncodeNode, RawPage, ParsePage;
    var n := Internal(rootId, seps, children);
    ParseOfRaw(Page(rootId, IndexPageType, 0, EncodeNode(n)), pageSize);
    InternalCutOff(n, BodyRoom(pageSize));
  }

  /** The numbers from 1 to n - 1. */
  ghost function Upto(n: nat): (r: set<nat>)
    ensures forall p: nat :: p in r <==> 0 < p < n
    ensures n > 0 ==> |r| == n - 1
  {
    if n <= 1 then {} else Upto(n - 1) + {n - 1}
  }

  ghost function Members(s: seq<nat>): (r: set<nat>)
    ensures forall p :: p in r <==> p in s
  {
    if s == [] then {} else {s[0]} + Members(s[1..])
  }

  lemma {:induction false} DistinctSize(s: seq<nat>)
    requires Distinct(s)
    ensures |Members(s)| == |s|
  {
    if s != [] {
      DistinctSize(s[1..]);
      assert s[0] !in s[1..];
    }
  }

  /** The census of the file: every page but the header page is counted once. */
  lemma PageCensus(pageIds: set<nat>, free: seq<nat>, others: set<nat>, pageCount: nat)
    requires Accounted(pageIds, free, others, pageCount) && Distinct(free) && pageCount > 0
    ensures pageCount - 1 == |pageIds| + |free| + |others|
  {
    var f := Members(free);
    DistinctSize(free);
    assert Upto(pageCount) == pageIds + f + others;
    assert pageIds !! f && (pageIds + f) !! others;
    assert |pageIds + f + others| == |pageIds| + |f| + |others|;
  }

  lemma {:induction false} PidSetSize(leaves: seq<Node>)
    requires DistinctPids(leaves)
    ensures |PidSet(leaves)| == |leaves|
  {
    if leaves != [] {
      var n := |leaves| - 1;
      PidSetSize(leaves[..n]);
      assert PidSet(leaves) == PidSet(leaves[..n]) + {leaves[n].pid} by {
        assert leaves[n].pid in PidSet(leaves);
        assert forall i | 0 <= i < n :: leaves[..n][i] == leaves[i] && leaves[i].pid in PidSet(leaves);
      }
    }
  }

  /** With at least `least` keys in every leaf there are no more leaves than the keys allow. */
  lemma {:induction false} LeavesBounded(leaves: seq<Node>, least: nat)
    requires forall i :: 0 <= i < |leaves| ==> least <= |leaves[i].keys|
    ensures |leaves| * least <= |Keys(leaves)|
  {
    if leaves != [] {
      LeavesBounded(leaves[1..], least);
      assert |leaves| * least == |leaves[1..]| * least + least;
    }
  }

  lemma {:induction false} KeysBounded(leaves: seq<Node>, most: nat)
    requires forall i :: 0 <= i < |leaves| ==> |leaves[i].keys| <= most
    ensures |Keys(leaves)| <= |leaves| * most
  {
    if leaves != [] {
      KeysBounded(leaves[1..], most);
      assert |leaves| * most == |leaves[1..]| * most + most;
    }
  }

  /** Only the pages of `ids` were written, and pages may have been added at the end. */
  ghost predicate SameBut(pages: seq<seq<Byte>>, pages': seq<seq<Byte>>, ids: set<nat>) {
    |pages| <= |pages'| && forall p: nat {:trigger pages'[p]} :: p < |pages| && p !in ids ==> pages'[p] == pages[p]
  }

  lemma KeptOutside(others: set<nat>, pages: seq<seq<Byte>>, pages': seq<seq<Byte>>, ids: set<nat>)
    requires SameBut(pages, pages', ids) && others !! ids && forall p :: p in others ==> p < |pages|
    ensures Kept(others, pages, pages')
  {
  }

  lemma SameButTwice(p0: seq<seq<Byte>>, p1: seq<seq<Byte>>, p2: seq<seq<Byte>>, a: set<nat>, b: set<nat>)
    requires SameBut(p0, p1, a) && SameBut(p1, p2, b)
    ensures SameBut(p0, p2, a + b)
  {
  }

  /** A leaf whose entries fit a page can be written, and reads back as `Back` says. */
  lemma LeafWritable(n: Node, pageSize: nat)
    requires PageSizeOk(pageSize) && LeafShape(n) && n.pid < U32_LIMIT && n.next < U32_LIMIT
    requires EntriesRoom(pageSize, |n.keys|) || 11 + 19 * |n.keys| < U16_LIMIT
    ensures Writable(n)
    ensures EntriesRoom(pageSize, |n.keys|) ==> NodeOfPage(n.pid, NodePage(n, pageSize)) == Some(Back(n, pageSize))
    ensures LeafRoom(pageSize, |n.keys|) ==> Fits(n, pageSize)
    ensures !EntriesRoom(pageSize, |n.keys|) ==> NodeOfPage(n.pid, NodePage(n, pageSize)) == None
  {
    hide NodePage, NodeOfPage;
    LeafReadBack(n, pageSize);
  }

  /** A root that fits its page can be written, and so can one with one separator too many for the page. */
  lemma RootWritable(rootId: nat, seps: seq<int>, children: seq<nat>, pageSize: nat)
    requires PageSizeOk(pageSize) && AllI64(seps) && |children| == |seps| + 1 && rootId < U32_LIMIT
    requires AllBelow(children, U32_LIMIT) && (RootRoom(pageSize, |seps|) || RootRoom(pageSize, |seps| - 1))
    ensures Writable(Internal(rootId, seps, children))
    ensures RootRoom(pageSize, |seps|) ==> Fits(Internal(rootId, seps, children), pageSize)
  {
    hide NodePage, NodeOfPage;
    RootReadBack(rootId, seps, children, pageSize);
  }

  /** Leaves on pages that were not written are still held. */
  lemma StillHeld(pages: seq<seq<Byte>>, pages': seq<seq<Byte>>, ids: set<nat>, leaves: seq<Node>)
    requires LeavesHeld(pages, leaves)
    requires SameBut(pages, pages', ids) && PidSet(leaves) !! ids
    ensures LeavesHeld(pages', leaves)
  {
    hide NodeOfPage;
    forall i | 0 <= i < |leaves|
      ensures Holds(pages', leaves[i])
    {
      assert leaves[i].pid in PidSet(leaves);
    }
  }

  /**
    * After a splice, the leaves that stay are still held when only pages of the replaced leaves, or new ones, were
    * written.
    */
  lemma SpliceHeld(t: Tree, i: nat, n: nat, sub: Tree, pages: seq<seq<Byte>>, pages': seq<seq<Byte>>, ids: set<nat>)
    requires |t.leaves| == |t.seps| + 1 && |sub.leaves| == |sub.seps| + 1 && 0 < n && i + n <= |t.leaves|
    requires DistinctPids(t.leaves)
    requires LeavesHeld(pages, t.leaves) && LeavesHeld(pages', sub.leaves)
    requires SameBut(pages, pages', ids) && ids * PidSet(t.leaves) <= PidSet(t.leaves[i..i + n])
    ensures LeavesHeld(pages', Splice(t, i, n, sub).leaves)
  {
    var s := Splice(t, i, n, sub);
    SpliceAt(t, i, n, sub);
    hide Holds;
    forall j | 0 <= j < |s.leaves|
      ensures Holds(pages', s.leaves[j])
    {
      SpliceHeldAt(t, i, n, sub, pages, pages', ids, j);
    }
  }

  lemma SpliceHeldAt(t: Tree, i: nat, n: nat, sub: Tree, pages: seq<seq<Byte>>, pages': seq<seq<Byte>>, ids: set<nat>,
                     j: nat)
    requires |t.leaves| == |t.seps| + 1 && |sub.leaves| == |sub.seps| + 1 && 0 < n && i + n <= |t.leaves|
    requires DistinctPids(t.leaves)
    requires LeavesHeld(pages, t.leaves) && LeavesHeld(pages', sub.leaves)
    requires SameBut(pages, pages', ids) && ids * PidSet(t.leaves) <= PidSet(t.leaves[i..i + n])
    requires j < |t.leaves| + |sub.leaves| - n
    ensures Holds(pages', LeafAt(t, i, n, sub, j))
  {
    hide NodeOfPage;
    if j < i {
      OutsideRun(t.leaves, i, n, j);
    } else if j >= i + |sub.leaves| {
      OutsideRun(t.leaves, i, n, j - |sub.leaves| + n);
    }
  }

  lemma OutsideRun(leaves: seq<Node>, i: nat, n: nat, j: nat)
    requires DistinctPids(leaves) && i + n <= |leaves| && j < |leaves| && !(i <= j < i + n)
    ensures leaves[j].pid in PidSet(leaves) && leaves[j].pid !in PidSet(leaves[i..i + n])
  {
    var run := leaves[i..i + n];
    assert forall b | 0 <= b < n :: run[b] == leaves[i + b];
  }

  /** Splitting a leaf puts one separator and one child into the root. */
  lemma RootAfterSplit(t: Tree, i: nat, newPid: nat)
    requires |t.leaves| == |t.seps| + 1 && i < |t.leaves| && LeafShape(t.leaves[i]) && |t.leaves[i].keys| >= 2
    ensures
      var sub := SplitSub(t.leaves[i], newPid);
      var t' := Splice(t, i, 1, sub);
      && t'.seps == InsertAt(t.seps, i, sub.seps[0]) && Pids(t'.leaves) == InsertAt(Pids(t.leaves), i + 1, newPid)
  {
    var sub := SplitSub(t.leaves[i], newPid);
    var t' := Splice(t, i, 1, sub);
    assert Pids(t'.leaves) == InsertAt(Pids(t.leaves), i + 1, newPid);
  }

  /** Merging two leaves takes one separator and one child out of the root. */
  lemma RootAfterMerge(t: Tree, i: nat, a: Node)
    requires |t.leaves| == |t.seps| + 1 && i + 1 < |t.leaves|
    ensures
      var t' := Splice(t, i, 2, Tree([], [a]));
      && t'.seps == RemoveAt(t.seps, i)
      && (a.pid == t.leaves[i].pid ==> Pids(t'.leaves) == RemoveAt(Pids(t.leaves), i + 1))
      && (a.pid == t.leaves[i + 1].pid ==> Pids(t'.leaves) == RemoveAt(Pids(t.leaves), i))
  {
    var t' := Splice(t, i, 2, Tree([], [a]));
    if a.pid == t.leaves[i].pid {
      assert Pids(t'.leaves) == RemoveAt(Pids(t.leaves), i + 1);
    }
    if a.pid == t.leaves[i + 1].pid {
      assert Pids(t'.leaves) == RemoveAt(Pids(t.leaves), i);
    }
  }

  lemma Distribute(a: nat, b: nat, c: nat)
    ensures (a + b) * c == a * c + b * c
  {
  }

  /**
    * One more leaf than there is would still be allowed by the keys and `more` of them, when one leaf then has enough
    * for two.
    */
  lemma LeavesBoundedBeforeSplit(leaves: seq<Node>, i: nat, least: nat, more: nat)
    requires i < |leaves| && 2 * least <= |leaves[i].keys| + more
    requires forall j :: 0 <= j < |leaves| && j != i ==> least <= |leaves[j].keys|
    ensures (|leaves| + 1) * least <= |Keys(leaves)| + more
  {
    KeysAround(leaves, i);
    LeavesBounded(leaves[..i], least);
    LeavesBounded(leaves[i + 1..], least);
    hide Keys;
    Distribute(i, 2, least);
    Distribute(i + 2, |leaves| - i - 1, least);
  }

  /** A taken page is the tree's; the free pages are those that are left. */
  lemma AccountedTake(pageIds: set<nat>, free: seq<nat>, others: set<nat>, pageCount: nat, pid: nat)
    requires Accounted(pageIds, free, others, pageCount) && Distinct(free)
    requires free != [] ==> pid == free[0]
    requires free == [] ==> pid == pageCount > 0
    ensures pid !in pageIds && pid !in others
    ensures Accounted(pageIds + {pid}, if free == [] then [] else free[1..], others,
                      if free == [] then pageCount + 1 else pageCount)
  {
    if free != [] {
      var rest := free[1..];
      assert free == [free[0]] + rest;
      assert free[0] in free && free[0] !in rest;
      assert forall p :: p in free <==> p == free[0] || p in rest;
    }
  }

  lemma AccountedRelease(pageIds: set<nat>, free: seq<nat>, others: set<nat>, pageCount: nat, pid: nat)
    requires Accounted(pageIds, free, others, pageCount) && pid in pageIds
    ensures pid !in free && 0 < pid < pageCount
    ensures Accounted(pageIds - {pid}, [pid] + free, others, pageCount)
  {
  }

  /** A single empty leaf is a tree for the empty map. */
  lemma EmptyTree(pid: nat, order: nat, minKeys: nat)
    ensures
      var t := Tree([], [Leaf(pid, [], [], 0)]);
      && Shape(t, false) && Sized(t.leaves, order, minKeys, -1) && OwnPages(t, pid, {pid})
      && Represents(Keys(t.leaves), Rowids(t.leaves), map[])
  {
    OneContents(Leaf(pid, [], [], 0));
  }

  /** A page that the tree has is in the file and not free. */
  lemma OwnedPage(pageIds: set<nat>, free: seq<nat>, others: set<nat>, pageCount: nat, pid: nat)
    requires Accounted(pageIds, free, others, pageCount) && pid in pageIds
    ensures 0 < pid < pageCount && pid !in free && pid !in others
  {
  }

  lemma OthersInFile(pageIds: set<nat>, free: seq<nat>, others: set<nat>, pageCount: nat)
    requires Accounted(pageIds, free, others, pageCount)
    ensures forall p :: p in others ==> p < pageCount
  {
  }

  /** Two nodes written one after the other are both held. */
  lemma TwoWritten(pages: seq<seq<Byte>>, a: Node, b: Node, pageSize: nat)
    requires Fits(a, pageSize) && Fits(b, pageSize) && a.pid != b.pid && a.pid < |pages| && b.pid < |pages|
    ensures
      var pages' := pages[a.pid := NodePage(a, pageSize)][b.pid := NodePage(b, pageSize)];
      Holds(pages', a) && Holds(pages', b) && SameBut(pages, pages', {a.pid, b.pid})
  {
    hide NodePage, NodeOfPage, Writable, NodeSize;
    FitsReads(a, pageSize);
    FitsReads(b, pageSize);
  }

  lemma PairHeld(pages: seq<seq<Byte>>, a: Node, b: Node)
    requires Holds(pages, a) && Holds(pages, b)
    ensures LeavesHeld(pages, [a, b])
  {
    hide Holds;
  }

  lemma OneWritten(pages: seq<seq<Byte>>, n: Node, pageSize: nat)
    requires PageSizeOk(pageSize) && Writable(n) && n.pid < |pages|
    ensures
      var pages' := pages[n.pid := NodePage(n, pageSize)];
      (Fits(n, pageSize) ==> Holds(pages', n)) && SameBut(pages, pages', {n.pid})
    ensures SameBut(pages, pages, {n.pid})
  {
    hide NodePage, NodeOfPage, Writable, NodeSize;
    if Fits(n, pageSize) {
      FitsReads(n, pageSize);
    }
  }

  lemma KeptTwice(others: set<nat>, p0: seq<seq<Byte>>, p1: seq<seq<Byte>>, p2: seq<seq<Byte>>)
    requires Kept(others, p0, p1) && Kept(others, p1, p2)
    ensures Kept(others, p0, p2)
  {
  }

  lemma SameRoot(t: Tree, i: nat, n: Node, rootId: nat)
    requires 1 < |t.leaves| && i < |t.leaves| && n.pid == t.leaves[i].pid
    ensures RootNode(Tree(t.seps, t.leaves[i := n]), rootId) == RootNode(t, rootId)
  {
    assert Pids(t.leaves[i := n]) == Pids(t.leaves);
  }

  lemma KeptAll(others: set<nat>, pages: seq<seq<Byte>>)
    requires forall p :: p in others ==> p < |pages|
    ensures Kept(others, pages, pages)
  {
  }
}
