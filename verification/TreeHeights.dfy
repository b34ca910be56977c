/** Search trees of any height, page by page: what a lookup finds in them, and what the edits keep of them. */
module TreesOfAnyHeight {
  import opened Bytes
  import opened NodeCodec
  import opened NodeEdits
  import opened AnyHeight

  type Nodes = map<nat, Node>

  /** Page `p` is the top of a search tree of height `h` with all keys from `lo` on and below `hi`. */
  ghost predicate SearchAt(nodes: Nodes, p: nat, h: nat, lo: Option<int>, hi: Option<int>)
    decreases h, 0
  {
    && h > 0 && p in nodes && nodes[p].pid == p && (nodes[p].isLeaf <==> h == 1)
    && SearchNode(nodes[p], KidOf(nodes, h - 1), lo, hi)
  }

  ghost function KidOf(nodes: Nodes, h: nat): Kid
    decreases h, 1
  {
    (c: nat, lo: Option<int>, hi: Option<int>) => SearchAt(nodes, c, h, lo, hi)
  }

  /** The entries of the tree at `p`, in order. */
  ghost function EntriesAt(nodes: Nodes, p: nat, h: nat): Entries
    decreases h, 0
  {
    if h == 0 || p !in nodes then [] else InOrder(nodes[p], BelowOf(nodes, h - 1))
  }

  ghost function BelowOf(nodes: Nodes, h: nat): Below
    decreases h, 1
  {
    (c: nat) => EntriesAt(nodes, c, h)
  }

  /** The pages of the tree at `p`, and of the trees at a list of pages. */
  ghost function PagesAt(nodes: Nodes, p: nat, h: nat): set<nat>
    decreases h, 0
  {
    if h == 0 then {} else {p} + if p in nodes then ListPages(nodes, nodes[p].children, h - 1) else {}
  }

  ghost function ListPages(nodes: Nodes, cs: seq<nat>, h: nat): set<nat>
    decreases h, 1
  {
    set i, x | 0 <= i < |cs| && x in PagesAt(nodes, cs[i], h) :: x
  }

  /** No page is in the tree twice. */
  ghost predicate OwnAt(nodes: Nodes, p: nat, h: nat)
    decreases h, 0
  {
    h > 0 && p in nodes ==> p !in ListPages(nodes, nodes[p].children, h - 1) && OwnList(nodes, nodes[p].children, h - 1)
  }

  ghost predicate OwnList(nodes: Nodes, cs: seq<nat>, h: nat)
    decreases h, 1
  {
    && (forall i :: 0 <= i < |cs| ==> OwnAt(nodes, cs[i], h))
    && (forall i, j :: 0 <= i < j < |cs| ==> PagesAt(nodes, cs[i], h) !! PagesAt(nodes, cs[j], h))
  }

  // ---- Order and lookup

  /** The entries of a search tree increase and lie within its bounds, at every height. */
  lemma {:induction false} SearchedInOrder(nodes: Nodes, p: nat, h: nat, lo: Option<int>, hi: Option<int>)
    requires SearchAt(nodes, p, h, lo, hi)
    ensures Increasing(EntriesAt(nodes, p, h)) && AllWithin(EntriesAt(nodes, p, h), lo, hi)
    decreases h, 0
  {
    hide Under, Separators;
    if h > 1 {
      KidsSearchedInOrder(nodes, nodes[p].keys, nodes[p].children, h - 1, lo, hi);
      KidsInOrder(nodes[p].keys, nodes[p].children, BelowOf(nodes, h - 1), lo, hi);
    }
  }

  lemma {:induction false} KidsSearchedInOrder(nodes: Nodes, keys: seq<int>, children: seq<nat>, h: nat,
                                               lo: Option<int>, hi: Option<int>)
    requires SearchKids(keys, children, KidOf(nodes, h), lo, hi)
    ensures SearchKids(keys, children, OrderedBelow(BelowOf(nodes, h)), lo, hi)
    decreases h, 1
  {
    hide Separators, Increasing, AllWithin, SearchAt, EntriesAt;
    forall i | 0 <= i < |children| ensures KidAt(keys, children, OrderedBelow(BelowOf(nodes, h)), lo, hi, i) {
      assert KidAt(keys, children, KidOf(nodes, h), lo, hi, i);
      SearchedInOrder(nodes, children[i], h, LowBound(keys, i, lo), HighBound(keys, i, hi));
    }
  }

  /** A key is below a node exactly when it is below the child that the separators lead to, and with the same rowid. */
  lemma Descends(nodes: Nodes, p: nat, h: nat, lo: Option<int>, hi: Option<int>, key: int, i: nat)
    requires h > 1 && SearchAt(nodes, p, h, lo, hi) && IsChildIndex(nodes[p].keys, key, i)
    ensures i < |nodes[p].children|
    ensures SearchAt(nodes, nodes[p].children[i], h - 1, LowBound(nodes[p].keys, i, lo),
                     HighBound(nodes[p].keys, i, hi))
    ensures forall v ::
              (key, v) in EntriesAt(nodes, p, h) <==> (key, v) in EntriesAt(nodes, nodes[p].children[i], h - 1)
  {
    hide Under, Separators, SearchAt, EntriesAt, BelowOf, SearchKids, KidOf;
    Unfolded(nodes, p, h, lo, hi);
    var keys, children := nodes[p].keys, nodes[p].children;
    KidSearched(nodes, keys, children, h - 1, lo, hi, i);
    KidsSearchedInOrder(nodes, keys, children, h - 1, lo, hi);
    KidsDescend(keys, children, BelowOf(nodes, h - 1), lo, hi, key, i);
    BelowIs(nodes, children[i], h - 1);
  }

  lemma KidSearched(nodes: Nodes, keys: seq<int>, children: seq<nat>, h: nat, lo: Option<int>, hi: Option<int>, i: nat)
    requires SearchKids(keys, children, KidOf(nodes, h), lo, hi) && i <= |keys|
    ensures |children| == |keys| + 1 && SearchAt(nodes, children[i], h, LowBound(keys, i, lo), HighBound(keys, i, hi))
  {
    hide SearchAt, Separators;
    assert KidAt(keys, children, KidOf(nodes, h), lo, hi, i);
  }

  /** The same for one node over ordered subtrees. */
  lemma KidsDescend(keys: seq<int>, children: seq<nat>, below: Below, lo: Option<int>, hi: Option<int>, key: int,
                    i: nat)
    requires SearchKids(keys, children, OrderedBelow(below), lo, hi) && IsChildIndex(keys, key, i)
    ensures |children| == |keys| + 1
    ensures forall v :: (key, v) in Under(children, below) <==> (key, v) in below(children[i])
  {
    hide Under, Separators, OrderedBelow;
    assert |children| == |keys| + 1;
    var before, behind := Under(children[..i], below), Under(children[i + 1..], below);
    EntriesAround(children, i, below);
    if i > 0 {
      KidsSlice(keys, children, OrderedBelow(below), lo, hi, 0, i - 1);
      assert children[0..i] == children[..i];
      KidsInOrder(keys[0..i - 1], children[..i], below, lo, Some(keys[i - 1]));
    } else {
      NothingUnder(children[..i], below);
    }
    if i < |keys| {
      KidsSlice(keys, children, OrderedBelow(below), lo, hi, i + 1, |keys|);
      assert children[i + 1..|keys| + 1] == children[i + 1..];
      KidsInOrder(keys[i + 1..|keys|], children[i + 1..], below, Some(keys[i]), hi);
    } else {
      NothingUnder(children[i + 1..], below);
    }
    NoKeyOutside(before, behind, keys, key, i, lo, hi);
  }

  lemma NothingUnder(children: seq<nat>, below: Below)
    requires children == []
    ensures Under(children, below) == []
  {
  }

  lemma BelowIs(nodes: Nodes, c: nat, h: nat)
    ensures BelowOf(nodes, h)(c) == EntriesAt(nodes, c, h)
  {
  }

  lemma Unfolded(nodes: Nodes, p: nat, h: nat, lo: Option<int>, hi: Option<int>)
    requires h > 1 && SearchAt(nodes, p, h, lo, hi)
    ensures p in nodes && SearchKids(nodes[p].keys, nodes[p].children, KidOf(nodes, h - 1), lo, hi)
    ensures |nodes[p].children| == |nodes[p].keys| + 1 && !nodes[p].isLeaf
    ensures EntriesAt(nodes, p, h) == Under(nodes[p].children, BelowOf(nodes, h - 1))
  {
  }

  lemma EntriesAround(children: seq<nat>, i: nat, below: Below)
    requires i < |children|
    ensures Under(children, below) == Under(children[..i], below) + below(children[i]) + Under(children[i + 1..], below)
  {
    hide *;
    Around(children, i);
    UnderConcat(children[..i] + [children[i]], children[i + 1..], below);
    UnderConcat(children[..i], [children[i]], below);
    UnderOne(children[i], below);
  }

  lemma NoKeyOutside(before: Entries, behind: Entries, keys: seq<int>, key: int, i: nat, lo: Option<int>,
                     hi: Option<int>)
    requires IsChildIndex(keys, key, i)
    requires if i > 0 then AllWithin(before, lo, Some(keys[i - 1])) else before == []
    requires if i < |keys| then AllWithin(behind, Some(keys[i]), hi) else behind == []
    ensures forall v :: (key, v) !in before && (key, v) !in behind
  {
  }

  /** The search from a root down, for a tree of any height. */
  method FindLeaf(nodes: Nodes, root: nat, ghost h: nat, key: int) returns (leaf: Node)
    requires SearchAt(nodes, root, h, None, None)
    ensures leaf.isLeaf && |leaf.values| == |leaf.keys|
    ensures forall v :: (key, v) in EntriesAt(nodes, root, h) <==> (key, v) in Pairs(leaf.keys, leaf.values)
  {
    hide EntriesAt, KidOf, BelowOf;
    leaf := nodes[root];
    ghost var at, lo, hi := h, None, None;
    while !leaf.isLeaf
      invariant SearchAt(nodes, leaf.pid, at, lo, hi) && leaf == nodes[leaf.pid]
      invariant forall v :: (key, v) in EntriesAt(nodes, root, h) <==> (key, v) in EntriesAt(nodes, leaf.pid, at)
      decreases at
    {
      var i := ChildIndex(leaf.keys, key);
      Descends(nodes, leaf.pid, at, lo, hi, key, i);
      lo, hi, at := LowBound(leaf.keys, i, lo), HighBound(leaf.keys, i, hi), at - 1;
      leaf := nodes[leaf.children[i]];
    }
    LeafEntries(nodes, leaf.pid, lo, hi);
  }

  lemma LeafEntries(nodes: Nodes, p: nat, lo: Option<int>, hi: Option<int>)
    requires SearchAt(nodes, p, 1, lo, hi)
    ensures EntriesAt(nodes, p, 1) == Pairs(nodes[p].keys, nodes[p].values) && |nodes[p].values| == |nodes[p].keys|
  {
  }

  // ---- Pages that an edit does not touch

  ghost predicate Agree(nodes: Nodes, nodes': Nodes, pages: set<nat>) {
    forall x :: x in pages ==> (x in nodes' <==> x in nodes) && (x in nodes ==> nodes'[x] == nodes[x])
  }

  lemma AgreeLess(nodes: Nodes, nodes': Nodes, pages: set<nat>, fewer: set<nat>)
    requires Agree(nodes, nodes', pages) && fewer <= pages
    ensures Agree(nodes, nodes', fewer)
  {
  }

  lemma PageOfTree(nodes: Nodes, p: nat, h: nat)
    requires h > 0
    ensures p in PagesAt(nodes, p, h)
    ensures p in nodes ==> ListPages(nodes, nodes[p].children, h - 1) <= PagesAt(nodes, p, h)
  {
  }

  lemma PagesOfMember(nodes: Nodes, cs: seq<nat>, h: nat, i: nat)
    requires i < |cs|
    ensures PagesAt(nodes, cs[i], h) <= ListPages(nodes, cs, h)
  {
    hide PagesAt;
  }

  /** A tree whose pages are all as before is as before. */
  lemma {:induction false} SameTree(nodes: Nodes, nodes': Nodes, p: nat, h: nat)
    requires Agree(nodes, nodes', PagesAt(nodes, p, h))
    ensures PagesAt(nodes', p, h) == PagesAt(nodes, p, h) && EntriesAt(nodes', p, h) == EntriesAt(nodes, p, h)
    ensures OwnAt(nodes', p, h) == OwnAt(nodes, p, h)
    ensures forall lo, hi :: SearchAt(nodes', p, h, lo, hi) == SearchAt(nodes, p, h, lo, hi)
    decreases h, 0
  {
    hide ListPages, OwnList, SearchKids, Under, Agree;
    if h > 0 {
      PageOfTree(nodes, p, h);
      AgreeAt(nodes, nodes', PagesAt(nodes, p, h), p);
      if p in nodes {
        var cs := nodes[p].children;
        AgreeLess(nodes, nodes', PagesAt(nodes, p, h), ListPages(nodes, cs, h - 1));
        SameList(nodes, nodes', cs, h - 1);
        forall lo, hi ensures SearchAt(nodes', p, h, lo, hi) == SearchAt(nodes, p, h, lo, hi) {
          SameKids(nodes, nodes', nodes[p].keys, cs, h - 1, lo, hi);
        }
      }
    }
  }

  lemma AgreeAt(nodes: Nodes, nodes': Nodes, pages: set<nat>, p: nat)
    requires Agree(nodes, nodes', pages) && p in pages
    ensures (p in nodes' <==> p in nodes) && (p in nodes ==> nodes'[p] == nodes[p])
  {
  }

  ghost predicate SameSearch(nodes: Nodes, nodes': Nodes, cs: seq<nat>, h: nat) {
    forall i, lo, hi :: 0 <= i < |cs| ==> SearchAt(nodes', cs[i], h, lo, hi) == SearchAt(nodes, cs[i], h, lo, hi)
  }

  lemma {:induction false} SameList(nodes: Nodes, nodes': Nodes, cs: seq<nat>, h: nat)
    requires Agree(nodes, nodes', ListPages(nodes, cs, h))
    ensures ListPages(nodes', cs, h) == ListPages(nodes, cs, h)
    ensures Under(cs, BelowOf(nodes', h)) == Under(cs, BelowOf(nodes, h))
    ensures OwnList(nodes', cs, h) == OwnList(nodes, cs, h)
    ensures SameSearch(nodes, nodes', cs, h)
    decreases h, 1
  {
    hide PagesAt, OwnAt, SearchAt, EntriesAt, Agree, Under;
    forall i | 0 <= i < |cs|
      ensures PagesAt(nodes', cs[i], h) == PagesAt(nodes, cs[i], h)
      ensures EntriesAt(nodes', cs[i], h) == EntriesAt(nodes, cs[i], h)
      ensures OwnAt(nodes', cs[i], h) == OwnAt(nodes, cs[i], h)
      ensures forall lo, hi :: SearchAt(nodes', cs[i], h, lo, hi) == SearchAt(nodes, cs[i], h, lo, hi)
    {
      PagesOfMember(nodes, cs, h, i);
      AgreeLess(nodes, nodes', ListPages(nodes, cs, h), PagesAt(nodes, cs[i], h));
      SameTree(nodes, nodes', cs[i], h);
    }
    UnderSame(cs, BelowOf(nodes, h), BelowOf(nodes', h));
  }

  lemma SameKids(nodes: Nodes, nodes': Nodes, keys: seq<int>, cs: seq<nat>, h: nat, lo: Option<int>, hi: Option<int>)
    requires SameSearch(nodes, nodes', cs, h)
    ensures SearchKids(keys, cs, KidOf(nodes', h), lo, hi) == SearchKids(keys, cs, KidOf(nodes, h), lo, hi)
  {
    hide SearchAt, Separators;
    if |cs| == |keys| + 1 {
      forall i | 0 <= i < |cs|
        ensures KidAt(keys, cs, KidOf(nodes', h), lo, hi, i) == KidAt(keys, cs, KidOf(nodes, h), lo, hi, i)
      {
      }
    }
  }

  // ---- Lists of subtrees

  lemma ListConcat(nodes: Nodes, a: seq<nat>, b: seq<nat>, h: nat)
    ensures ListPages(nodes, a + b, h) == ListPages(nodes, a, h) + ListPages(nodes, b, h)
    ensures OwnList(nodes, a + b, h)
       <==> OwnList(nodes, a, h) && OwnList(nodes, b, h) && ListPages(nodes, a, h) !! ListPages(nodes, b, h)
  {
    hide PagesAt, OwnAt;
    PagesConcat(nodes, a, b, h);
    OwnConcat(nodes, a, b, h);
  }

  lemma PagesConcat(nodes: Nodes, a: seq<nat>, b: seq<nat>, h: nat)
    ensures ListPages(nodes, a + b, h) == ListPages(nodes, a, h) + ListPages(nodes, b, h)
  {
    hide PagesAt, OwnAt;
    var s := a + b;
    forall x | x in ListPages(nodes, s, h) ensures x in ListPages(nodes, a, h) + ListPages(nodes, b, h) {
      var i :| 0 <= i < |s| && x in PagesAt(nodes, s[i], h);
      assert s[i] == if i < |a| then a[i] else b[i - |a|];
    }
    forall i | 0 <= i < |a| ensures PagesAt(nodes, a[i], h) <= ListPages(nodes, s, h) {
      assert s[i] == a[i];
    }
    forall i | 0 <= i < |b| ensures PagesAt(nodes, b[i], h) <= ListPages(nodes, s, h) {
      assert s[|a| + i] == b[i];
    }
  }

  lemma OwnConcat(nodes: Nodes, a: seq<nat>, b: seq<nat>, h: nat)
    ensures OwnList(nodes, a + b, h)
       <==> OwnList(nodes, a, h) && OwnList(nodes, b, h) && ListPages(nodes, a, h) !! ListPages(nodes, b, h)
  {
    hide OwnList, ListPages;
    if OwnList(nodes, a + b, h) {
      OwnParts(nodes, a, b, h);
    }
    if OwnList(nodes, a, h) && OwnList(nodes, b, h) && ListPages(nodes, a, h) !! ListPages(nodes, b, h) {
      OwnWhole(nodes, a, b, h);
    }
  }

  lemma OwnParts(nodes: Nodes, a: seq<nat>, b: seq<nat>, h: nat)
    requires OwnList(nodes, a + b, h)
    ensures OwnList(nodes, a, h) && OwnList(nodes, b, h) && ListPages(nodes, a, h) !! ListPages(nodes, b, h)
  {
    hide PagesAt, OwnAt;
    var s := a + b;
    forall i | 0 <= i < |a| ensures s[i] == a[i] {}
    forall i | 0 <= i < |b| ensures OwnAt(nodes, b[i], h) {
      assert s[|a| + i] == b[i];
    }
    forall i, j | 0 <= i < j < |b| ensures PagesAt(nodes, b[i], h) !! PagesAt(nodes, b[j], h) {
      assert s[|a| + i] == b[i] && s[|a| + j] == b[j];
    }
    forall i, j | 0 <= i < |a| && 0 <= j < |b| ensures PagesAt(nodes, a[i], h) !! PagesAt(nodes, b[j], h) {
      assert s[i] == a[i] && s[|a| + j] == b[j];
    }
  }

  lemma OwnWhole(nodes: Nodes, a: seq<nat>, b: seq<nat>, h: nat)
    requires OwnList(nodes, a, h) && OwnList(nodes, b, h) && ListPages(nodes, a, h) !! ListPages(nodes, b, h)
    ensures OwnList(nodes, a + b, h)
  {
    hide PagesAt, OwnAt;
    var s := a + b;
    forall i | 0 <= i < |s| ensures s[i] == if i < |a| then a[i] else b[i - |a|] {}
    forall i, j | 0 <= i < j < |s| ensures PagesAt(nodes, s[i], h) !! PagesAt(nodes, s[j], h) {
      if i < |a| <= j {
        PagesOfMember(nodes, a, h, i);
        PagesOfMember(nodes, b, h, j - |a|);
      }
    }
  }

  lemma ListOne(nodes: Nodes, p: nat, h: nat)
    requires h > 0 && p in nodes
    ensures ListPages(nodes, [p], h) == {p} + ListPages(nodes, nodes[p].children, h - 1)
    ensures OwnList(nodes, [p], h)
       <==> OwnList(nodes, nodes[p].children, h - 1) && p !in ListPages(nodes, nodes[p].children, h - 1)
  {
    assert PagesAt(nodes, p, h) == {p} + ListPages(nodes, nodes[p].children, h - 1);
    assert OwnAt(nodes, p, h)
      <==> OwnList(nodes, nodes[p].children, h - 1) && p !in ListPages(nodes, nodes[p].children, h - 1);
    ListSingle(nodes, p, h);
  }

  lemma ListSingle(nodes: Nodes, p: nat, h: nat)
    ensures ListPages(nodes, [p], h) == PagesAt(nodes, p, h) && (OwnList(nodes, [p], h) <==> OwnAt(nodes, p, h))
  {
    hide PagesAt, OwnAt;
    assert [p][0] == p;
    PagesOfMember(nodes, [p], h, 0);
  }

  /** Two neighbouring subtrees, seen as their two tops and the list of all children below. */
  lemma ListTwo(nodes: Nodes, p: nat, q: nat, h: nat)
    requires h > 0 && p in nodes && q in nodes
    ensures
      var cs := nodes[p].children + nodes[q].children;
      && ListPages(nodes, [p, q], h) == {p, q} + ListPages(nodes, cs, h - 1)
      && (OwnList(nodes, [p, q], h) <==>
            && OwnList(nodes, cs, h - 1) && p != q
            && p !in ListPages(nodes, cs, h - 1) && q !in ListPages(nodes, cs, h - 1))
  {
    hide ListPages, OwnList;
    assert [p, q] == [p] + [q];
    ListConcat(nodes, [p], [q], h);
    ListOne(nodes, p, h);
    ListOne(nodes, q, h);
    ListConcat(nodes, nodes[p].children, nodes[q].children, h - 1);
  }

  lemma NoPages(nodes: Nodes, cs: seq<nat>)
    ensures ListPages(nodes, cs, 0) == {} && OwnList(nodes, cs, 0)
  {
  }

  // ---- A subtree that is rebuilt in its place

  /** The tree at `p` is a search tree again, with the same entries, on its own pages and fresh ones. */
  ghost predicate Rebuilt(nodes: Nodes, nodes': Nodes, p: nat, h: nat, lo: Option<int>, hi: Option<int>,
                          spare: set<nat>) {
    && SearchAt(nodes', p, h, lo, hi) && OwnAt(nodes', p, h)
    && EntriesAt(nodes', p, h) == EntriesAt(nodes, p, h) && PagesAt(nodes', p, h) <= PagesAt(nodes, p, h) + spare
  }

  /** Everything but child `i` of `p` is as it was. */
  ghost predicate OnlyBelow(nodes: Nodes, nodes': Nodes, p: nat, h: nat, i: nat)
    requires h > 1 && p in nodes && i < |nodes[p].children|
  {
    Agree(nodes, nodes', PagesAt(nodes, p, h) - PagesAt(nodes, nodes[p].children[i], h - 1))
  }

  /** The children before and behind child `i`, and `p` itself, have none of child `i`'s pages. */
  lemma AroundChild(nodes: Nodes, nodes': Nodes, p: nat, h: nat, i: nat)
    requires h > 1 && p in nodes && i < |nodes[p].children| && OwnAt(nodes, p, h) && OnlyBelow(nodes, nodes', p, h, i)
    ensures
      var cs := nodes[p].children;
      var a, c, b := cs[..i], cs[i], cs[i + 1..];
      && p in nodes' && nodes'[p] == nodes[p]
      && Agree(nodes, nodes', ListPages(nodes, a, h - 1)) && Agree(nodes, nodes', ListPages(nodes, b, h - 1))
      && PagesAt(nodes, p, h)
          == {p} + ListPages(nodes, a, h - 1) + PagesAt(nodes, c, h - 1) + ListPages(nodes, b, h - 1)
      && OwnList(nodes, a, h - 1) && OwnAt(nodes, c, h - 1) && OwnList(nodes, b, h - 1)
      && p !in ListPages(nodes, a, h - 1) + PagesAt(nodes, c, h - 1) + ListPages(nodes, b, h - 1)
      && ListPages(nodes, a, h - 1) !! PagesAt(nodes, c, h - 1) !! ListPages(nodes, b, h - 1)
  {
    hide ListPages, OwnList, Agree;
    var cs := nodes[p].children;
    ListAround(nodes, cs, i, h - 1);
    PageOfTree(nodes, p, h);
    var rest := PagesAt(nodes, p, h) - PagesAt(nodes, cs[i], h - 1);
    AgreeAt(nodes, nodes', rest, p);
    AgreeLess(nodes, nodes', rest, ListPages(nodes, cs[..i], h - 1));
    AgreeLess(nodes, nodes', rest, ListPages(nodes, cs[i + 1..], h - 1));
  }

  lemma ListAround(nodes: Nodes, cs: seq<nat>, i: nat, h: nat)
    requires i < |cs|
    ensures ListPages(nodes, cs, h)
         == ListPages(nodes, cs[..i], h) + PagesAt(nodes, cs[i], h) + ListPages(nodes, cs[i + 1..], h)
    ensures OwnList(nodes, cs, h)
       <==> OwnList(nodes, cs[..i], h) && OwnAt(nodes, cs[i], h) && OwnList(nodes, cs[i + 1..], h)
            && ListPages(nodes, cs[..i], h) !! PagesAt(nodes, cs[i], h) !! ListPages(nodes, cs[i + 1..], h)
  {
    hide *;
    Around(cs, i);
    ListConcat(nodes, cs[..i] + [cs[i]], cs[i + 1..], h);
    ListConcat(nodes, cs[..i], [cs[i]], h);
    ListSingle(nodes, cs[i], h);
  }

  lemma RebuiltParent(nodes: Nodes, nodes': Nodes, p: nat, h: nat, lo: Option<int>, hi: Option<int>, i: nat,
                      spare: set<nat>)
    requires h > 1 && SearchAt(nodes, p, h, lo, hi) && OwnAt(nodes, p, h) && i < |nodes[p].children|
    requires OnlyBelow(nodes, nodes', p, h, i) && spare !! PagesAt(nodes, p, h)
    requires |nodes[p].children| == |nodes[p].keys| + 1
    requires Rebuilt(nodes, nodes', nodes[p].children[i], h - 1, LowBound(nodes[p].keys, i, lo),
                     HighBound(nodes[p].keys, i, hi), spare)
    ensures Rebuilt(nodes, nodes', p, h, lo, hi, spare)
  {
    hide SearchAt, OwnAt, EntriesAt, PagesAt, ListPages, OwnList, Agree, OnlyBelow, SameSearch;
    Unfolded(nodes, p, h, lo, hi);
    AroundChild(nodes, nodes', p, h, i);
    var cs := nodes[p].children;
    SameList(nodes, nodes', cs[..i], h - 1);
    SameList(nodes, nodes', cs[i + 1..], h - 1);
    RebuiltSearch(nodes, nodes', p, h, lo, hi, i);
    RebuiltEntries(nodes, nodes', p, h, i);
    RebuiltOwn(nodes, nodes', p, h, i, spare);
  }

  lemma RebuiltSearch(nodes: Nodes, nodes': Nodes, p: nat, h: nat, lo: Option<int>, hi: Option<int>, i: nat)
    requires h > 1 && SearchAt(nodes, p, h, lo, hi) && i < |nodes[p].children| == |nodes[p].keys| + 1
    requires p in nodes' && nodes'[p] == nodes[p]
    requires SameSearch(nodes, nodes', nodes[p].children[..i], h - 1)
    requires SameSearch(nodes, nodes', nodes[p].children[i + 1..], h - 1)
    requires SearchAt(nodes', nodes[p].children[i], h - 1, LowBound(nodes[p].keys, i, lo),
                      HighBound(nodes[p].keys, i, hi))
    ensures SearchAt(nodes', p, h, lo, hi)
  {
    var keys, cs, kid' := nodes[p].keys, nodes[p].children, KidOf(nodes', h - 1);
    Unfolded(nodes, p, h, lo, hi);
    forall k | 0 <= k < |cs| ensures KidAt(keys, cs, kid', lo, hi, k) {
      var lo', hi' := LowBound(keys, k, lo), HighBound(keys, k, hi);
      KidSearched(nodes, keys, cs, h - 1, lo, hi, k);
      if k < i {
        assert cs[..i][k] == cs[k];
        assert SearchAt(nodes', cs[..i][k], h - 1, lo', hi');
      } else if k > i {
        assert cs[i + 1..][k - i - 1] == cs[k];
        assert SearchAt(nodes', cs[i + 1..][k - i - 1], h - 1, lo', hi');
      }
      assert SearchAt(nodes', cs[k], h - 1, lo', hi');
    }
  }

  lemma RebuiltEntries(nodes: Nodes, nodes': Nodes, p: nat, h: nat, i: nat)
    requires h > 1 && p in nodes && p in nodes' && nodes'[p] == nodes[p] && !nodes[p].isLeaf && i < |nodes[p].children|
    requires Under(nodes[p].children[..i], BelowOf(nodes', h - 1))
          == Under(nodes[p].children[..i], BelowOf(nodes, h - 1))
    requires Under(nodes[p].children[i + 1..], BelowOf(nodes', h - 1))
          == Under(nodes[p].children[i + 1..], BelowOf(nodes, h - 1))
    requires EntriesAt(nodes', nodes[p].children[i], h - 1) == EntriesAt(nodes, nodes[p].children[i], h - 1)
    ensures EntriesAt(nodes', p, h) == EntriesAt(nodes, p, h)
  {
    hide Under;
    EntriesAround(nodes[p].children, i, BelowOf(nodes, h - 1));
    EntriesAround(nodes[p].children, i, BelowOf(nodes', h - 1));
  }

  lemma RebuiltOwn(nodes: Nodes, nodes': Nodes, p: nat, h: nat, i: nat, spare: set<nat>)
    requires h > 1 && p in nodes && p in nodes' && nodes'[p] == nodes[p] && i < |nodes[p].children|
    requires OwnAt(nodes, p, h) && OnlyBelow(nodes, nodes', p, h, i) && spare !! PagesAt(nodes, p, h)
    requires OwnAt(nodes', nodes[p].children[i], h - 1)
    requires PagesAt(nodes', nodes[p].children[i], h - 1) <= PagesAt(nodes, nodes[p].children[i], h - 1) + spare
    ensures OwnAt(nodes', p, h) && PagesAt(nodes', p, h) <= PagesAt(nodes, p, h) + spare
  {
    hide ListPages, OwnList, Agree, OnlyBelow;
    var cs := nodes[p].children;
    AroundChild(nodes, nodes', p, h, i);
    SameList(nodes, nodes', cs[..i], h - 1);
    SameList(nodes, nodes', cs[i + 1..], h - 1);
    ListAround(nodes', cs, i, h - 1);
  }

  // ---- Places in a tree

  datatype Place = Place(page: nat, height: nat, lo: Option<int>, hi: Option<int>)

  /** Child numbers on the way down from `p`. */
  ghost predicate IsPath(nodes: Nodes, p: nat, h: nat, path: seq<nat>)
    decreases |path|
  {
    path == [] ||
    (h > 1 && p in nodes && path[0] < |nodes[p].children| == |nodes[p].keys| + 1
     && IsPath(nodes, nodes[p].children[path[0]], h - 1, path[1..]))
  }

  /** Where the path leads, and the bounds there. */
  ghost function PlaceAt(nodes: Nodes, p: nat, h: nat, lo: Option<int>, hi: Option<int>, path: seq<nat>): Place
    requires IsPath(nodes, p, h, path)
    decreases |path|
  {
    if path == [] then Place(p, h, lo, hi)
    else
      var i := path[0];
      PlaceAt(nodes, nodes[p].children[i], h - 1, LowBound(nodes[p].keys, i, lo), HighBound(nodes[p].keys, i, hi),
              path[1..])
  }

  lemma {:induction false} PlaceInTree(nodes: Nodes, p: nat, h: nat, lo: Option<int>, hi: Option<int>, path: seq<nat>)
    requires SearchAt(nodes, p, h, lo, hi) && OwnAt(nodes, p, h) && IsPath(nodes, p, h, path)
    ensures
      var at := PlaceAt(nodes, p, h, lo, hi, path);
      && SearchAt(nodes, at.page, at.height, at.lo, at.hi) && OwnAt(nodes, at.page, at.height)
      && PagesAt(nodes, at.page, at.height) <= PagesAt(nodes, p, h)
    decreases |path|
  {
    hide SearchAt, PagesAt, ListPages, OwnAt, OwnList;
    if path != [] {
      Unfolded(nodes, p, h, lo, hi);
      ChildInTree(nodes, p, h, lo, hi, path[0]);
      PlaceInTree(nodes, nodes[p].children[path[0]], h - 1, LowBound(nodes[p].keys, path[0], lo),
                  HighBound(nodes[p].keys, path[0], hi), path[1..]);
    }
  }

  lemma ChildInTree(nodes: Nodes, p: nat, h: nat, lo: Option<int>, hi: Option<int>, i: nat)
    requires h > 1 && SearchAt(nodes, p, h, lo, hi) && OwnAt(nodes, p, h)
    requires i < |nodes[p].children| == |nodes[p].keys| + 1
    ensures SearchAt(nodes, nodes[p].children[i], h - 1, LowBound(nodes[p].keys, i, lo),
                     HighBound(nodes[p].keys, i, hi))
    ensures OwnAt(nodes, nodes[p].children[i], h - 1)
    ensures PagesAt(nodes, nodes[p].children[i], h - 1) <= PagesAt(nodes, p, h)
  {
    KidSearched(nodes, nodes[p].keys, nodes[p].children, h - 1, lo, hi, i);
    PagesOfMember(nodes, nodes[p].children, h - 1, i);
    PageOfTree(nodes, p, h);
  }

  /** What is rebuilt anywhere below `p` rebuilds the tree at `p`. */
  lemma {:induction false} RebuiltAbove(nodes: Nodes, nodes': Nodes, p: nat, h: nat, lo: Option<int>, hi: Option<int>,
                                        path: seq<nat>, spare: set<nat>)
    requires SearchAt(nodes, p, h, lo, hi) && OwnAt(nodes, p, h) && IsPath(nodes, p, h, path)
    requires
      var at := PlaceAt(nodes, p, h, lo, hi, path);
      && Rebuilt(nodes, nodes', at.page, at.height, at.lo, at.hi, spare)
      && Agree(nodes, nodes', PagesAt(nodes, p, h) - PagesAt(nodes, at.page, at.height))
    requires spare !! PagesAt(nodes, p, h)
    ensures Rebuilt(nodes, nodes', p, h, lo, hi, spare)
    decreases |path|
  {
    hide SearchAt, PagesAt, ListPages, OwnAt, OwnList, Agree, Rebuilt;
    if path != [] {
      var i, c := path[0], nodes[p].children[path[0]];
      var lo', hi' := LowBound(nodes[p].keys, i, lo), HighBound(nodes[p].keys, i, hi);
      Unfolded(nodes, p, h, lo, hi);
      ChildInTree(nodes, p, h, lo, hi, i);
      PlaceInTree(nodes, c, h - 1, lo', hi', path[1..]);
      var at := PlaceAt(nodes, c, h - 1, lo', hi', path[1..]);
      var rest := PagesAt(nodes, p, h) - PagesAt(nodes, at.page, at.height);
      AgreeLess(nodes, nodes', rest, PagesAt(nodes, c, h - 1) - PagesAt(nodes, at.page, at.height));
      AgreeLess(nodes, nodes', rest, PagesAt(nodes, p, h) - PagesAt(nodes, c, h - 1));
      RebuiltAbove(nodes, nodes', c, h - 1, lo', hi', path[1..], spare);
      RebuiltParent(nodes, nodes', p, h, lo, hi, i, spare);
    }
  }

  // ---- One edit, at a node and its parent

  /** A node whose children's trees are as they were. */
  lemma SameNode(nodes: Nodes, nodes': Nodes, n: Node, h: nat)
    requires Agree(nodes, nodes', ListPages(nodes, n.children, h))
    ensures InOrder(n, BelowOf(nodes', h)) == InOrder(n, BelowOf(nodes, h))
    ensures ListPages(nodes', n.children, h) == ListPages(nodes, n.children, h)
    ensures OwnList(nodes', n.children, h) == OwnList(nodes, n.children, h)
    ensures forall lo, hi :: SearchNode(n, KidOf(nodes', h), lo, hi) == SearchNode(n, KidOf(nodes, h), lo, hi)
  {
    hide SearchKids, Under, ListPages, OwnList, Agree, SameSearch;
    SameList(nodes, nodes', n.children, h);
    if !n.isLeaf {
      forall lo, hi ensures SearchNode(n, KidOf(nodes', h), lo, hi) == SearchNode(n, KidOf(nodes, h), lo, hi) {
        SameKids(nodes, nodes', n.keys, n.children, h, lo, hi);
      }
    }
  }

  /** The children of `q` in three runs. */
  lemma ThreeRuns(nodes: Nodes, q: nat, k: nat, a: seq<nat>, run: seq<nat>, b: seq<nat>)
    requires k > 0 && q in nodes && OwnAt(nodes, q, k) && nodes[q].children == a + run + b
    ensures OwnList(nodes, a, k - 1) && OwnList(nodes, run, k - 1) && OwnList(nodes, b, k - 1)
    ensures ListPages(nodes, a, k - 1) !! ListPages(nodes, run, k - 1) !! ListPages(nodes, b, k - 1)
    ensures q !in ListPages(nodes, a, k - 1) + ListPages(nodes, run, k - 1) + ListPages(nodes, b, k - 1)
    ensures PagesAt(nodes, q, k)
         == {q} + ListPages(nodes, a, k - 1) + ListPages(nodes, run, k - 1) + ListPages(nodes, b, k - 1)
  {
    hide ListPages, OwnList;
    ListConcat(nodes, a + run, b, k - 1);
    ListConcat(nodes, a, run, k - 1);
  }

  /** `q` has another run of children in the place of one of its runs; the other children's trees are as they were. */
  ghost predicate RunReplaced(nodes: Nodes, nodes': Nodes, q: nat, k: nat, a: seq<nat>, run: seq<nat>, run': seq<nat>,
                              b: seq<nat>) {
    && k > 1 && q in nodes && q in nodes' && !nodes[q].isLeaf && !nodes'[q].isLeaf
    && nodes[q].children == a + run + b && nodes'[q].children == a + run' + b
    && Agree(nodes, nodes', ListPages(nodes, a, k - 1)) && Agree(nodes, nodes', ListPages(nodes, b, k - 1))
  }

  lemma RunEntries(nodes: Nodes, nodes': Nodes, q: nat, k: nat, a: seq<nat>, run: seq<nat>, run': seq<nat>, b: seq<nat>)
    requires RunReplaced(nodes, nodes', q, k, a, run, run', b)
    requires Under(run', BelowOf(nodes', k - 1)) == Under(run, BelowOf(nodes, k - 1))
    ensures EntriesAt(nodes', q, k) == EntriesAt(nodes, q, k)
  {
    hide Under, ListPages, OwnList, SameSearch, Agree;
    SameList(nodes, nodes', a, k - 1);
    SameList(nodes, nodes', b, k - 1);
    UnderConcat(a + run, b, BelowOf(nodes, k - 1));
    UnderConcat(a, run, BelowOf(nodes, k - 1));
    UnderConcat(a + run', b, BelowOf(nodes', k - 1));
    UnderConcat(a, run', BelowOf(nodes', k - 1));
  }

  lemma RunOwn(nodes: Nodes, nodes': Nodes, q: nat, k: nat, a: seq<nat>, run: seq<nat>, run': seq<nat>, b: seq<nat>,
               spare: set<nat>)
    requires RunReplaced(nodes, nodes', q, k, a, run, run', b) && OwnAt(nodes, q, k) && spare !! PagesAt(nodes, q, k)
    requires OwnList(nodes', run', k - 1) && ListPages(nodes', run', k - 1) <= ListPages(nodes, run, k - 1) + spare
    ensures OwnAt(nodes', q, k) && PagesAt(nodes', q, k) <= PagesAt(nodes, q, k) + spare
  {
    hide Under, ListPages, OwnList, SameSearch, Agree;
    ThreeRuns(nodes, q, k, a, run, b);
    SameList(nodes, nodes', a, k - 1);
    SameList(nodes, nodes', b, k - 1);
    ListConcat(nodes', a + run', b, k - 1);
    ListConcat(nodes', a, run', k - 1);
  }

  /** The children outside the run are search trees as they were. */
  lemma RunOthers(nodes: Nodes, nodes': Nodes, keys: seq<int>, cs: seq<nat>, i: nat, j: nat, h: nat, lo: Option<int>,
                  hi: Option<int>)
    requires SearchKids(keys, cs, KidOf(nodes, h), lo, hi) && i <= j <= |cs|
    requires SameSearch(nodes, nodes', cs[..i], h) && SameSearch(nodes, nodes', cs[j..], h)
    ensures OthersOk(keys, cs, i, j, KidOf(nodes', h), lo, hi)
  {
    hide SearchAt, Separators;
    forall k | 0 <= k < |cs| && !(i <= k < j) ensures KidAt(keys, cs, KidOf(nodes', h), lo, hi, k) {
      var lo', hi' := LowBound(keys, k, lo), HighBound(keys, k, hi);
      KidSearched(nodes, keys, cs, h, lo, hi, k);
      if k < i {
        assert cs[..i][k] == cs[k];
        assert SearchAt(nodes', cs[..i][k], h, lo', hi');
      } else {
        assert cs[j..][k - j] == cs[k];
        assert SearchAt(nodes', cs[j..][k - j], h, lo', hi');
      }
    }
  }

  /** Pages written or given up: the parent's and those of the run. */
  ghost predicate Written(nodes: Nodes, nodes': Nodes, pages: set<nat>) {
    forall x :: x !in pages ==> (x in nodes' <==> x in nodes) && (x in nodes ==> nodes'[x] == nodes[x])
  }

  lemma AgreeApart(nodes: Nodes, nodes': Nodes, pages: set<nat>, apart: set<nat>)
    requires Written(nodes, nodes', pages) && pages !! apart
    ensures Agree(nodes, nodes', apart)
  {
  }

  /** Children `i` and `i + 1` of `q` became `l` and `r`, with the same children below and the same entries. */
  lemma PairEdited(nodes: Nodes, nodes': Nodes, q: nat, k: nat, lo: Option<int>, hi: Option<int>, i: nat, l: Node,
                   sep: int, r: Node)
    requires k > 1 && SearchAt(nodes, q, k, lo, hi) && OwnAt(nodes, q, k)
    requires i + 1 < |nodes[q].children| == |nodes[q].keys| + 1
    requires
      var x, y := nodes[q].children[i], nodes[q].children[i + 1];
      && x in nodes && y in nodes && l.pid == x && r.pid == y && (l.isLeaf <==> k == 2) && (r.isLeaf <==> k == 2)
      && (k == 2 || l.children + r.children == nodes[x].children + nodes[y].children)
      && Beside(l, sep, r, KidOf(nodes, k - 2), BelowOf(nodes, k - 2), LowBound(nodes[q].keys, i, lo),
                HighBound(nodes[q].keys, i + 1, hi),
                EntriesAt(nodes, x, k - 1) + EntriesAt(nodes, y, k - 1))
      && nodes' == nodes[x := l][y := r][q := nodes[q].(keys := nodes[q].keys[i := sep])]
    ensures Rebuilt(nodes, nodes', q, k, lo, hi, {}) && Written(nodes, nodes', PagesAt(nodes, q, k))
  {
    hide Under, ListPages, OwnList, SameSearch, Agree, SearchKids, OthersOk, EntriesAt, PagesAt, OwnAt, SearchNode,
         InOrder;
    var cs := nodes[q].children;
    var x, y, a, b := cs[i], cs[i + 1], cs[..i], cs[i + 2..];
    var run := [x, y];
    assert cs == a + run + b;
    Unfolded(nodes, q, k, lo, hi);
    ThreeRuns(nodes, q, k, a, run, b);
    ListTwo(nodes, x, y, k - 1);
    ApartFromPair(nodes, nodes', q, k, a, x, y, b, l, r);
    SameList(nodes, nodes', a, k - 1);
    SameList(nodes, nodes', b, k - 1);
    PairSearched(nodes, nodes', l, sep, r, k, LowBound(nodes[q].keys, i, lo), HighBound(nodes[q].keys, i + 1, hi),
                 EntriesAt(nodes, x, k - 1) + EntriesAt(nodes, y, k - 1));
    RunOthers(nodes, nodes', nodes[q].keys, cs, i, i + 2, k - 1, lo, hi);
    ResharedKidsOk(nodes[q].keys, cs, i, sep, KidOf(nodes', k - 1), lo, hi);
    Folded(nodes', q, k, lo, hi);
    UnderTwo(x, y, BelowOf(nodes, k - 1));
    UnderTwo(x, y, BelowOf(nodes', k - 1));
    RunEntries(nodes, nodes', q, k, a, run, run, b);
    RunOwn(nodes, nodes', q, k, a, run, run, b, {});
  }

  lemma Folded(nodes: Nodes, p: nat, h: nat, lo: Option<int>, hi: Option<int>)
    requires h > 1 && p in nodes && nodes[p].pid == p && !nodes[p].isLeaf
    requires SearchKids(nodes[p].keys, nodes[p].children, KidOf(nodes, h - 1), lo, hi)
    ensures SearchAt(nodes, p, h, lo, hi)
  {
    hide SearchKids;
  }

  /** What the edit of a pair of children does not touch. */
  lemma ApartFromPair(nodes: Nodes, nodes': Nodes, q: nat, k: nat, a: seq<nat>, x: nat, y: nat, b: seq<nat>, l: Node,
                      r: Node)
    requires k > 1 && q in nodes && x in nodes && y in nodes && OwnAt(nodes, q, k)
    requires nodes[q].children == a + [x, y] + b
    requires k == 2 || l.children + r.children == nodes[x].children + nodes[y].children
    requires Written(nodes, nodes', {q, x, y})
    ensures Agree(nodes, nodes', ListPages(nodes, a, k - 1)) && Agree(nodes, nodes', ListPages(nodes, b, k - 1))
    ensures Agree(nodes, nodes', ListPages(nodes, l.children, k - 2))
    ensures Agree(nodes, nodes', ListPages(nodes, r.children, k - 2))
    ensures x != y && x != q && y != q && {q, x, y} <= PagesAt(nodes, q, k)
    ensures var below := ListPages(nodes, l.children + r.children, k - 2);
            OwnList(nodes, l.children + r.children, k - 2) && x !in below && y !in below
            && ListPages(nodes, [x, y], k - 1) == {x, y} + below
  {
    hide ListPages, OwnList, Agree, Written;
    ThreeRuns(nodes, q, k, a, [x, y], b);
    ListTwo(nodes, x, y, k - 1);
    if k == 2 {
      NoPages(nodes, nodes[x].children + nodes[y].children);
      NoPages(nodes, l.children + r.children);
    }
    ListConcat(nodes, l.children, r.children, k - 2);
    var below := ListPages(nodes, l.children + r.children, k - 2);
    AgreeApart(nodes, nodes', {q, x, y}, ListPages(nodes, a, k - 1));
    AgreeApart(nodes, nodes', {q, x, y}, ListPages(nodes, b, k - 1));
    AgreeApart(nodes, nodes', {q, x, y}, ListPages(nodes, l.children, k - 2));
    AgreeApart(nodes, nodes', {q, x, y}, ListPages(nodes, r.children, k - 2));
  }

  /** Two nodes side by side in the new pages are search trees there, on their own pages. */
  lemma PairSearched(nodes: Nodes, nodes': Nodes, l: Node, sep: int, r: Node, k: nat, lo: Option<int>, hi: Option<int>,
                     es: Entries)
    requires k > 1 && l.pid in nodes' && nodes'[l.pid] == l && r.pid in nodes' && nodes'[r.pid] == r && l.pid != r.pid
    requires (l.isLeaf <==> k == 2) && (r.isLeaf <==> k == 2)
    requires Beside(l, sep, r, KidOf(nodes, k - 2), BelowOf(nodes, k - 2), lo, hi, es)
    requires Agree(nodes, nodes', ListPages(nodes, l.children, k - 2))
    requires Agree(nodes, nodes', ListPages(nodes, r.children, k - 2))
    requires var below := ListPages(nodes, l.children + r.children, k - 2);
             OwnList(nodes, l.children + r.children, k - 2) && l.pid !in below && r.pid !in below
    ensures PairOk(l.pid, sep, r.pid, KidOf(nodes', k - 1), lo, hi)
    ensures EntriesAt(nodes', l.pid, k - 1) + EntriesAt(nodes', r.pid, k - 1) == es
    ensures OwnList(nodes', [l.pid, r.pid], k - 1)
    ensures ListPages(nodes', [l.pid, r.pid], k - 1)
         == {l.pid, r.pid} + ListPages(nodes, l.children + r.children, k - 2)
  {
    hide ListPages, OwnList, Agree, SearchNode, InOrder;
    SameNode(nodes, nodes', l, k - 2);
    SameNode(nodes, nodes', r, k - 2);
    ListConcat(nodes, l.children, r.children, k - 2);
    ListConcat(nodes', l.children, r.children, k - 2);
    ListTwo(nodes', l.pid, r.pid, k - 1);
    assert SearchAt(nodes', l.pid, k - 1, lo, Some(sep)) && SearchAt(nodes', r.pid, k - 1, Some(sep), hi);
  }

  /** Child `i` of `q` was split into `l` and `r`, which has a page of its own. */
  lemma SplitEdited(nodes: Nodes, nodes': Nodes, q: nat, k: nat, lo: Option<int>, hi: Option<int>, i: nat, l: Node,
                    sep: int, r: Node)
    requires k > 1 && SearchAt(nodes, q, k, lo, hi) && OwnAt(nodes, q, k)
    requires i < |nodes[q].children| == |nodes[q].keys| + 1
    requires r.pid !in PagesAt(nodes, q, k)
    requires
      var x := nodes[q].children[i];
      && x in nodes && l.pid == x && (l.isLeaf <==> k == 2) && (r.isLeaf <==> k == 2)
      && (k == 2 || l.children + r.children == nodes[x].children)
      && Beside(l, sep, r, KidOf(nodes, k - 2), BelowOf(nodes, k - 2), LowBound(nodes[q].keys, i, lo),
                HighBound(nodes[q].keys, i, hi),
                EntriesAt(nodes, x, k - 1))
      && nodes' == nodes[x := l][r.pid := r]
                   [q := nodes[q].(keys := InsertAt(nodes[q].keys, i, sep),
                                   children := InsertAt(nodes[q].children, i + 1, r.pid))]
    ensures Rebuilt(nodes, nodes', q, k, lo, hi, {r.pid}) && Written(nodes, nodes', PagesAt(nodes, q, k) + {r.pid})
  {
    hide Under, ListPages, OwnList, SameSearch, Agree, SearchKids, OthersOk, EntriesAt, PagesAt, OwnAt, SearchNode,
         InOrder, InsertAt;
    var cs := nodes[q].children;
    var x, y, a, b := cs[i], r.pid, cs[..i], cs[i + 1..];
    Around(cs, i);
    Unfolded(nodes, q, k, lo, hi);
    ThreeRuns(nodes, q, k, a, [x], b);
    ApartFromOne(nodes, nodes', q, k, a, x, b, l, r);
    SameList(nodes, nodes', a, k - 1);
    SameList(nodes, nodes', b, k - 1);
    PairSearched(nodes, nodes', l, sep, r, k, LowBound(nodes[q].keys, i, lo), HighBound(nodes[q].keys, i, hi),
                 EntriesAt(nodes, x, k - 1));
    RunOthers(nodes, nodes', nodes[q].keys, cs, i, i + 1, k - 1, lo, hi);
    SplitKidsOk(nodes[q].keys, cs, i, sep, y, KidOf(nodes', k - 1), lo, hi);
    Folded(nodes', q, k, lo, hi);
    PlaceAfter(cs, i, y);
    UnderOne(x, BelowOf(nodes, k - 1));
    UnderTwo(x, y, BelowOf(nodes', k - 1));
    RunEntries(nodes, nodes', q, k, a, [x], [x, y], b);
    RunOwn(nodes, nodes', q, k, a, [x], [x, y], b, {y});
  }

  /** What the split of a child does not touch. */
  lemma ApartFromOne(nodes: Nodes, nodes': Nodes, q: nat, k: nat, a: seq<nat>, x: nat, b: seq<nat>, l: Node, r: Node)
    requires k > 1 && q in nodes && x in nodes && OwnAt(nodes, q, k) && nodes[q].children == a + [x] + b
    requires (k == 2 || l.children + r.children == nodes[x].children) && r.pid !in PagesAt(nodes, q, k)
    requires Written(nodes, nodes', {q, x, r.pid})
    ensures Agree(nodes, nodes', ListPages(nodes, a, k - 1)) && Agree(nodes, nodes', ListPages(nodes, b, k - 1))
    ensures Agree(nodes, nodes', ListPages(nodes, l.children, k - 2))
    ensures Agree(nodes, nodes', ListPages(nodes, r.children, k - 2))
    ensures x != q && r.pid != x && r.pid != q && {q, x} <= PagesAt(nodes, q, k)
    ensures var below := ListPages(nodes, l.children + r.children, k - 2);
            OwnList(nodes, l.children + r.children, k - 2) && x !in below && r.pid !in below
            && ListPages(nodes, [x], k - 1) == {x} + below
  {
    hide ListPages, OwnList, Agree, Written;
    ThreeRuns(nodes, q, k, a, [x], b);
    ListOne(nodes, x, k - 1);
    if k == 2 {
      NoPages(nodes, nodes[x].children);
      NoPages(nodes, l.children + r.children);
    }
    ListConcat(nodes, l.children, r.children, k - 2);
    AgreeApart(nodes, nodes', {q, x, r.pid}, ListPages(nodes, a, k - 1));
    AgreeApart(nodes, nodes', {q, x, r.pid}, ListPages(nodes, b, k - 1));
    AgreeApart(nodes, nodes', {q, x, r.pid}, ListPages(nodes, l.children, k - 2));
    AgreeApart(nodes, nodes', {q, x, r.pid}, ListPages(nodes, r.children, k - 2));
  }

  /** Children `i` and `i + 1` of `q` became the one node `n`, on the page of either; the other page is given up. */
  lemma MergeEdited(nodes: Nodes, nodes': Nodes, q: nat, k: nat, lo: Option<int>, hi: Option<int>, i: nat, n: Node,
                    gone: nat)
    requires k > 1 && SearchAt(nodes, q, k, lo, hi) && OwnAt(nodes, q, k)
    requires i + 1 < |nodes[q].children| == |nodes[q].keys| + 1
    requires
      var x, y := nodes[q].children[i], nodes[q].children[i + 1];
      && x in nodes && y in nodes && ((n.pid == x && gone == y) || (n.pid == y && gone == x)) && (n.isLeaf <==> k == 2)
      && (k == 2 || n.children == nodes[x].children + nodes[y].children)
      && SearchNode(n, KidOf(nodes, k - 2), LowBound(nodes[q].keys, i, lo), HighBound(nodes[q].keys, i + 1, hi))
      && InOrder(n, BelowOf(nodes, k - 2)) == EntriesAt(nodes, x, k - 1) + EntriesAt(nodes, y, k - 1)
      && nodes' == (nodes - {gone})[n.pid := n]
                   [q := nodes[q].(keys := RemoveAt(nodes[q].keys, i),
                                   children := RemoveAt(nodes[q].children, if n.pid == x then i + 1 else i))]
    ensures Rebuilt(nodes, nodes', q, k, lo, hi, {}) && Written(nodes, nodes', PagesAt(nodes, q, k))
  {
    hide Under, ListPages, OwnList, SameSearch, Agree, SearchKids, OthersOk, EntriesAt, PagesAt, OwnAt, SearchNode,
         InOrder, RemoveAt;
    var cs := nodes[q].children;
    var x, y, a, b := cs[i], cs[i + 1], cs[..i], cs[i + 2..];
    assert cs == a + [x, y] + b;
    Unfolded(nodes, q, k, lo, hi);
    ThreeRuns(nodes, q, k, a, [x, y], b);
    ApartFromMerged(nodes, nodes', q, k, a, x, y, b, n);
    SameList(nodes, nodes', a, k - 1);
    SameList(nodes, nodes', b, k - 1);
    OneSearched(nodes, nodes', n, k, LowBound(nodes[q].keys, i, lo), HighBound(nodes[q].keys, i + 1, hi));
    RunOthers(nodes, nodes', nodes[q].keys, cs, i, i + 2, k - 1, lo, hi);
    PlaceOfPair(cs, i);
    MergedKidsOk(nodes[q].keys, cs, i, n.pid, KidOf(nodes', k - 1), lo, hi);
    Folded(nodes', q, k, lo, hi);
    UnderTwo(x, y, BelowOf(nodes, k - 1));
    UnderOne(n.pid, BelowOf(nodes', k - 1));
    RunEntries(nodes, nodes', q, k, a, [x, y], [n.pid], b);
    RunOwn(nodes, nodes', q, k, a, [x, y], [n.pid], b, {});
  }

  lemma ApartFromMerged(nodes: Nodes, nodes': Nodes, q: nat, k: nat, a: seq<nat>, x: nat, y: nat, b: seq<nat>, n: Node)
    requires k > 1 && q in nodes && x in nodes && y in nodes && OwnAt(nodes, q, k)
    requires nodes[q].children == a + [x, y] + b
    requires (k == 2 || n.children == nodes[x].children + nodes[y].children) && (n.pid == x || n.pid == y)
    requires Written(nodes, nodes', {q, x, y})
    ensures Agree(nodes, nodes', ListPages(nodes, a, k - 1)) && Agree(nodes, nodes', ListPages(nodes, b, k - 1))
    ensures Agree(nodes, nodes', ListPages(nodes, n.children, k - 2))
    ensures x != y && x != q && y != q && {q, x, y} <= PagesAt(nodes, q, k)
    ensures var below := ListPages(nodes, n.children, k - 2);
            OwnList(nodes, n.children, k - 2) && n.pid !in below && {n.pid} + below <= ListPages(nodes, [x, y], k - 1)
  {
    hide ListPages, OwnList, Agree, Written;
    ThreeRuns(nodes, q, k, a, [x, y], b);
    ListTwo(nodes, x, y, k - 1);
    if k == 2 {
      NoPages(nodes, nodes[x].children + nodes[y].children);
      NoPages(nodes, n.children);
    }
    AgreeApart(nodes, nodes', {q, x, y}, ListPages(nodes, a, k - 1));
    AgreeApart(nodes, nodes', {q, x, y}, ListPages(nodes, b, k - 1));
    AgreeApart(nodes, nodes', {q, x, y}, ListPages(nodes, n.children, k - 2));
  }

  lemma OneSearched(nodes: Nodes, nodes': Nodes, n: Node, k: nat, lo: Option<int>, hi: Option<int>)
    requires k > 1 && n.pid in nodes' && nodes'[n.pid] == n && (n.isLeaf <==> k == 2)
    requires SearchNode(n, KidOf(nodes, k - 2), lo, hi) && Agree(nodes, nodes', ListPages(nodes, n.children, k - 2))
    requires OwnList(nodes, n.children, k - 2) && n.pid !in ListPages(nodes, n.children, k - 2)
    ensures KidOf(nodes', k - 1)(n.pid, lo, hi) && EntriesAt(nodes', n.pid, k - 1) == InOrder(n, BelowOf(nodes, k - 2))
    ensures OwnList(nodes', [n.pid], k - 1)
    ensures ListPages(nodes', [n.pid], k - 1) == {n.pid} + ListPages(nodes, n.children, k - 2)
  {
    hide ListPages, OwnList, Agree, SearchNode, InOrder;
    SameNode(nodes, nodes', n, k - 2);
    ListOne(nodes', n.pid, k - 1);
    assert SearchAt(nodes', n.pid, k - 1, lo, hi);
  }

  // ---- Every edit, anywhere in a tree

  /** The left one of the children that are edited is child `i` of the parent. */
  datatype Edit = Split(newPid: nat) | BorrowLeft | BorrowRight | MergeLeft | MergeRight

  /** The edit can be made at child `i` of `q`. */
  ghost predicate CanEdit(nodes: Nodes, q: nat, i: nat, e: Edit) {
    && q in nodes && !nodes[q].isLeaf && |nodes[q].children| == |nodes[q].keys| + 1
    && i + (if e.Split? then 0 else 1) < |nodes[q].children|
    && nodes[q].children[i] in nodes && (!e.Split? ==> nodes[q].children[i + 1] in nodes)
    && var x := nodes[nodes[q].children[i]];
       match e
       case Split(_) => |x.keys| >= 2 && (if x.isLeaf then |x.values| == |x.keys| else |x.children| == |x.keys| + 1)
       case BorrowLeft => Siblings(x, nodes[nodes[q].children[i + 1]]) && |x.keys| >= 2
       case BorrowRight => Siblings(x, nodes[nodes[q].children[i + 1]]) && |nodes[nodes[q].children[i + 1]].keys| >= 2
       case MergeLeft => Siblings(x, nodes[nodes[q].children[i + 1]])
       case MergeRight => Siblings(x, nodes[nodes[q].children[i + 1]])
  }

  /** The nodes after the edit: the children's, the parent's, and none on a page that is given up. */
  ghost function Edited(nodes: Nodes, q: nat, i: nat, e: Edit): Nodes
    requires CanEdit(nodes, q, i, e)
  {
    var parent := nodes[q];
    var x := nodes[parent.children[i]];
    if e.Split? then
      var (l, sep, r) := SplitNode(x, e.newPid);
      nodes[parent.children[i] := l][e.newPid := r]
           [q := parent.(keys := InsertAt(parent.keys, i, sep), children := InsertAt(parent.children, i + 1, e.newPid))]
    else
      var y := nodes[parent.children[i + 1]];
      if e.BorrowLeft? then
        var (l, sep, r) := BorrowFromLeft(x, parent.keys[i], y);
        nodes[parent.children[i] := l][parent.children[i + 1] := r][q := parent.(keys := parent.keys[i := sep])]
      else if e.BorrowRight? then
        var (l, sep, r) := BorrowFromRight(x, parent.keys[i], y);
        nodes[parent.children[i] := l][parent.children[i + 1] := r][q := parent.(keys := parent.keys[i := sep])]
      else if e.MergeLeft? then
        (nodes - {parent.children[i + 1]})[parent.children[i] := JoinToLeft(x, parent.keys[i], y)]
          [q := parent.(keys := RemoveAt(parent.keys, i), children := RemoveAt(parent.children, i + 1))]
      else
        (nodes - {parent.children[i]})[parent.children[i + 1] := JoinToRight(x, parent.keys[i], y)]
          [q := parent.(keys := RemoveAt(parent.keys, i), children := RemoveAt(parent.children, i))]
  }

  /** Pages that the edit takes. */
  function Taken(e: Edit): set<nat> { if e.Split? then {e.newPid} else {} }

  /** Two neighbouring children with the separator between them. */
  lemma ChildrenBeside(nodes: Nodes, q: nat, k: nat, lo: Option<int>, hi: Option<int>, i: nat)
    requires k > 1 && SearchAt(nodes, q, k, lo, hi) && i + 1 < |nodes[q].children|
    ensures |nodes[q].children| == |nodes[q].keys| + 1
    ensures
      var x, y := nodes[q].children[i], nodes[q].children[i + 1];
      && x in nodes && y in nodes && nodes[x].pid == x && nodes[y].pid == y
      && (nodes[x].isLeaf <==> k == 2) && (nodes[y].isLeaf <==> k == 2)
      && Beside(nodes[x], nodes[q].keys[i], nodes[y], KidOf(nodes, k - 2), BelowOf(nodes, k - 2),
                LowBound(nodes[q].keys, i, lo), HighBound(nodes[q].keys, i + 1, hi),
                EntriesAt(nodes, x, k - 1) + EntriesAt(nodes, y, k - 1))
  {
    hide SearchKids, SearchNode, InOrder, Separators;
    Unfolded(nodes, q, k, lo, hi);
    KidSearched(nodes, nodes[q].keys, nodes[q].children, k - 1, lo, hi, i);
    KidSearched(nodes, nodes[q].keys, nodes[q].children, k - 1, lo, hi, i + 1);
    SeparatorWithin(nodes[q].keys, nodes[q].children, KidOf(nodes, k - 1), lo, hi, i);
  }

  lemma SeparatorWithin(keys: seq<int>, children: seq<nat>, kid: Kid, lo: Option<int>, hi: Option<int>, i: nat)
    requires SearchKids(keys, children, kid, lo, hi) && i < |keys|
    ensures StrictlyAfter(LowBound(keys, i, lo), keys[i]) && Before(keys[i], HighBound(keys, i + 1, hi))
  {
  }

  lemma SplitAt(nodes: Nodes, q: nat, k: nat, lo: Option<int>, hi: Option<int>, i: nat, newPid: nat)
    requires k > 1 && SearchAt(nodes, q, k, lo, hi) && OwnAt(nodes, q, k) && CanEdit(nodes, q, i, Split(newPid))
    requires newPid !in PagesAt(nodes, q, k)
    ensures Rebuilt(nodes, Edited(nodes, q, i, Split(newPid)), q, k, lo, hi, {newPid})
    ensures Written(nodes, Edited(nodes, q, i, Split(newPid)), PagesAt(nodes, q, k) + {newPid})
  {
    hide SearchKids, SearchNode, InOrder, OwnAt, PagesAt, Beside, InsertAt, Rebuilt, Written;
    var x := nodes[q].children[i];
    Unfolded(nodes, q, k, lo, hi);
    KidSearched(nodes, nodes[q].keys, nodes[q].children, k - 1, lo, hi, i);
    SplitAny(nodes[x], newPid, KidOf(nodes, k - 2), BelowOf(nodes, k - 2), LowBound(nodes[q].keys, i, lo),
             HighBound(nodes[q].keys, i, hi));
    SplitChildren(nodes[x], newPid);
    var (l, sep, r) := SplitNode(nodes[x], newPid);
    SplitEdited(nodes, Edited(nodes, q, i, Split(newPid)), q, k, lo, hi, i, l, sep, r);
  }

  lemma SplitChildren(n: Node, newPid: nat)
    requires |n.keys| >= 2 && if n.isLeaf then |n.values| == |n.keys| else |n.children| == |n.keys| + 1
    ensures var (l, _, r) := SplitNode(n, newPid);
            && l.pid == n.pid && r.pid == newPid && l.isLeaf == r.isLeaf == n.isLeaf
            && (n.isLeaf || l.children + r.children == n.children)
  {
  }

  lemma BorrowAt(nodes: Nodes, q: nat, k: nat, lo: Option<int>, hi: Option<int>, i: nat, e: Edit)
    requires k > 1 && SearchAt(nodes, q, k, lo, hi) && OwnAt(nodes, q, k) && CanEdit(nodes, q, i, e)
    requires (e.BorrowLeft? || e.BorrowRight?)
    ensures Rebuilt(nodes, Edited(nodes, q, i, e), q, k, lo, hi, {})
    ensures Written(nodes, Edited(nodes, q, i, e), PagesAt(nodes, q, k))
  {
    hide SearchAt, SearchKids, SearchNode, InOrder, OwnAt, PagesAt, Beside, Rebuilt, Written, BorrowFromLeft,
         BorrowFromRight;
    ChildrenBeside(nodes, q, k, lo, hi, i);
    var x, y, s := nodes[nodes[q].children[i]], nodes[nodes[q].children[i + 1]], nodes[q].keys[i];
    var lo', hi' := LowBound(nodes[q].keys, i, lo), HighBound(nodes[q].keys, i + 1, hi);
    var es := EntriesAt(nodes, x.pid, k - 1) + EntriesAt(nodes, y.pid, k - 1);
    BorrowChildren(x, s, y, e);
    if e.BorrowLeft? {
      BorrowLeftAny(x, s, y, KidOf(nodes, k - 2), BelowOf(nodes, k - 2), lo', hi', es);
      var (l, sep, r) := BorrowFromLeft(x, s, y);
      PairEdited(nodes, Edited(nodes, q, i, e), q, k, lo, hi, i, l, sep, r);
    } else {
      BorrowRightAny(x, s, y, KidOf(nodes, k - 2), BelowOf(nodes, k - 2), lo', hi', es);
      var (l, sep, r) := BorrowFromRight(x, s, y);
      PairEdited(nodes, Edited(nodes, q, i, e), q, k, lo, hi, i, l, sep, r);
    }
  }

  lemma BorrowChildren(x: Node, s: int, y: Node, e: Edit)
    requires Siblings(x, y)
    ensures |x.keys| >= 2 ==>
              var (l, _, r) := BorrowFromLeft(x, s, y);
              && l.pid == x.pid && r.pid == y.pid && l.isLeaf == r.isLeaf == x.isLeaf
              && l.children + r.children == x.children + y.children
    ensures |y.keys| >= 2 ==>
              var (l, _, r) := BorrowFromRight(x, s, y);
              && l.pid == x.pid && r.pid == y.pid && l.isLeaf == r.isLeaf == x.isLeaf
              && l.children + r.children == x.children + y.children
  {
  }

  lemma MergeAt(nodes: Nodes, q: nat, k: nat, lo: Option<int>, hi: Option<int>, i: nat, e: Edit)
    requires k > 1 && SearchAt(nodes, q, k, lo, hi) && OwnAt(nodes, q, k) && CanEdit(nodes, q, i, e)
    requires (e.MergeLeft? || e.MergeRight?)
    ensures Rebuilt(nodes, Edited(nodes, q, i, e), q, k, lo, hi, {})
    ensures Written(nodes, Edited(nodes, q, i, e), PagesAt(nodes, q, k))
  {
    hide SearchAt, SearchKids, SearchNode, InOrder, OwnAt, PagesAt, Beside, Rebuilt, Written, JoinToLeft, JoinToRight,
         RemoveAt;
    ChildrenBeside(nodes, q, k, lo, hi, i);
    var x, y, s := nodes[nodes[q].children[i]], nodes[nodes[q].children[i + 1]], nodes[q].keys[i];
    var es := EntriesAt(nodes, x.pid, k - 1) + EntriesAt(nodes, y.pid, k - 1);
    JoinAny(x, s, y, KidOf(nodes, k - 2), BelowOf(nodes, k - 2), LowBound(nodes[q].keys, i, lo),
            HighBound(nodes[q].keys, i + 1, hi), es);
    JoinChildren(x, s, y);
    ChildrenApart(nodes, q, k, i);
    if e.MergeLeft? {
      MergeEdited(nodes, Edited(nodes, q, i, e), q, k, lo, hi, i, JoinToLeft(x, s, y), y.pid);
    } else {
      MergeEdited(nodes, Edited(nodes, q, i, e), q, k, lo, hi, i, JoinToRight(x, s, y), x.pid);
    }
  }

  lemma JoinChildren(x: Node, s: int, y: Node)
    requires Siblings(x, y)
    ensures JoinToLeft(x, s, y).pid == x.pid && JoinToRight(x, s, y).pid == y.pid
    ensures JoinToLeft(x, s, y).isLeaf == JoinToRight(x, s, y).isLeaf == x.isLeaf
    ensures x.isLeaf || JoinToLeft(x, s, y).children == JoinToRight(x, s, y).children == x.children + y.children
  {
  }

  lemma ChildrenApart(nodes: Nodes, q: nat, k: nat, i: nat)
    requires k > 1 && q in nodes && OwnAt(nodes, q, k) && i + 1 < |nodes[q].children|
    ensures nodes[q].children[i] != nodes[q].children[i + 1]
  {
    var cs := nodes[q].children;
    assert PagesAt(nodes, cs[i], k - 1) !! PagesAt(nodes, cs[i + 1], k - 1);
    PageOfTree(nodes, cs[i], k - 1);
    PageOfTree(nodes, cs[i + 1], k - 1);
  }

  /** The nodes that the edit changes: the parent and two children, of which one may be new or given up. */
  ghost function Touched(nodes: Nodes, q: nat, i: nat, e: Edit): set<nat>
    requires CanEdit(nodes, q, i, e)
  {
    {q, nodes[q].children[i]} + if e.Split? then {e.newPid} else {nodes[q].children[i + 1]}
  }

  lemma TouchedAlone(nodes: Nodes, q: nat, i: nat, e: Edit)
    requires CanEdit(nodes, q, i, e)
    ensures Written(nodes, Edited(nodes, q, i, e), Touched(nodes, q, i, e))
  {
    hide SplitNode, BorrowFromLeft, BorrowFromRight, JoinToLeft, JoinToRight;
  }

  /**
    * An edit at any node of a tree of any height leaves a search tree of the same height under the root, with
    * the same entries in the same order, on the same pages but for those that it takes or gives up.
    */
  lemma EditAnywhere(nodes: Nodes, root: nat, h: nat, lo: Option<int>, hi: Option<int>, path: seq<nat>, i: nat, e: Edit)
    requires SearchAt(nodes, root, h, lo, hi) && OwnAt(nodes, root, h) && IsPath(nodes, root, h, path)
    requires
      var at := PlaceAt(nodes, root, h, lo, hi, path);
      at.height > 1 && CanEdit(nodes, at.page, i, e)
    requires Taken(e) !! PagesAt(nodes, root, h)
    ensures
      var nodes' := Edited(nodes, PlaceAt(nodes, root, h, lo, hi, path).page, i, e);
      && SearchAt(nodes', root, h, lo, hi) && OwnAt(nodes', root, h)
      && EntriesAt(nodes', root, h) == EntriesAt(nodes, root, h)
      && PagesAt(nodes', root, h) <= PagesAt(nodes, root, h) + Taken(e)
      && Written(nodes, nodes', PagesAt(nodes, root, h) + Taken(e))
      && Written(nodes, nodes', Touched(nodes, PlaceAt(nodes, root, h, lo, hi, path).page, i, e))
  {
    TouchedAlone(nodes, PlaceAt(nodes, root, h, lo, hi, path).page, i, e);
    hide SearchAt, OwnAt, PagesAt, EntriesAt, CanEdit, Edited, Written;
    PlaceInTree(nodes, root, h, lo, hi, path);
    var at := PlaceAt(nodes, root, h, lo, hi, path);
    var nodes' := Edited(nodes, at.page, i, e);
    EditHere(nodes, at.page, at.height, at.lo, at.hi, i, e);
    var rest := PagesAt(nodes, root, h) - PagesAt(nodes, at.page, at.height);
    AgreeApart(nodes, nodes', PagesAt(nodes, at.page, at.height) + Taken(e), rest);
    RebuiltAbove(nodes, nodes', root, h, lo, hi, path, Taken(e));
    WrittenMore(nodes, nodes', PagesAt(nodes, at.page, at.height) + Taken(e), PagesAt(nodes, root, h) + Taken(e));
  }

  lemma EditHere(nodes: Nodes, q: nat, k: nat, lo: Option<int>, hi: Option<int>, i: nat, e: Edit)
    requires k > 1 && SearchAt(nodes, q, k, lo, hi) && OwnAt(nodes, q, k) && CanEdit(nodes, q, i, e)
    requires Taken(e) !! PagesAt(nodes, q, k)
    ensures Rebuilt(nodes, Edited(nodes, q, i, e), q, k, lo, hi, Taken(e))
    ensures Written(nodes, Edited(nodes, q, i, e), PagesAt(nodes, q, k) + Taken(e))
  {
    hide SearchAt, OwnAt, PagesAt, CanEdit, Edited, Written, Rebuilt;
    assert PagesAt(nodes, q, k) + {} == PagesAt(nodes, q, k);
    match e
    case Split(newPid) => SplitAt(nodes, q, k, lo, hi, i, newPid);
    case BorrowLeft => BorrowAt(nodes, q, k, lo, hi, i, e);
    case BorrowRight => BorrowAt(nodes, q, k, lo, hi, i, e);
    case MergeLeft => MergeAt(nodes, q, k, lo, hi, i, e);
    case MergeRight => MergeAt(nodes, q, k, lo, hi, i, e);
  }

  lemma WrittenMore(nodes: Nodes, nodes': Nodes, pages: set<nat>, more: set<nat>)
    requires Written(nodes, nodes', pages) && pages <= more
    ensures Written(nodes, nodes', more)
  {
  }

  /**
    * A root without separators is given up: its only child is the root of a tree of one level less with the same
    * entries.
    */
  lemma RootShrunk(nodes: Nodes, root: nat, h: nat, lo: Option<int>, hi: Option<int>)
    requires h > 1 && SearchAt(nodes, root, h, lo, hi) && OwnAt(nodes, root, h) && nodes[root].keys == []
    ensures |nodes[root].children| == 1
    ensures
      var child, nodes' := nodes[root].children[0], nodes - {root};
      && SearchAt(nodes', child, h - 1, lo, hi) && OwnAt(nodes', child, h - 1)
      && EntriesAt(nodes', child, h - 1) == EntriesAt(nodes, root, h)
      && PagesAt(nodes', child, h - 1) == PagesAt(nodes, root, h) - {root}
  {
    hide SearchAt, OwnAt, PagesAt, EntriesAt, Agree;
    OneChild(nodes, root, h, lo, hi);
    var child, nodes' := nodes[root].children[0], nodes - {root};
    AgreeWithout(nodes, root, PagesAt(nodes, child, h - 1));
    SameTree(nodes, nodes', child, h - 1);
  }

  lemma AgreeWithout(nodes: Nodes, x: nat, pages: set<nat>)
    requires x !in pages
    ensures Agree(nodes, nodes - {x}, pages)
  {
  }

  lemma OneChild(nodes: Nodes, root: nat, h: nat, lo: Option<int>, hi: Option<int>)
    requires h > 1 && SearchAt(nodes, root, h, lo, hi) && OwnAt(nodes, root, h) && nodes[root].keys == []
    ensures root in nodes
    ensures
      var cs := nodes[root].children;
      && cs == [cs[0]] && SearchAt(nodes, cs[0], h - 1, lo, hi) && OwnAt(nodes, cs[0], h - 1)
      && EntriesAt(nodes, root, h) == EntriesAt(nodes, cs[0], h - 1)
      && PagesAt(nodes, root, h) == {root} + PagesAt(nodes, cs[0], h - 1) && root !in PagesAt(nodes, cs[0], h - 1)
  {
    hide SearchAt, KidOf, BelowOf, ListPages, OwnList, PagesAt, OwnAt, SearchKids, Separators;
    Unfolded(nodes, root, h, lo, hi);
    var cs := nodes[root].children;
    KidSearched(nodes, nodes[root].keys, cs, h - 1, lo, hi, 0);
    assert cs == [cs[0]];
    UnderOne(cs[0], BelowOf(nodes, h - 1));
    BelowIs(nodes, cs[0], h - 1);
    ListOne(nodes, root, h);
    ListSingle(nodes, root, h);
    ListSingle(nodes, cs[0], h - 1);
  }
}
