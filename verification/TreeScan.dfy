/** What is still to come in a walk along the leaf chain. */
module TreeScan {
  import opened NodeCodec
  import opened NodeEdits
  import opened SearchTree
  import opened OrderedAnswers

  ghost predicate Leaves(leaves: seq<Node>) {
    forall i {:trigger leaves[i]} :: 0 <= i < |leaves| ==> LeafShape(leaves[i])
  }

  /** The wanted rowids from entry `j` of leaf `c` on. */
  ghost function Rest(leaves: seq<Node>, c: nat, j: nat, want: int -> bool): seq<nat>
    requires Leaves(leaves) && c < |leaves| && j <= |leaves[c].keys|
  {
    TailLengths(leaves, c);
    Pick(leaves[c].keys[j..] + Keys(leaves[c + 1..]), leaves[c].values[j..] + Rowids(leaves[c + 1..]), want)
  }

  /** All wanted rowids. */
  ghost function All(leaves: seq<Node>, want: int -> bool): seq<nat>
    requires Leaves(leaves)
  {
    KeysAndRowids(leaves);
    Pick(Keys(leaves), Rowids(leaves), want)
  }

  lemma TailLengths(leaves: seq<Node>, c: nat)
    requires Leaves(leaves) && c <= |leaves|
    ensures c < |leaves| ==> |Keys(leaves[c + 1..])| == |Rowids(leaves[c + 1..])|
    ensures |Keys(leaves[..c])| == |Rowids(leaves[..c])|
  {
    KeysAndRowids(leaves[..c]);
    if c < |leaves| {
      KeysAndRowids(leaves[c + 1..]);
    }
  }

  lemma NextEntry(leaves: seq<Node>, c: nat, j: nat, want: int -> bool)
    requires Leaves(leaves) && c < |leaves| && j < |leaves[c].keys|
    ensures Rest(leaves, c, j, want)
         == (if want(leaves[c].keys[j]) then [leaves[c].values[j]] else []) + Rest(leaves, c, j + 1, want)
  {
    TailLengths(leaves, c);
    var ks, vs := leaves[c].keys[j..] + Keys(leaves[c + 1..]), leaves[c].values[j..] + Rowids(leaves[c + 1..]);
    hide Keys, Rowids;
    assert LeafShape(leaves[c]);
    assert ks[1..] == leaves[c].keys[j + 1..] + Keys(leaves[c + 1..]);
    assert vs[1..] == leaves[c].values[j + 1..] + Rowids(leaves[c + 1..]);
  }

  lemma NextLeaf(leaves: seq<Node>, c: nat, want: int -> bool)
    requires Leaves(leaves) && c < |leaves|
    ensures Rest(leaves, c, |leaves[c].keys|, want) == if c + 1 < |leaves| then Rest(leaves, c + 1, 0, want) else []
  {
    assert LeafShape(leaves[c]);
    var tail := leaves[c + 1..];
    assert leaves[c].keys[|leaves[c].keys|..] + Keys(tail) == Keys(tail);
    assert leaves[c].values[|leaves[c].keys|..] + Rowids(tail) == Rowids(tail);
    if c + 1 < |leaves| {
      assert tail[0] == leaves[c + 1] && tail[1..] == leaves[c + 2..];
      assert tail[0].keys[0..] == tail[0].keys && tail[0].values[0..] == tail[0].values;
    }
  }

  /** A walk for keys from `lo` on starts at the leaf in charge of `lo`. */
  lemma StartLeaf(t: Tree, lo: int, hi: int, inclusive: bool, i: nat)
    requires Ordered(t) && IsChildIndex(t.seps, lo, i)
    ensures Leaves(t.leaves)
    ensures All(t.leaves, Between(lo, hi, inclusive)) == Rest(t.leaves, i, 0, Between(lo, hi, inclusive))
  {
    Located(t, lo, i);
    KeysAround(t.leaves, i);
    TailLengths(t.leaves, i);
    hide Keys, Rowids, Ordered;
    var leaf := t.leaves[i];
    var ks, vs := Keys(t.leaves[..i]), Rowids(t.leaves[..i]);
    var ks', vs' := leaf.keys + Keys(t.leaves[i + 1..]), leaf.values + Rowids(t.leaves[i + 1..]);
    assert Keys(t.leaves) == ks + ks' && Rowids(t.leaves) == vs + vs';
    assert leaf.keys[0..] == leaf.keys && leaf.values[0..] == leaf.values;
    hide LeafShape, IsChildIndex;
    SkipSmaller(ks, vs, ks', vs', lo, hi, inclusive);
  }

  lemma SkipSmaller(ks: seq<int>, vs: seq<nat>, ks': seq<int>, vs': seq<nat>, lo: int, hi: int, inclusive: bool)
    requires |ks| == |vs| && |ks'| == |vs'| && Below(ks, lo)
    ensures Pick(ks + ks', vs + vs', Between(lo, hi, inclusive)) == Pick(ks', vs', Between(lo, hi, inclusive))
  {
    PickNone(ks, vs, Between(lo, hi, inclusive));
    PickConcat(ks, vs, ks', vs', Between(lo, hi, inclusive));
  }

  /** Once a key is past the range, nothing that follows is in it. */
  lemma NothingAfter(t: Tree, c: nat, j: nat, lo: int, hi: int, inclusive: bool)
    requires Ordered(t) && Leaves(t.leaves) && c < |t.leaves| && j < |t.leaves[c].keys| && hi < t.leaves[c].keys[j]
    ensures Rest(t.leaves, c, j, Between(lo, hi, inclusive)) == []
  {
    var leaf := t.leaves[c];
    KeysSorted(t);
    KeysAround(t.leaves, c);
    TailLengths(t.leaves, c);
    var before, after := Keys(t.leaves[..c]), Keys(t.leaves[c + 1..]);
    var ks, vs := leaf.keys[j..] + after, leaf.values[j..] + Rowids(t.leaves[c + 1..]);
    var all := Keys(t.leaves);
    hide Keys, Rowids, Ordered;
    assert leaf.keys == leaf.keys[..j] + leaf.keys[j..];
    assert all == before + leaf.keys[..j] + ks;
    forall p | 0 <= p < |ks|
      ensures hi < ks[p]
    {
      assert all[|before| + j + p] == ks[p] && all[|before| + j] == ks[0] == leaf.keys[j];
    }
    PickNone(ks, vs, Between(lo, hi, inclusive));
  }

  /** A key is in the map exactly when it is in the leaf in charge of it, and there with its rowid. */
  lemma SeekFinds(t: Tree, m: map<int, nat>, key: int, i: nat)
    requires Ordered(t) && IsChildIndex(t.seps, key, i) && Represents(Keys(t.leaves), Rowids(t.leaves), m)
    ensures i < |t.leaves| && LeafShape(t.leaves[i]) && (key in m <==> key in t.leaves[i].keys)
    ensures forall j :: 0 <= j < |t.leaves[i].keys| ==>
              t.leaves[i].keys[j] in m && m[t.leaves[i].keys[j]] == t.leaves[i].values[j]
  {
    hide Keys, Rowids, AtLeast, Below, Sorted, AllI64, AllBelow;
    var leaf := t.leaves[i];
    Located(t, key, i);
    KeysAround(t.leaves, i);
    TailLengths(t.leaves, i);
    MiddleEntries(Keys(t.leaves[..i]), leaf.keys, Keys(t.leaves[i + 1..]),
                  Rowids(t.leaves[..i]), leaf.values, Rowids(t.leaves[i + 1..]), m);
    assert key in m ==> key in Keys(t.leaves);
  }

  lemma MiddleEntries(pre: seq<int>, ks: seq<int>, post: seq<int>, vpre: seq<nat>, vs: seq<nat>, vpost: seq<nat>,
                      m: map<int, nat>)
    requires |pre| == |vpre| && |ks| == |vs| && Represents(pre + ks + post, vpre + vs + vpost, m)
    ensures forall j :: 0 <= j < |ks| ==> ks[j] in m && m[ks[j]] == vs[j]
  {
    var all, vall := pre + ks + post, vpre + vs + vpost;
    forall j | 0 <= j < |ks|
      ensures ks[j] in m && m[ks[j]] == vs[j]
    {
      assert all[|pre| + j] == ks[j] && vall[|pre| + j] == vs[j];
    }
  }

  lemma RowidsStep(leaves: seq<Node>, c: nat, result: seq<nat>)
    requires c < |leaves|
    ensures result + Rowids(leaves[c..]) == result + leaves[c].values + Rowids(leaves[c + 1..])
    ensures c + 1 == |leaves| ==> result + Rowids(leaves[c..]) == result + leaves[c].values
  {
    var tail := leaves[c..];
    assert tail[0] == leaves[c] && tail[1..] == leaves[c + 1..];
    assert result + (leaves[c].values + Rowids(leaves[c + 1..])) == result + leaves[c].values + Rowids(leaves[c + 1..]);
  }

  // ---- how far the chain goes

  /** The number of leaves up to the first one from `c` on whose link is 0. */
  ghost function ChainEnd(leaves: seq<Node>, c: nat): (e: nat)
    requires c < |leaves|
    ensures c < e <= |leaves|
    decreases |leaves| - c
  {
    if leaves[c].next == 0 || c + 1 == |leaves| then c + 1 else ChainEnd(leaves, c + 1)
  }

  /** Some leaf other than the last one has no link. */
  ghost predicate Broken(leaves: seq<Node>) {
    exists c :: 0 <= c < |leaves| - 1 && leaves[c].next == 0
  }

  lemma {:induction false} UnbrokenEnd(leaves: seq<Node>, c: nat)
    requires c < |leaves| && !Broken(leaves)
    ensures ChainEnd(leaves, c) == |leaves|
    decreases |leaves| - c
  {
    if c + 1 < |leaves| {
      assert leaves[c].next != 0;
      UnbrokenEnd(leaves, c + 1);
    }
  }

  lemma {:induction false} BrokenEnd(leaves: seq<Node>, c: nat, b: nat)
    requires c <= b < |leaves| - 1 && leaves[b].next == 0
    ensures ChainEnd(leaves, c) < |leaves|
    decreases |leaves| - c
  {
    if c < b && leaves[c].next != 0 {
      BrokenEnd(leaves, c + 1, b);
    }
  }

  /** When the leaf that is split has no link and is not the last one, neither has its right half. */
  lemma SplitBreaks(t: Tree, i: nat, newPid: nat)
    requires |t.leaves| == |t.seps| + 1 && i + 1 < |t.leaves| && LeafShape(t.leaves[i]) && |t.leaves[i].keys| >= 2
    requires t.leaves[i].next == 0
    ensures Broken(Splice(t, i, 1, SplitSub(t.leaves[i], newPid)).leaves)
  {
    var sub := SplitSub(t.leaves[i], newPid);
    SpliceAt(t, i, 1, sub);
    var leaves := Splice(t, i, 1, sub).leaves;
    assert leaves[i + 1] == LeafAt(t, i, 1, sub, i + 1) == sub.leaves[1];
    hide Splice;
    assert leaves[i + 1].next == 0;
  }

  /** The first `e` leaves. */
  ghost function FirstLeaves(t: Tree, e: nat): Tree
    requires 0 < e <= |t.leaves| == |t.seps| + 1
  {
    Tree(t.seps[..e - 1], t.leaves[..e])
  }

  /** The part of the map that is in the first `e` leaves. */
  ghost function Reached(leaves: seq<Node>, e: nat, m: map<int, nat>): map<int, nat>
    requires e <= |leaves|
  {
    map k | k in m && k in Keys(leaves[..e]) :: m[k]
  }

  lemma FirstOrdered(t: Tree, e: nat)
    requires Ordered(t) && 0 < e <= |t.leaves|
    ensures Ordered(FirstLeaves(t, e))
  {
    hide LeafShape, AtLeast, Below;
  }

  lemma ReachedAll(leaves: seq<Node>, m: map<int, nat>)
    requires Represents(Keys(leaves), Rowids(leaves), m)
    ensures Reached(leaves, |leaves|, m) == m
  {
    assert leaves[..|leaves|] == leaves;
    hide Keys, Rowids;
    assert forall k :: k in m ==> k in Reached(leaves, |leaves|, m);
  }

  lemma ReachedStands(t: Tree, e: nat, m: map<int, nat>)
    requires Ordered(t) && 0 < e <= |t.leaves| && Represents(Keys(t.leaves), Rowids(t.leaves), m)
    ensures Represents(Keys(t.leaves[..e]), Rowids(t.leaves[..e]), Reached(t.leaves, e, m))
  {
    var a, b := t.leaves[..e], t.leaves[e..];
    assert t.leaves == a + b;
    Concat(a, b);
    KeysAndRowids(a);
    var ks, vs := Keys(a), Rowids(a);
    hide Keys, Rowids, Ordered;
    forall i | 0 <= i < |ks|
      ensures ks[i] in m && m[ks[i]] == vs[i]
    {
      assert Keys(t.leaves)[i] == ks[i] && Rowids(t.leaves)[i] == vs[i];
    }
  }

  /** What is picked from the first leaves, from the one in charge of `lo` on, answers for the keys that they have. */
  lemma FirstAnswer(t: Tree, m: map<int, nat>, lo: int, hi: int, inclusive: bool, c: nat, e: nat)
    requires Ordered(t) && Represents(Keys(t.leaves), Rowids(t.leaves), m)
    requires IsChildIndex(t.seps, lo, c) && c < e <= |t.leaves|
    ensures Leaves(t.leaves[..e])
    ensures Answers(Reached(t.leaves, e, m), Between(lo, hi, inclusive),
                    Rest(t.leaves[..e], c, 0, Between(lo, hi, inclusive)))
  {
    var p := FirstLeaves(t, e);
    FirstOrdered(t, e);
    ReachedStands(t, e, m);
    StartLeaf(p, lo, hi, inclusive, c);
    KeysSorted(p);
    hide Ordered, Keys, Rowids, Reached, Represents;
    PickAnswers(Keys(p.leaves), Rowids(p.leaves), Reached(t.leaves, e, m), Between(lo, hi, inclusive));
  }

  /** All rowids of the first leaves answer for the keys that they have. */
  lemma FirstScan(t: Tree, m: map<int, nat>, e: nat)
    requires Ordered(t) && Represents(Keys(t.leaves), Rowids(t.leaves), m) && 0 < e <= |t.leaves|
    ensures Answers(Reached(t.leaves, e, m), Everything(), Rowids(t.leaves[..e]))
  {
    var p := FirstLeaves(t, e);
    FirstOrdered(t, e);
    ReachedStands(t, e, m);
    KeysSorted(p);
    KeysAndRowids(p.leaves);
    hide Ordered, Keys, Rowids, Reached;
    PickAnswers(Keys(p.leaves), Rowids(p.leaves), Reached(t.leaves, e, m), Everything());
    PickAll(Keys(p.leaves), Rowids(p.leaves));
  }

  /** The leaves behind a broken chain's end have keys that no scan meets. */
  lemma BrokenMisses(t: Tree, m: map<int, nat>, e: nat, r: seq<nat>)
    requires Ordered(t) && Represents(Keys(t.leaves), Rowids(t.leaves), m) && 0 < e < |t.leaves|
    requires t.leaves[e].keys != [] && Answers(Reached(t.leaves, e, m), Everything(), r)
    ensures !Answers(m, Everything(), r)
  {
    var k := t.leaves[e].keys[0];
    LeftOfSeparator(t, e - 1);
    assert AtLeast(t.leaves[e].keys, t.seps[e - 1]);
    assert k !in Keys(t.leaves[..e]);
    KeysOfMember(t.leaves, k);
    hide Keys, Rowids, Ordered;
    var ks :| AnswerKeys(Reached(t.leaves, e, m), Everything(), r, ks);
    if Answers(m, Everything(), r) {
      var all :| AnswerKeys(m, Everything(), r, all);
      MoreKeys(ks, all, k);
    }
  }

  /** A scan that ends before the last leaf has fewer rowids than there are keys, and any other one has as many. */
  lemma ScanLength(t: Tree, m: map<int, nat>, e: nat)
    requires Ordered(t) && Represents(Keys(t.leaves), Rowids(t.leaves), m) && 0 < e <= |t.leaves|
    requires e < |t.leaves| ==> t.leaves[e].keys != []
    ensures |Rowids(t.leaves[..e])| == |m| <==> e == |t.leaves|
    ensures |Rowids(t.leaves[..e])| <= |m|
  {
    var a, b := t.leaves[..e], t.leaves[e..];
    assert t.leaves == a + b;
    Concat(a, b);
    KeysAndRowids(a);
    KeysSorted(t);
    assert e < |t.leaves| ==> b[0] == t.leaves[e] && Keys(b) == b[0].keys + Keys(b[1..]);
    hide Ordered, Represents;
    RepSize(Keys(t.leaves), Rowids(t.leaves), m);
  }

  lemma MoreKeys(ks: seq<int>, all: seq<int>, k: int)
    requires Sorted(ks) && Sorted(all) && k in all && k !in ks && forall x :: x in ks ==> x in all
    ensures |ks| < |all|
  {
    SortedSize(ks);
    SortedSize(all);
    var few, many := set x | x in ks, set x | x in all;
    assert few <= many - {k};
    SubsetSize(few, many - {k});
  }

  lemma {:induction false} SubsetSize<T>(a: set<T>, b: set<T>)
    requires a <= b
    ensures |a| <= |b|
    decreases |a|
  {
    if x :| x in a {
      SubsetSize(a - {x}, b - {x});
    }
  }
}
