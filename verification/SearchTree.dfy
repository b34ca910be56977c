/**
  * The contents of a tree whose root is a leaf or has only leaves as children: the separators in the
  * root, and the leaves from left to right.
  */
module SearchTree {
  import opened Bytes
  import opened NodeCodec
  import opened NodeEdits

  datatype Tree = Tree(seps: seq<int>, leaves: seq<Node>)

  ghost predicate AtLeast(keys: seq<int>, lo: int) { forall j :: 0 <= j < |keys| ==> lo <= keys[j] }

  ghost predicate Below(keys: seq<int>, hi: int) { forall j :: 0 <= j < |keys| ==> keys[j] < hi }

  ghost predicate Above(keys: seq<int>, lo: int) { forall j :: 0 <= j < |keys| ==> lo < keys[j] }

  ghost predicate LeafShape(n: Node) {
    && n.isLeaf && |n.values| == |n.keys| && n.children == []
    && Sorted(n.keys) && AllI64(n.keys) && AllBelow(n.values, U64_LIMIT)
  }

  /** Keys increase inside each leaf, separators increase, and each leaf lies between its separators. */
  ghost predicate Ordered(t: Tree) {
    && |t.leaves| == |t.seps| + 1
    && Sorted(t.seps) && AllI64(t.seps)
    && (forall i {:trigger t.leaves[i]} :: 0 <= i < |t.leaves| ==> LeafShape(t.leaves[i]))
    && (forall i {:trigger t.leaves[i]} :: 0 <= i < |t.seps| ==> Below(t.leaves[i].keys, t.seps[i]))
    && (forall i {:trigger t.leaves[i]} :: 0 < i < |t.leaves| ==> AtLeast(t.leaves[i].keys, t.seps[i - 1]))
  }

  function NextPid(leaves: seq<Node>, i: nat): nat { if i + 1 < |leaves| then leaves[i + 1].pid else 0 }

  /** Each leaf points to the next one, and the last one to 0; in a cut chain, others may point to 0, too. */
  ghost predicate Linked(leaves: seq<Node>, cut: bool) {
    forall i {:trigger NextPid(leaves, i)} :: 0 <= i < |leaves| ==> LinkOk(leaves[i].next, NextPid(leaves, i), cut)
  }

  predicate LinkOk(next: nat, pid: nat, cut: bool) { next == pid || (cut && next == 0) }

  function Pids(leaves: seq<Node>): (r: seq<nat>)
    ensures |r| == |leaves|
    ensures forall i :: 0 <= i < |leaves| ==> r[i] == leaves[i].pid
  {
    seq(|leaves|, i requires 0 <= i < |leaves| => leaves[i].pid)
  }

  ghost function PidSet(leaves: seq<Node>): set<nat> { set i | 0 <= i < |leaves| :: leaves[i].pid }

  ghost predicate DistinctPids(leaves: seq<Node>) {
    forall i, j :: 0 <= i < j < |leaves| ==> leaves[i].pid != leaves[j].pid
  }

  // ---- the keys and rowids in order

  ghost function Keys(leaves: seq<Node>): seq<int> {
    if leaves == [] then [] else leaves[0].keys + Keys(leaves[1..])
  }

  ghost function Rowids(leaves: seq<Node>): seq<nat> {
    if leaves == [] then [] else leaves[0].values + Rowids(leaves[1..])
  }

  lemma {:induction false} Concat(a: seq<Node>, b: seq<Node>)
    ensures Keys(a + b) == Keys(a) + Keys(b) && Rowids(a + b) == Rowids(a) + Rowids(b)
  {
    if a == [] {
      assert a + b == b;
    } else {
      assert (a + b)[1..] == a[1..] + b;
      Concat(a[1..], b);
    }
  }

  lemma KeysAround(leaves: seq<Node>, i: nat)
    requires i < |leaves|
    ensures Keys(leaves) == Keys(leaves[..i]) + leaves[i].keys + Keys(leaves[i + 1..])
    ensures Rowids(leaves) == Rowids(leaves[..i]) + leaves[i].values + Rowids(leaves[i + 1..])
  {
    var tail := leaves[i..];
    assert leaves == leaves[..i] + tail;
    assert tail[1..] == leaves[i + 1..];
    Concat(leaves[..i], tail);
  }

  lemma {:induction false} KeysOfMember(leaves: seq<Node>, k: int)
    ensures k in Keys(leaves) <==> exists i :: 0 <= i < |leaves| && k in leaves[i].keys
  {
    if leaves != [] {
      KeysOfMember(leaves[1..], k);
      assert forall i :: 0 < i < |leaves| ==> leaves[i] == leaves[1..][i - 1];
    }
  }

  lemma {:induction false} KeysAndRowids(leaves: seq<Node>)
    requires forall i :: 0 <= i < |leaves| ==> LeafShape(leaves[i])
    ensures |Keys(leaves)| == |Rowids(leaves)|
  {
    if leaves != [] {
      KeysAndRowids(leaves[1..]);
    }
  }

  /** The leaves left of a separator hold smaller keys. */
  lemma LeftOfSeparator(t: Tree, i: nat)
    requires Ordered(t) && i < |t.seps|
    ensures Below(Keys(t.leaves[..i + 1]), t.seps[i])
  {
    hide Keys, LeafShape, AllI64;
    var left := Keys(t.leaves[..i + 1]);
    forall p | 0 <= p < |left|
      ensures left[p] < t.seps[i]
    {
      KeysOfMember(t.leaves[..i + 1], left[p]);
      var j :| 0 <= j <= i && left[p] in t.leaves[j].keys;
      assert left[p] < t.seps[j];
    }
  }

  /** The leaves right of a separator hold no smaller keys. */
  lemma RightOfSeparator(t: Tree, i: nat)
    requires Ordered(t) && i < |t.seps|
    ensures AtLeast(Keys(t.leaves[i + 1..]), t.seps[i])
  {
    hide Keys, LeafShape, AllI64;
    var leaves := t.leaves[i + 1..];
    var right := Keys(leaves);
    forall p | 0 <= p < |right|
      ensures t.seps[i] <= right[p]
    {
      KeysOfMember(leaves, right[p]);
      var j :| 0 <= j < |leaves| && right[p] in leaves[j].keys;
      assert leaves[j] == t.leaves[i + 1 + j];
      assert t.seps[i + j] <= right[p];
    }
  }

  /** A key can only be in the leaf the search leads to; everything left of it is smaller, everything right larger. */
  lemma Located(t: Tree, key: int, i: nat)
    requires Ordered(t) && IsChildIndex(t.seps, key, i)
    ensures Below(Keys(t.leaves[..i]), key) && Above(Keys(t.leaves[i + 1..]), key)
    ensures key in Keys(t.leaves) <==> key in t.leaves[i].keys
  {
    KeysAround(t.leaves, i);
    var leaf := t.leaves[i];
    if i > 0 { LeftOfSeparator(t, i - 1); }
    if i < |t.seps| {
      RightOfSeparator(t, i);
    } else {
      assert t.leaves[i + 1..] == [];
    }
    hide Keys, Ordered;
  }

  lemma FrontOrdered(t: Tree)
    requires Ordered(t) && t.seps != []
    ensures Ordered(Tree(Front(t.seps), Front(t.leaves)))
  {
    hide LeafShape, AtLeast, Below;
  }

  /** All keys in order form one increasing sequence. */
  lemma {:induction false} KeysSorted(t: Tree)
    requires Ordered(t)
    ensures Sorted(Keys(t.leaves))
    decreases |t.leaves|
  {
    var n := |t.seps|;
    if n == 0 {
      assert t.leaves[1..] == [];
      assert Keys(t.leaves) == t.leaves[0].keys + [];
    } else {
      KeysAround(t.leaves, n);
      assert t.leaves[n + 1..] == [];
      assert LeafShape(t.leaves[n]) && AtLeast(t.leaves[n].keys, t.seps[n - 1]);
      FrontOrdered(t);
      LeftOfSeparator(t, n - 1);
      hide Ordered;
      KeysSorted(Tree(t.seps[..n - 1], t.leaves[..n]));
    }
  }

  // ---- the map the tree stands for

  /** The keys and rowids, pairwise, are the entries of `m`, all of them. */
  ghost predicate Represents(ks: seq<int>, vs: seq<nat>, m: map<int, nat>) {
    && |ks| == |vs|
    && (forall i :: 0 <= i < |ks| ==> ks[i] in m && m[ks[i]] == vs[i])
    && (forall k :: k in m ==> k in ks)
  }

  lemma RepInsert(a: seq<int>, b: seq<int>, va: seq<nat>, vb: seq<nat>, m: map<int, nat>, k: int, v: nat)
    requires |a| == |va| && Represents(a + b, va + vb, m) && k !in a + b
    ensures Represents(a + [k] + b, va + [v] + vb, m[k := v])
  {
    var ks, vs, ks', vs', m' := a + b, va + vb, a + [k] + b, va + [v] + vb, m[k := v];
    forall i | 0 <= i < |ks'|
      ensures ks'[i] in m' && m'[ks'[i]] == vs'[i]
    {
      if i < |a| {
        assert ks'[i] == ks[i];
      } else if i > |a| {
        assert ks'[i] == ks[i - 1] && vs'[i] == vs[i - 1];
      }
    }
    forall q | q in m'
      ensures q in ks'
    {
      if q == k {
        assert ks'[|a|] == k;
      } else {
        assert q in ks;
        var j :| 0 <= j < |ks| && ks[j] == q;
        assert ks'[if j < |a| then j else j + 1] == q;
      }
    }
  }

  lemma RepReplace(a: seq<int>, b: seq<int>, va: seq<nat>, vb: seq<nat>, m: map<int, nat>, k: int, v: nat, v': nat)
    requires |a| == |va| && Represents(a + [k] + b, va + [v] + vb, m) && Sorted(a + [k] + b)
    ensures Represents(a + [k] + b, va + [v'] + vb, m[k := v'])
  {
    var ks, vs, vs' := a + [k] + b, va + [v] + vb, va + [v'] + vb;
    forall i | 0 <= i < |ks|
      ensures ks[i] in m[k := v'] && m[k := v'][ks[i]] == vs'[i]
    {
      assert ks[|a|] == k;
      if i != |a| {
        assert ks[i] != k && vs'[i] == vs[i];
      }
    }
  }

  lemma RepDelete(a: seq<int>, b: seq<int>, va: seq<nat>, vb: seq<nat>, m: map<int, nat>, k: int, v: nat)
    requires |a| == |va| && Represents(a + [k] + b, va + [v] + vb, m) && Sorted(a + [k] + b)
    ensures Represents(a + b, va + vb, m - {k})
  {
    var ks, vs, ks', vs' := a + [k] + b, va + [v] + vb, a + b, va + vb;
    assert ks[|a|] == k;
    forall i | 0 <= i < |ks'|
      ensures ks'[i] in m - {k} && (m - {k})[ks'[i]] == vs'[i]
    {
      var j := if i < |a| then i else i + 1;
      assert ks'[i] == ks[j] != k && vs'[i] == vs[j];
    }
    forall q | q in m - {k}
      ensures q in ks'
    {
      var j :| 0 <= j < |ks| && ks[j] == q;
      assert ks'[if j < |a| then j else j - 1] == q;
    }
  }

  // The same three edits, for an entry inside the middle one of three parts.

  lemma RepInsertAt(pre: seq<int>, ks: seq<int>, post: seq<int>, vpre: seq<nat>, vs: seq<nat>, vpost: seq<nat>,
                    m: map<int, nat>, i: nat, k: int, v: nat)
    requires |pre| == |vpre| && |ks| == |vs| && i <= |ks|
    requires Represents(pre + ks + post, vpre + vs + vpost, m) && k !in pre + ks + post
    ensures Represents(pre + InsertAt(ks, i, k) + post, vpre + InsertAt(vs, i, v) + vpost, m[k := v])
  {
    hide Represents;
    assert pre + ks + post == (pre + ks[..i]) + (ks[i..] + post);
    assert vpre + vs + vpost == (vpre + vs[..i]) + (vs[i..] + vpost);
    RepInsert(pre + ks[..i], ks[i..] + post, vpre + vs[..i], vs[i..] + vpost, m, k, v);
    assert pre + InsertAt(ks, i, k) + post == (pre + ks[..i]) + [k] + (ks[i..] + post);
    assert vpre + InsertAt(vs, i, v) + vpost == (vpre + vs[..i]) + [v] + (vs[i..] + vpost);
  }

  lemma RepReplaceAt(pre: seq<int>, ks: seq<int>, post: seq<int>, vpre: seq<nat>, vs: seq<nat>, vpost: seq<nat>,
                     m: map<int, nat>, i: nat, v: nat)
    requires |pre| == |vpre| && |ks| == |vs| && i < |ks|
    requires Represents(pre + ks + post, vpre + vs + vpost, m) && Sorted(pre + ks + post)
    ensures Represents(pre + ks + post, vpre + vs[i := v] + vpost, m[ks[i] := v])
  {
    hide Represents, Sorted;
    var a, b, va, vb := pre + ks[..i], ks[i + 1..] + post, vpre + vs[..i], vs[i + 1..] + vpost;
    assert pre + ks + post == a + [ks[i]] + b;
    assert vpre + vs + vpost == va + [vs[i]] + vb;
    RepReplace(a, b, va, vb, m, ks[i], vs[i], v);
    assert vpre + vs[i := v] + vpost == va + [v] + vb;
  }

  lemma RepDeleteAt(pre: seq<int>, ks: seq<int>, post: seq<int>, vpre: seq<nat>, vs: seq<nat>, vpost: seq<nat>,
                    m: map<int, nat>, i: nat)
    requires |pre| == |vpre| && |ks| == |vs| && i < |ks|
    requires Represents(pre + ks + post, vpre + vs + vpost, m) && Sorted(pre + ks + post)
    ensures Represents(pre + RemoveAt(ks, i) + post, vpre + RemoveAt(vs, i) + vpost, m - {ks[i]})
  {
    hide Represents, Sorted;
    var a, b, va, vb := pre + ks[..i], ks[i + 1..] + post, vpre + vs[..i], vs[i + 1..] + vpost;
    assert pre + ks + post == a + [ks[i]] + b;
    assert vpre + vs + vpost == va + [vs[i]] + vb;
    RepDelete(a, b, va, vb, m, ks[i], vs[i]);
    assert pre + RemoveAt(ks, i) + post == a + b;
    assert vpre + RemoveAt(vs, i) + vpost == va + vb;
  }

  /** As many keys in the leaves as entries in the map. */
  lemma RepSize(ks: seq<int>, vs: seq<nat>, m: map<int, nat>)
    requires Represents(ks, vs, m) && Sorted(ks)
    ensures |ks| == |m|
  {
    SortedSize(ks);
    forall k | k in ks
      ensures k in m.Keys
    {
      var i :| 0 <= i < |ks| && ks[i] == k;
    }
    forall k | k in m.Keys
      ensures k in ks
    {
      assert k in m;
    }
    assert m.Keys == (set k | k in ks);
    assert |m| == |m.Keys|;
  }

  lemma {:induction false} SortedSize(ks: seq<int>)
    requires Sorted(ks)
    ensures |set k | k in ks| == |ks|
  {
    if ks != [] {
      SortedSize(ks[1..]);
      assert ks == [ks[0]] + ks[1..];
      assert ks[0] !in ks[1..];
      assert (set k | k in ks) == {ks[0]} + set k | k in ks[1..];
    }
  }

  // ---- replacing a run of neighbouring leaves

  /** `t` with the `n` leaves from `i` on replaced by `sub`. */
  ghost function Splice(t: Tree, i: nat, n: nat, sub: Tree): Tree
    requires |t.leaves| == |t.seps| + 1 && 0 < n && i + n <= |t.leaves|
  {
    Tree(t.seps[..i] + sub.seps + t.seps[i + n - 1..], t.leaves[..i] + sub.leaves + t.leaves[i + n..])
  }

  /** `sub` lies between the separators around the leaves that it replaces. */
  ghost predicate InBand(t: Tree, i: nat, n: nat, sub: Tree)
    requires |t.leaves| == |t.seps| + 1 && 0 < n && i + n <= |t.leaves|
  {
    && (i > 0 ==> (forall j :: 0 <= j < |sub.seps| ==> t.seps[i - 1] < sub.seps[j])
                  && forall j :: 0 <= j < |sub.leaves| ==> AtLeast(sub.leaves[j].keys, t.seps[i - 1]))
    && (i + n - 1 < |t.seps| ==> (forall j :: 0 <= j < |sub.seps| ==> sub.seps[j] < t.seps[i + n - 1])
                                 && forall j :: 0 <= j < |sub.leaves| ==> Below(sub.leaves[j].keys, t.seps[i + n - 1]))
  }

  ghost function SepAt(t: Tree, i: nat, n: nat, sub: Tree, j: nat): int
    requires |t.leaves| == |t.seps| + 1 && |sub.leaves| == |sub.seps| + 1 && 0 < n && i + n <= |t.leaves|
    requires j < |t.seps| + |sub.seps| + 1 - n
  {
    if j < i then t.seps[j] else if j < i + |sub.seps| then sub.seps[j - i] else t.seps[j - |sub.seps| + n - 1]
  }

  ghost function LeafAt(t: Tree, i: nat, n: nat, sub: Tree, j: nat): Node
    requires |t.leaves| == |t.seps| + 1 && |sub.leaves| == |sub.seps| + 1 && 0 < n && i + n <= |t.leaves|
    requires j < |t.leaves| + |sub.leaves| - n
  {
    if j < i then t.leaves[j] else if j < i + |sub.leaves| then sub.leaves[j - i] else t.leaves[j - |sub.leaves| + n]
  }

  /** What a spliced tree is made of, position by position. */
  lemma SpliceAt(t: Tree, i: nat, n: nat, sub: Tree)
    requires |t.leaves| == |t.seps| + 1 && |sub.leaves| == |sub.seps| + 1 && 0 < n && i + n <= |t.leaves|
    ensures
      var s := Splice(t, i, n, sub);
      && |s.leaves| == |s.seps| + 1 == |t.leaves| + |sub.leaves| - n
      && (forall j :: 0 <= j < |s.seps| ==> s.seps[j] == SepAt(t, i, n, sub, j))
      && (forall j :: 0 <= j < |s.leaves| ==> s.leaves[j] == LeafAt(t, i, n, sub, j))
  {
  }

  lemma SpliceOrdered(t: Tree, i: nat, n: nat, sub: Tree)
    requires Ordered(t) && 0 < n && i + n <= |t.leaves| && Ordered(sub) && InBand(t, i, n, sub)
    ensures Ordered(Splice(t, i, n, sub))
  {
    var s := Splice(t, i, n, sub);
    SpliceAt(t, i, n, sub);
    forall a, b | 0 <= a < b < |s.seps|
      ensures s.seps[a] < s.seps[b]
    {
      SepsIncrease(t, i, n, sub, a, b);
    }
    forall j | 0 <= j < |s.seps|
      ensures Below(s.leaves[j].keys, s.seps[j]) && AtLeast(s.leaves[j + 1].keys, s.seps[j]) && IsI64(s.seps[j])
    {
      SepBounds(t, i, n, sub, j);
    }
    forall j | 0 <= j < |s.leaves|
      ensures LeafShape(s.leaves[j])
    {
      assert s.leaves[j] == LeafAt(t, i, n, sub, j);
    }
  }

  lemma SepsIncrease(t: Tree, i: nat, n: nat, sub: Tree, a: nat, b: nat)
    requires Ordered(t) && 0 < n && i + n <= |t.leaves| && Ordered(sub) && InBand(t, i, n, sub)
    requires a < b < |t.seps| + |sub.seps| + 1 - n
    ensures SepAt(t, i, n, sub, a) < SepAt(t, i, n, sub, b)
  {
    hide LeafShape, AtLeast, Below;
  }

  lemma SepBounds(t: Tree, i: nat, n: nat, sub: Tree, j: nat)
    requires Ordered(t) && 0 < n && i + n <= |t.leaves| && Ordered(sub) && InBand(t, i, n, sub)
    requires j < |t.seps| + |sub.seps| + 1 - n
    ensures Below(LeafAt(t, i, n, sub, j).keys, SepAt(t, i, n, sub, j))
    ensures AtLeast(LeafAt(t, i, n, sub, j + 1).keys, SepAt(t, i, n, sub, j))
    ensures IsI64(SepAt(t, i, n, sub, j))
  {
    hide LeafShape, AtLeast, Below, Sorted, IsI64;
  }

  /** `sub` takes over the place of the leaves that it replaces in the chain. */
  ghost predicate LinksIn(t: Tree, i: nat, n: nat, sub: Tree, cut: bool)
    requires 0 < n && i + n <= |t.leaves|
  {
    && sub.leaves != []
    && (forall j :: 0 <= j < |sub.leaves| - 1 ==> LinkOk(sub.leaves[j].next, sub.leaves[j + 1].pid, cut))
    && Last(sub.leaves).next == t.leaves[i + n - 1].next
    && (i > 0 ==> sub.leaves[0].pid == t.leaves[i].pid)
  }

  lemma SpliceLinked(t: Tree, i: nat, n: nat, sub: Tree, cut: bool)
    requires |t.leaves| == |t.seps| + 1 && 0 < n && i + n <= |t.leaves|
    requires Linked(t.leaves, cut) && LinksIn(t, i, n, sub, cut)
    ensures Linked(Splice(t, i, n, sub).leaves, cut)
  {
    hide LinkOk;
    var s := Splice(t, i, n, sub).leaves;
    var m := |sub.leaves|;
    forall j | 0 <= j < |s|
      ensures LinkOk(s[j].next, NextPid(s, j), cut)
    {
      if j < i {
        assert s[j] == t.leaves[j] && LinkOk(t.leaves[j].next, NextPid(t.leaves, j), cut);
      } else if j < i + m {
        assert s[j] == sub.leaves[j - i];
        assert LinkOk(t.leaves[i + n - 1].next, NextPid(t.leaves, i + n - 1), cut);
        if j < i + m - 1 {
          assert s[j + 1] == sub.leaves[j - i + 1];
        }
      } else {
        var k := j - m + n;
        assert s[j] == t.leaves[k] && LinkOk(t.leaves[k].next, NextPid(t.leaves, k), cut);
      }
    }
  }

  /** The pages of `sub` are new ones, or pages of the leaves that it replaces. */
  ghost predicate PidsIn(t: Tree, i: nat, n: nat, sub: Tree)
    requires 0 < n && i + n <= |t.leaves|
  {
    && DistinctPids(sub.leaves)
    && forall j :: 0 <= j < |sub.leaves| ==>
         sub.leaves[j].pid !in PidSet(t.leaves) || sub.leaves[j].pid in PidSet(t.leaves[i..i + n])
  }

  lemma SplicePids(t: Tree, i: nat, n: nat, sub: Tree)
    requires |t.leaves| == |t.seps| + 1 && |sub.leaves| == |sub.seps| + 1
    requires 0 < n && i + n <= |t.leaves| && DistinctPids(t.leaves) && PidsIn(t, i, n, sub)
    ensures DistinctPids(Splice(t, i, n, sub).leaves)
    ensures PidSet(Splice(t, i, n, sub).leaves) == PidSet(t.leaves) - PidSet(t.leaves[i..i + n]) + PidSet(sub.leaves)
  {
    hide *;
    SpliceDistinct(t, i, n, sub);
    SplicePidsKept(t, i, n, sub);
    SplicePidsFrom(t, i, n, sub);
  }

  lemma SpliceDistinct(t: Tree, i: nat, n: nat, sub: Tree)
    requires |t.leaves| == |t.seps| + 1 && |sub.leaves| == |sub.seps| + 1
    requires 0 < n && i + n <= |t.leaves| && DistinctPids(t.leaves) && PidsIn(t, i, n, sub)
    ensures DistinctPids(Splice(t, i, n, sub).leaves)
  {
    hide Splice, PidSet;
    var s := Splice(t, i, n, sub);
    SpliceAt(t, i, n, sub);
    forall a, b | 0 <= a < b < |s.leaves|
      ensures s.leaves[a].pid != s.leaves[b].pid
    {
      assert s.leaves[a] == LeafAt(t, i, n, sub, a) && s.leaves[b] == LeafAt(t, i, n, sub, b);
      if a < i {
        PidApart(t, i, n, sub, a);
      }
      if b >= i + |sub.leaves| {
        PidApart(t, i, n, sub, b - |sub.leaves| + n);
      }
      PidInSub(sub, if i <= a < i + |sub.leaves| then a - i else b - i);
    }
  }

  lemma PidInSub(sub: Tree, j: int)
    ensures 0 <= j < |sub.leaves| ==> sub.leaves[j].pid in PidSet(sub.leaves)
  {
  }

  lemma PidInRun(leaves: seq<Node>, i: nat, n: nat, j: nat)
    requires i + n <= |leaves| && j < |leaves|
    ensures i <= j < i + n ==> leaves[j].pid in PidSet(leaves[i..i + n])
  {
    var k := if i <= j < i + n then j else i;
    assert i <= j < i + n ==> leaves[i..i + n][k - i] == leaves[j];
  }

  /** The pages that stay and the pages of `sub` are pages of the spliced tree. */
  lemma SplicePidsKept(t: Tree, i: nat, n: nat, sub: Tree)
    requires |t.leaves| == |t.seps| + 1 && |sub.leaves| == |sub.seps| + 1
    requires 0 < n && i + n <= |t.leaves| && DistinctPids(t.leaves) && PidsIn(t, i, n, sub)
    ensures PidSet(t.leaves) - PidSet(t.leaves[i..i + n]) + PidSet(sub.leaves) <= PidSet(Splice(t, i, n, sub).leaves)
  {
    hide Splice, PidsIn, DistinctPids;
    var s := Splice(t, i, n, sub);
    var m := |sub.leaves|;
    SpliceAt(t, i, n, sub);
    forall p | p in PidSet(t.leaves) - PidSet(t.leaves[i..i + n]) ensures p in PidSet(s.leaves) {
      var j :| 0 <= j < |t.leaves| && t.leaves[j].pid == p;
      PidInRun(t.leaves, i, n, j);
      assert s.leaves[if j < i then j else j - n + m] == t.leaves[j];
    }
    forall j | 0 <= j < m ensures sub.leaves[j].pid in PidSet(s.leaves) {
      assert s.leaves[i + j] == sub.leaves[j];
    }
  }

  /** It has no other pages. */
  lemma SplicePidsFrom(t: Tree, i: nat, n: nat, sub: Tree)
    requires |t.leaves| == |t.seps| + 1 && |sub.leaves| == |sub.seps| + 1
    requires 0 < n && i + n <= |t.leaves| && DistinctPids(t.leaves) && PidsIn(t, i, n, sub)
    ensures PidSet(Splice(t, i, n, sub).leaves) <= PidSet(t.leaves) - PidSet(t.leaves[i..i + n]) + PidSet(sub.leaves)
  {
    hide Splice, PidsIn, DistinctPids;
    var s := Splice(t, i, n, sub);
    SpliceAt(t, i, n, sub);
    forall p | p in PidSet(s.leaves)
      ensures p in PidSet(t.leaves) - PidSet(t.leaves[i..i + n]) + PidSet(sub.leaves)
    {
      var j :| 0 <= j < |s.leaves| && s.leaves[j].pid == p;
      assert s.leaves[j] == LeafAt(t, i, n, sub, j);
      if j < i {
        PidApart(t, i, n, sub, j);
      } else if j >= i + |sub.leaves| {
        PidApart(t, i, n, sub, j - |sub.leaves| + n);
      }
    }
  }

  lemma PidApart(t: Tree, i: nat, n: nat, sub: Tree, j: nat)
    requires 0 < n && i + n <= |t.leaves| && DistinctPids(t.leaves) && PidsIn(t, i, n, sub)
    requires j < |t.leaves| && !(i <= j < i + n)
    ensures t.leaves[j].pid !in PidSet(t.leaves[i..i + n]) && t.leaves[j].pid !in PidSet(sub.leaves)
  {
    assert t.leaves[j].pid in PidSet(t.leaves);
    var run := t.leaves[i..i + n];
    assert forall b | 0 <= b < n :: run[b] == t.leaves[i + b];
  }

  lemma SpliceContents(t: Tree, i: nat, n: nat, sub: Tree)
    requires |t.leaves| == |t.seps| + 1 && 0 < n && i + n <= |t.leaves|
    requires Keys(sub.leaves) == Keys(t.leaves[i..i + n]) && Rowids(sub.leaves) == Rowids(t.leaves[i..i + n])
    ensures Keys(Splice(t, i, n, sub).leaves) == Keys(t.leaves)
    ensures Rowids(Splice(t, i, n, sub).leaves) == Rowids(t.leaves)
  {
    hide Keys, Rowids;
    var a, b, c := t.leaves[..i], t.leaves[i..i + n], t.leaves[i + n..];
    ThreeParts(t.leaves, i, n);
    Concat(a + b, c);
    Concat(a, b);
    Concat(a + sub.leaves, c);
    Concat(a, sub.leaves);
  }

  lemma ThreeParts<T>(s: seq<T>, i: nat, n: nat)
    requires i + n <= |s|
    ensures s == s[..i] + s[i..i + n] + s[i + n..]
  {
  }

  ghost predicate Shape(t: Tree, cut: bool) { Ordered(t) && Linked(t.leaves, cut) && DistinctPids(t.leaves) }

  /** The whole of what a replacement has to meet, and what it then keeps. */
  lemma SpliceShape(t: Tree, i: nat, n: nat, sub: Tree, cut: bool)
    requires Shape(t, cut) && 0 < n && i + n <= |t.leaves|
    requires Ordered(sub) && InBand(t, i, n, sub) && LinksIn(t, i, n, sub, cut) && PidsIn(t, i, n, sub)
    requires Keys(sub.leaves) == Keys(t.leaves[i..i + n]) && Rowids(sub.leaves) == Rowids(t.leaves[i..i + n])
    ensures
      var t' := Splice(t, i, n, sub);
      && Shape(t', cut) && Keys(t'.leaves) == Keys(t.leaves) && Rowids(t'.leaves) == Rowids(t.leaves)
      && PidSet(t'.leaves) == PidSet(t.leaves) - PidSet(t.leaves[i..i + n]) + PidSet(sub.leaves)
  {
    assert |t.leaves| == |t.seps| + 1;
    hide InBand, LinksIn, PidsIn, Splice, Keys, Rowids, PidSet, Linked, DistinctPids, Ordered;
    SpliceOrdered(t, i, n, sub);
    SpliceLinked(t, i, n, sub, cut);
    SplicePids(t, i, n, sub);
    SpliceContents(t, i, n, sub);
  }

  // ---- the edits of the tree, one by one

  /** The leaf at `i` written anew with other entries that still lie between its separators. */
  lemma LeafEdited(t: Tree, i: nat, leaf: Node, was: bool, cut: bool)
    requires Shape(t, was) && i < |t.leaves| && LeafShape(leaf) && (was ==> cut)
    requires leaf.pid == t.leaves[i].pid && LinkOk(leaf.next, t.leaves[i].next, cut)
    requires i > 0 ==> AtLeast(leaf.keys, t.seps[i - 1])
    requires i < |t.seps| ==> Below(leaf.keys, t.seps[i])
    ensures
      var t' := Tree(t.seps, t.leaves[i := leaf]);
      && Shape(t', cut) && Pids(t'.leaves) == Pids(t.leaves) && PidSet(t'.leaves) == PidSet(t.leaves)
      && Keys(t'.leaves) == Keys(t.leaves[..i]) + leaf.keys + Keys(t.leaves[i + 1..])
      && Rowids(t'.leaves) == Rowids(t.leaves[..i]) + leaf.values + Rowids(t.leaves[i + 1..])
  {
    var t' := Tree(t.seps, t.leaves[i := leaf]);
    EditOrdered(t, i, leaf);
    EditLinked(t.leaves, i, leaf, was, cut);
    hide Ordered, Linked, LeafShape;
    assert t'.leaves[..i] == t.leaves[..i] && t'.leaves[i + 1..] == t.leaves[i + 1..];
    KeysAround(t'.leaves, i);
    SamePids(t.leaves, t'.leaves);
  }

  lemma EditOrdered(t: Tree, i: nat, leaf: Node)
    requires Ordered(t) && i < |t.leaves| && LeafShape(leaf)
    requires i > 0 ==> AtLeast(leaf.keys, t.seps[i - 1])
    requires i < |t.seps| ==> Below(leaf.keys, t.seps[i])
    ensures Ordered(Tree(t.seps, t.leaves[i := leaf]))
  {
    hide LeafShape, AtLeast, Below, AllI64, Sorted;
  }

  lemma EditLinked(leaves: seq<Node>, i: nat, leaf: Node, was: bool, cut: bool)
    requires Linked(leaves, was) && (was ==> cut) && i < |leaves|
    requires leaf.pid == leaves[i].pid && LinkOk(leaf.next, leaves[i].next, cut)
    ensures Linked(leaves[i := leaf], cut)
  {
    var leaves' := leaves[i := leaf];
    forall j | 0 <= j < |leaves'|
      ensures LinkOk(leaves'[j].next, NextPid(leaves', j), cut)
    {
      assert LinkOk(leaves[j].next, NextPid(leaves, j), was);
    }
  }

  lemma SamePids(s: seq<Node>, s': seq<Node>)
    requires DistinctPids(s) && |s'| == |s| && forall j :: 0 <= j < |s| ==> s'[j].pid == s[j].pid
    ensures DistinctPids(s') && PidSet(s') == PidSet(s) && Pids(s') == Pids(s)
  {
    assert Pids(s') == Pids(s);
    forall p | p in PidSet(s)
      ensures p in PidSet(s')
    {
      var j :| 0 <= j < |s| && s[j].pid == p;
      assert s'[j].pid == p;
    }
    forall p | p in PidSet(s')
      ensures p in PidSet(s)
    {
      var j :| 0 <= j < |s| && s'[j].pid == p;
      assert s[j].pid == p;
    }
  }

  lemma OneContents(a: Node)
    ensures Keys([a]) == a.keys && Rowids([a]) == a.values && PidSet([a]) == {a.pid}
  {
    assert [a][1..] == [];
    assert Keys([a]) == a.keys + [] && Rowids([a]) == a.values + [];
    assert [a][0].pid in PidSet([a]);
  }

  lemma PairContents(a: Node, b: Node)
    ensures Keys([a, b]) == a.keys + b.keys && Rowids([a, b]) == a.values + b.values && PidSet([a, b]) == {a.pid, b.pid}
  {
    assert [a, b][1..] == [b];
    OneContents(b);
    assert [a, b][0].pid in PidSet([a, b]) && [a, b][1].pid in PidSet([a, b]);
  }

  ghost function SplitSub(leaf: Node, newPid: nat): Tree
    requires leaf.isLeaf && |leaf.values| == |leaf.keys| >= 2
  {
    var (left, sep, right) := SplitNode(leaf, newPid);
    Tree([sep], [left, right])
  }

  lemma SplitSubOk(t: Tree, i: nat, newPid: nat, cut: bool)
    requires Shape(t, cut) && i < |t.leaves| && |t.leaves[i].keys| >= 2 && newPid !in PidSet(t.leaves)
    ensures t.leaves[i].isLeaf && |t.leaves[i].values| == |t.leaves[i].keys| && |t.leaves| == |t.seps| + 1
    ensures
      var sub := SplitSub(t.leaves[i], newPid);
      && Ordered(sub) && InBand(t, i, 1, sub) && LinksIn(t, i, 1, sub, cut) && PidsIn(t, i, 1, sub)
      && Keys(sub.leaves) == t.leaves[i].keys && Rowids(sub.leaves) == t.leaves[i].values
      && PidSet(sub.leaves) == {t.leaves[i].pid, newPid}
  {
    assert LeafShape(t.leaves[i]);
    SplitOrdered(t.leaves[i], newPid);
    SplitInBand(t, i, newPid);
    SplitContents(t.leaves[i], newPid);
    var sub := SplitSub(t.leaves[i], newPid);
    hide Ordered, Linked, Keys, Rowids, LeafShape, InBand;
    PidsOfPair(t, i, 1, sub);
  }

  lemma SplitOrdered(leaf: Node, newPid: nat)
    requires LeafShape(leaf) && |leaf.keys| >= 2
    ensures Ordered(SplitSub(leaf, newPid))
  {
    var sub := SplitSub(leaf, newPid);
    SplitKeys(leaf.keys, |leaf.keys| / 2);
    PairOrdered(sub.leaves[0], sub.seps[0], sub.leaves[1]);
  }

  lemma SplitContents(leaf: Node, newPid: nat)
    requires LeafShape(leaf) && |leaf.keys| >= 2
    ensures
      var sub := SplitSub(leaf, newPid);
      && sub.leaves == [sub.leaves[0], sub.leaves[1]] && sub.leaves[0].pid == leaf.pid && sub.leaves[1].pid == newPid
      && Keys(sub.leaves) == leaf.keys && Rowids(sub.leaves) == leaf.values && PidSet(sub.leaves) == {leaf.pid, newPid}
  {
    var sub := SplitSub(leaf, newPid);
    PairContents(sub.leaves[0], sub.leaves[1]);
  }

  lemma SplitInBand(t: Tree, i: nat, newPid: nat)
    requires Ordered(t) && i < |t.leaves| && |t.leaves[i].keys| >= 2 && LeafShape(t.leaves[i])
    ensures InBand(t, i, 1, SplitSub(t.leaves[i], newPid))
  {
    var leaf, sub := t.leaves[i], SplitSub(t.leaves[i], newPid);
    assert leaf.keys[0] < sub.seps[0];
    PairInBand(t, i, 1, sub.leaves[0], sub.seps[0], sub.leaves[1], leaf.keys);
  }

  /** A leaf with at least two keys is split in two by a new page. */
  lemma LeafSplit(t: Tree, i: nat, newPid: nat, cut: bool)
    requires Shape(t, cut) && i < |t.leaves| && |t.leaves[i].keys| >= 2 && newPid !in PidSet(t.leaves)
    ensures
      var t' := Splice(t, i, 1, SplitSub(t.leaves[i], newPid));
      && Shape(t', cut) && PidSet(t'.leaves) == PidSet(t.leaves) + {newPid}
      && Keys(t'.leaves) == Keys(t.leaves) && Rowids(t'.leaves) == Rowids(t.leaves)
  {
    assert t.leaves[i].pid in PidSet(t.leaves);
    SplitSubOk(t, i, newPid, cut);
    hide *;
    OneContents(t.leaves[i]);
    assert t.leaves[i..i + 1] == [t.leaves[i]];
    SpliceShape(t, i, 1, SplitSub(t.leaves[i], newPid), cut);
  }

  /**
    * A pair of leaves of which the first keeps a page of the leaves it replaces, and the second does so or is on a new
    * page.
    */
  lemma PidsOfPair(t: Tree, i: nat, n: nat, sub: Tree)
    requires 0 < n && i + n <= |t.leaves| && |sub.leaves| == 2 && sub.leaves[0].pid == t.leaves[i].pid
    requires sub.leaves[1].pid !in PidSet(t.leaves) || (n == 2 && sub.leaves[1].pid == t.leaves[i + 1].pid)
    requires DistinctPids(t.leaves)
    ensures PidsIn(t, i, n, sub)
  {
    var run := t.leaves[i..i + n];
    assert t.leaves[i].pid in PidSet(t.leaves) && run[0].pid in PidSet(run);
    if n == 2 {
      assert run[1] == t.leaves[i + 1] && run[1].pid in PidSet(run);
    }
  }

  /** The keys of two neighbouring leaves increase together, and lie between the separators around the pair. */
  lemma KeysInBand(t: Tree, i: nat, ks: seq<int>)
    requires Ordered(t) && i + 1 < |t.leaves| && ks == t.leaves[i].keys + t.leaves[i + 1].keys
    ensures Sorted(ks) && AllI64(ks)
    ensures i > 0 ==> AtLeast(ks, t.seps[i - 1]) && t.seps[i - 1] < t.seps[i]
    ensures i + 1 < |t.seps| ==> Below(ks, t.seps[i + 1])
    ensures AtLeast(t.leaves[i + 1].keys, t.seps[i])
  {
    var l, r := t.leaves[i].keys, t.leaves[i + 1].keys;
    assert Below(l, t.seps[i]) && AtLeast(r, t.seps[i]);
    assert i > 0 ==> t.seps[i - 1] < t.seps[i];
    assert i + 1 < |t.seps| ==> t.seps[i] < t.seps[i + 1];
    assert LeafShape(t.leaves[i]) && LeafShape(t.leaves[i + 1]);
  }

  /** `a` and `b` share out the entries of the leaves at `i` and `i + 1`, with the first key of `b` between them. */
  ghost predicate Reshared(l: Node, r: Node, a: Node, b: Node) {
    && a.isLeaf && b.isLeaf && a.children == [] && b.children == []
    && a.pid == l.pid && b.pid == r.pid && a.next == l.next && b.next == r.next
    && |a.keys| == |a.values| > 0 && |b.keys| == |b.values| > 0
    && a.keys + b.keys == l.keys + r.keys && a.values + b.values == l.values + r.values
  }

  lemma ResharedOk(t: Tree, i: nat, a: Node, b: Node)
    requires Ordered(t) && i + 1 < |t.leaves| && Reshared(t.leaves[i], t.leaves[i + 1], a, b)
    ensures i > 0 ==> t.seps[i - 1] < b.keys[0]
    ensures Ordered(Tree([b.keys[0]], [a, b])) && InBand(t, i, 2, Tree([b.keys[0]], [a, b]))
  {
    var l, r, ks, vs := t.leaves[i], t.leaves[i + 1], a.keys + b.keys, a.values + b.values;
    KeysInBand(t, i, ks);
    assert LeafShape(l) && LeafShape(r);
    hide Ordered;
    assert ks[..|a.keys|] == a.keys && ks[|a.keys|..] == b.keys;
    assert vs[..|a.values|] == a.values && vs[|a.values|..] == b.values;
    assert LeafShape(a) && LeafShape(b) && Below(a.keys, b.keys[0]) && AtLeast(b.keys, b.keys[0]) by {
      SplitKeys(ks, |a.keys|);
      assert AllBelow(vs, U64_LIMIT);
    }
    assert a.keys[0] == ks[0] && a.keys[0] < b.keys[0];
    assert i > 0 ==> t.seps[i - 1] <= ks[0];
    PairOrdered(a, b.keys[0], b);
    PairInBand(t, i, 2, a, b.keys[0], b, ks);
  }

  lemma SplitKeys(ks: seq<int>, n: nat)
    requires Sorted(ks) && AllI64(ks) && 0 < n < |ks|
    ensures Sorted(ks[..n]) && Sorted(ks[n..]) && AllI64(ks[..n]) && AllI64(ks[n..])
    ensures Below(ks[..n], ks[n]) && AtLeast(ks[n..], ks[n])
  {
  }

  lemma PairOrdered(a: Node, sep: int, b: Node)
    requires LeafShape(a) && LeafShape(b) && IsI64(sep) && Below(a.keys, sep) && AtLeast(b.keys, sep)
    ensures Ordered(Tree([sep], [a, b]))
  {
    hide LeafShape, Below, AtLeast;
  }

  lemma PairInBand(t: Tree, i: nat, n: nat, a: Node, sep: int, b: Node, ks: seq<int>)
    requires |t.leaves| == |t.seps| + 1 && 0 < n && i + n <= |t.leaves| && ks == a.keys + b.keys
    requires i > 0 ==> AtLeast(ks, t.seps[i - 1]) && t.seps[i - 1] < sep
    requires i + n - 1 < |t.seps| ==> Below(ks, t.seps[i + n - 1]) && sep < t.seps[i + n - 1]
    ensures InBand(t, i, n, Tree([sep], [a, b]))
  {
    if i > 0 { ConcatBounds(a.keys, b.keys, t.seps[i - 1]); }
    if i + n - 1 < |t.seps| { ConcatBounds(a.keys, b.keys, t.seps[i + n - 1]); }
    hide AtLeast, Below;
    assert [sep][0] == sep && [a, b][0] == a && [a, b][1] == b;
  }

  lemma ConcatBounds(a: seq<int>, b: seq<int>, x: int)
    ensures AtLeast(a + b, x) ==> AtLeast(a, x) && AtLeast(b, x)
    ensures Below(a + b, x) ==> Below(a, x) && Below(b, x)
  {
    assert forall j | 0 <= j < |a| :: a[j] == (a + b)[j];
    assert forall j | 0 <= j < |b| :: b[j] == (a + b)[|a| + j];
  }

  lemma SplicePair(t: Tree, i: nat, a: Node, sep: int, b: Node)
    requires |t.leaves| == |t.seps| + 1 && i + 1 < |t.leaves|
    ensures Splice(t, i, 2, Tree([sep], [a, b])) == Tree(t.seps[i := sep], t.leaves[i := a][i + 1 := b])
  {
  }

  /** Two neighbouring leaves exchange entries. */
  lemma PairReshared(t: Tree, i: nat, a: Node, b: Node, cut: bool)
    requires Shape(t, cut) && i + 1 < |t.leaves| && Reshared(t.leaves[i], t.leaves[i + 1], a, b)
    ensures
      var t' := Tree(t.seps[i := b.keys[0]], t.leaves[i := a][i + 1 := b]);
      && Shape(t', cut) && PidSet(t'.leaves) == PidSet(t.leaves) && Pids(t'.leaves) == Pids(t.leaves)
      && Keys(t'.leaves) == Keys(t.leaves) && Rowids(t'.leaves) == Rowids(t.leaves)
  {
    var l, r := t.leaves[i], t.leaves[i + 1];
    assert |t.leaves| == |t.seps| + 1 && b.keys != [];
    assert a.keys + b.keys == l.keys + r.keys && a.values + b.values == l.values + r.values;
    hide Ordered, Linked, DistinctPids, Reshared;
    ResharedOk(t, i, a, b);
    ResharedPlace(t, i, a, b, cut);
    hide *;
    SplicePair(t, i, a, b.keys[0], b);
    PairContents(a, b);
    PairContents(l, r);
    assert t.leaves[i..i + 2] == [l, r];
    SpliceShape(t, i, 2, Tree([b.keys[0]], [a, b]), cut);
  }

  lemma ResharedPlace(t: Tree, i: nat, a: Node, b: Node, cut: bool)
    requires Shape(t, cut) && i + 1 < |t.leaves| && Reshared(t.leaves[i], t.leaves[i + 1], a, b)
    ensures LinksIn(t, i, 2, Tree([b.keys[0]], [a, b]), cut) && PidsIn(t, i, 2, Tree([b.keys[0]], [a, b]))
    ensures
      var leaves' := t.leaves[i := a][i + 1 := b];
      PidSet(leaves') == PidSet(t.leaves) && Pids(leaves') == Pids(t.leaves)
  {
    hide Ordered;
    assert LinkOk(t.leaves[i].next, NextPid(t.leaves, i), cut);
    hide Linked;
    PidsOfPair(t, i, 2, Tree([b.keys[0]], [a, b]));
    SamePids(t.leaves, t.leaves[i := a][i + 1 := b]);
  }

  /** Two neighbouring leaves become the one leaf `a`. */
  ghost predicate Merged(l: Node, r: Node, a: Node) {
    a.isLeaf && a.children == [] && a.next == r.next && a.keys == l.keys + r.keys && a.values == l.values + r.values
  }

  lemma PairMerged(t: Tree, i: nat, a: Node, cut: bool)
    requires Shape(t, cut) && i + 1 < |t.leaves| && Merged(t.leaves[i], t.leaves[i + 1], a)
    requires a.pid == t.leaves[i].pid || (i == 0 && a.pid == t.leaves[1].pid)
    ensures
      var t' := Splice(t, i, 2, Tree([], [a]));
      && Shape(t', cut)
      && PidSet(t'.leaves) == PidSet(t.leaves) - {t.leaves[i].pid, t.leaves[i + 1].pid} + {a.pid}
      && Keys(t'.leaves) == Keys(t.leaves) && Rowids(t'.leaves) == Rowids(t.leaves)
  {
    var l, r := t.leaves[i], t.leaves[i + 1];
    MergedOk(t, i, a);
    MergedPlace(t, i, a, cut);
    assert a.keys == l.keys + r.keys && a.values == l.values + r.values;
    hide *;
    PairContents(l, r);
    OneContents(a);
    assert t.leaves[i..i + 2] == [l, r];
    SpliceShape(t, i, 2, Tree([], [a]), cut);
  }

  lemma MergedPlace(t: Tree, i: nat, a: Node, cut: bool)
    requires Shape(t, cut) && i + 1 < |t.leaves| && Merged(t.leaves[i], t.leaves[i + 1], a)
    requires a.pid == t.leaves[i].pid || (i == 0 && a.pid == t.leaves[1].pid)
    ensures LinksIn(t, i, 2, Tree([], [a]), cut) && PidsIn(t, i, 2, Tree([], [a]))
  {
    hide Ordered, Linked;
    var run := t.leaves[i..i + 2];
    assert run[0].pid in PidSet(run) && run[1].pid in PidSet(run);
  }

  lemma MergedOk(t: Tree, i: nat, a: Node)
    requires Ordered(t) && i + 1 < |t.leaves| && Merged(t.leaves[i], t.leaves[i + 1], a)
    ensures Ordered(Tree([], [a])) && InBand(t, i, 2, Tree([], [a]))
  {
    KeysInBand(t, i, a.keys);
    assert LeafShape(t.leaves[i]) && LeafShape(t.leaves[i + 1]);
  }
}
