/** What a query over a finite map answers: the rowids of the wanted keys, in ascending key order. */
module OrderedAnswers {
  import opened NodeEdits
  import opened SearchTree

  /** `ks` are exactly the wanted keys of `m`, in order, and `r` their rowids. */
  ghost predicate AnswerKeys(m: map<int, nat>, want: int -> bool, r: seq<nat>, ks: seq<int>) {
    && Sorted(ks) && |ks| == |r|
    && (forall k :: k in ks <==> k in m && want(k))
    && forall i :: 0 <= i < |ks| ==> ks[i] in m && r[i] == m[ks[i]]
  }

  ghost predicate Answers(m: map<int, nat>, want: int -> bool, r: seq<nat>) {
    exists ks :: AnswerKeys(m, want, r, ks)
  }

  function Between(lo: int, hi: int, inclusive: bool): int -> bool {
    (k: int) => lo <= k <= hi && (!inclusive ==> k != lo && k != hi)
  }

  function Everything(): int -> bool { (k: int) => true }

  /** The answer is determined: two sorted lists of the same keys are the same list. */
  lemma {:induction false} SortedUnique(a: seq<int>, b: seq<int>)
    requires Sorted(a) && Sorted(b) && forall k :: k in a <==> k in b
    ensures a == b
    decreases |a|
  {
    assert b != [] ==> b[0] in b;
    assert a != [] ==> a[0] in a;
    if a != [] && b != [] {
      FirstIsLeast(a, b[0]);
      FirstIsLeast(b, a[0]);
      forall k
        ensures k in a[1..] <==> k in b[1..]
      {
        RestMember(a, k);
        RestMember(b, k);
        assert k in a <==> k in b;
      }
      SortedUnique(a[1..], b[1..]);
      assert a == [a[0]] + a[1..] && b == [b[0]] + b[1..];
    }
  }

  lemma RestMember(s: seq<int>, k: int)
    requires Sorted(s) && s != []
    ensures k in s[1..] <==> k in s && k != s[0]
  {
    assert s == [s[0]] + s[1..];
  }

  lemma FirstIsLeast(s: seq<int>, k: int)
    requires Sorted(s) && s != []
    ensures k in s ==> s[0] <= k
  {
  }

  lemma AnswersUnique(m: map<int, nat>, want: int -> bool, r: seq<nat>, r': seq<nat>)
    requires Answers(m, want, r) && Answers(m, want, r')
    ensures r == r'
  {
    var ks :| AnswerKeys(m, want, r, ks);
    var ks' :| AnswerKeys(m, want, r', ks');
    SortedUnique(ks, ks');
  }

  // ---- picking the wanted entries out of a run of keys and rowids

  ghost function Pick(ks: seq<int>, vs: seq<nat>, want: int -> bool): seq<nat>
    requires |ks| == |vs|
  {
    if ks == [] then [] else (if want(ks[0]) then [vs[0]] else []) + Pick(ks[1..], vs[1..], want)
  }

  ghost function PickKeys(ks: seq<int>, want: int -> bool): seq<int> {
    if ks == [] then [] else (if want(ks[0]) then [ks[0]] else []) + PickKeys(ks[1..], want)
  }

  lemma {:induction false} PickConcat(ks: seq<int>, vs: seq<nat>, ks': seq<int>, vs': seq<nat>, want: int -> bool)
    requires |ks| == |vs| && |ks'| == |vs'|
    ensures Pick(ks + ks', vs + vs', want) == Pick(ks, vs, want) + Pick(ks', vs', want)
  {
    if ks == [] {
      assert ks + ks' == ks' && vs + vs' == vs';
    } else {
      assert (ks + ks')[1..] == ks[1..] + ks' && (vs + vs')[1..] == vs[1..] + vs';
      PickConcat(ks[1..], vs[1..], ks', vs', want);
      var first: seq<nat> := if want(ks[0]) then [vs[0]] else [];
      var rest, other := Pick(ks[1..], vs[1..], want), Pick(ks', vs', want);
      assert Pick(ks + ks', vs + vs', want) == first + Pick(ks[1..] + ks', vs[1..] + vs', want);
      hide Pick;
      assert first + (rest + other) == first + rest + other;
    }
  }

  lemma {:induction false} PickNone(ks: seq<int>, vs: seq<nat>, want: int -> bool)
    requires |ks| == |vs| && forall i :: 0 <= i < |ks| ==> !want(ks[i])
    ensures Pick(ks, vs, want) == []
  {
    if ks != [] {
      PickNone(ks[1..], vs[1..], want);
    }
  }

  lemma {:induction false} PickAll(ks: seq<int>, vs: seq<nat>)
    requires |ks| == |vs|
    ensures Pick(ks, vs, Everything()) == vs
  {
    if ks != [] {
      PickAll(ks[1..], vs[1..]);
      assert vs == [vs[0]] + vs[1..];
    }
  }

  lemma {:induction false} PickKeysSorted(ks: seq<int>, want: int -> bool)
    requires Sorted(ks)
    ensures Sorted(PickKeys(ks, want)) && (forall k :: k in PickKeys(ks, want) <==> k in ks && want(k))
  {
    if ks != [] {
      PickKeysSorted(ks[1..], want);
      assert ks == [ks[0]] + ks[1..];
      var rest, all := PickKeys(ks[1..], want), PickKeys(ks, want);
      forall i | 0 <= i < |rest|
        ensures ks[0] < rest[i]
      {
        assert rest[i] in rest;
      }
    }
  }

  lemma {:induction false} PickValues(ks: seq<int>, vs: seq<nat>, want: int -> bool, m: map<int, nat>)
    requires |ks| == |vs| && forall i :: 0 <= i < |ks| ==> ks[i] in m && m[ks[i]] == vs[i]
    ensures |Pick(ks, vs, want)| == |PickKeys(ks, want)|
    ensures forall i :: 0 <= i < |Pick(ks, vs, want)| ==>
              PickKeys(ks, want)[i] in m && Pick(ks, vs, want)[i] == m[PickKeys(ks, want)[i]]
  {
    if ks != [] {
      PickValues(ks[1..], vs[1..], want, m);
    }
  }

  /** Picking from the sorted entries of a map gives the answer of the query. */
  lemma PickAnswers(ks: seq<int>, vs: seq<nat>, m: map<int, nat>, want: int -> bool)
    requires Represents(ks, vs, m) && Sorted(ks)
    ensures Answers(m, want, Pick(ks, vs, want))
  {
    PickKeysSorted(ks, want);
    PickValues(ks, vs, want, m);
    hide Pick, PickKeys;
    assert AnswerKeys(m, want, Pick(ks, vs, want), PickKeys(ks, want)) by {
      assert forall i | 0 <= i < |ks| :: ks[i] in m;
    }
  }
}
