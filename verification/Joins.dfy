/** The nested-loop join and the hash join over row dictionaries. */
module Joins {
  import opened Bytes
  import opened RowCodec
  import opened Predicates
  import opened Tokens
  import opened Evaluation

  predicate Plain(name: string) { forall i :: 0 <= i < |name| ==> name[i] != '.' }

  /** The rows that a scan of a table gives: the columns of its schema, whose names have no dot, and the rowid. */
  predicate IsScan(rows: seq<Row>, names: set<string>) {
    && (forall k :: k in names ==> Plain(k))
    && (forall j :: 0 <= j < |rows| ==> rows[j].Keys == names + {"rowid"})
  }

  /** `table` is the right table, `names` are its columns. */
  datatype Join = Join(table: string, names: set<string>, on: Option<Expr>)

  /** The dot behind the table name is the first one. */
  lemma FirstDot(t: string, n: string)
    requires Plain(t)
    ensures Qualified(t, n)[|t|] == '.' && Qualified(t, n)[..|t|] == t && Qualified(t, n)[|t| + 1..] == n
    ensures forall i :: 0 <= i < |t| ==> Qualified(t, n)[i] != '.'
  {
  }

  lemma QualifiedInjective(t1: string, n1: string, t2: string, n2: string)
    requires Plain(t1) && Plain(t2) && Qualified(t1, n1) == Qualified(t2, n2)
    ensures t1 == t2 && n1 == n2
  {
    FirstDot(t1, n1);
    FirstDot(t2, n2);
    assert |t1| == |t2|;
  }

  lemma QualifiedNotPlain(t: string, n: string)
    ensures !Plain(Qualified(t, n))
  {
    assert Qualified(t, n)[|t|] == '.';
  }

  // ---- Merging two rows

  /** `key` is the right row's column under the right table's name, because the left row has the column too. */
  predicate IsConflict(l: Row, r: Row, table: string, key: string) {
    |key| > |table| && key == Qualified(table, key[|table| + 1..]) && key[|table| + 1..] in l && key[|table| + 1..] in r
  }

  /**
    * The left row as it is; the right row's values under their names, or under `table.name` where the left row has the
    * name.
    */
  function Merged(l: Row, r: Row, table: string): (row: Row)
    ensures forall k :: k in l ==> k in row
    ensures forall k :: k in l && !IsConflict(l, r, table, k) ==> row[k] == l[k]
  {
    map key | key in l.Keys + r.Keys + (set k | k in r && k in l :: Qualified(table, k)) ::
      if IsConflict(l, r, table, key) then r[key[|table| + 1..]] else if key in l then l[key] else r[key]
  }

  predicate PlainKeys(r: Row) { forall k :: k in r ==> Plain(k) }

  lemma ConflictKey(l: Row, r: Row, table: string, k: string)
    requires k in l && k in r
    ensures IsConflict(l, r, table, Qualified(table, k))
    ensures Qualified(table, k) in Merged(l, r, table) && Merged(l, r, table)[Qualified(table, k)] == r[k]
  {
    assert Qualified(table, k)[|table| + 1..] == k;
  }

  lemma NoConflict(l: Row, r: Row, table: string, key: string)
    requires Plain(key) || forall n :: key != Qualified(table, n)
    ensures !IsConflict(l, r, table, key)
  {
    if IsConflict(l, r, table, key) {
      QualifiedNotPlain(table, key[|table| + 1..]);
    }
  }

  /** Every value of the right row can be found in the merged row. */
  lemma RightValue(l: Row, r: Row, table: string, k: string)
    requires k in r && Plain(k)
    ensures
      var key := if k in l then Qualified(table, k) else k;
      key in Merged(l, r, table) && Merged(l, r, table)[key] == r[k]
  {
    if k in l {
      ConflictKey(l, r, table, k);
    } else {
      NoConflict(l, r, table, k);
    }
  }

  function Restricted(r: Row, keys: set<string>): Row { map k | k in r && k in keys :: r[k] }

  /** One more key of the right row. */
  lemma MergeStep(l: Row, r: Row, table: string, done: set<string>, k: string)
    requires PlainKeys(r) && done <= r.Keys && k in r && k !in done
    ensures
      var before, behind := Merged(l, Restricted(r, done), table), Merged(l, Restricted(r, done + {k}), table);
      && (k in before <==> k in l)
      && behind == before[if k in l then Qualified(table, k) else k := r[k]]
  {
    hide Merged, IsConflict, PlainKeys;
    var r0, r1 := Restricted(r, done), Restricted(r, done + {k});
    var before, behind := Merged(l, r0, table), Merged(l, r1, table);
    assert Plain(k) by {
      PlainKey(r, k);
    }
    KeptKey(l, r0, table, k);
    RightValue(l, r1, table, k);
    var key := if k in l then Qualified(table, k) else k;
    forall x
      ensures x in behind <==> x in before || x == key
      ensures x != key && x in before ==> behind[x] == before[x]
    {
      OtherKey(l, r, table, done, k, x);
    }
    assert behind.Keys == before.Keys + {key};
  }

  lemma PlainKey(r: Row, k: string)
    requires PlainKeys(r) && k in r
    ensures Plain(k)
  {
  }

  lemma KeptKey(l: Row, r: Row, table: string, k: string)
    requires Plain(k) && k !in r
    ensures k in Merged(l, r, table) <==> k in l
  {
    forall n ensures k != Qualified(table, n) {
      QualifiedNotPlain(table, n);
    }
  }

  lemma OtherKey(l: Row, r: Row, table: string, done: set<string>, k: string, x: string)
    requires PlainKeys(r) && done <= r.Keys && k in r && k !in done
    ensures
      var before, behind := Merged(l, Restricted(r, done), table), Merged(l, Restricted(r, done + {k}), table);
      var key := if k in l then Qualified(table, k) else k;
      && (x in behind <==> x in before || x == key)
      && (x != key && x in before ==> behind[x] == before[x])
  {
    var r0, r1 := Restricted(r, done), Restricted(r, done + {k});
    if |x| > |table| && x == Qualified(table, x[|table| + 1..]) {
      QualifiedNotPlain(table, x[|table| + 1..]);
    }
    forall n ensures Qualified(table, n)[|table| + 1..] == n {
    }
  }

  lemma MergeNothing(l: Row, r: Row, table: string)
    ensures Merged(l, Restricted(r, {}), table) == l && Restricted(r, r.Keys) == r
  {
    var m := Merged(l, Restricted(r, {}), table);
    assert m.Keys == l.Keys;
  }

  method MergeRows(l: Row, r: Row, table: string) returns (merged: Row)
    requires PlainKeys(r)
    ensures merged == Merged(l, r, table)
  {
    hide Merged, Restricted, Plain;
    merged := l;
    var todo := r.Keys;
    MergeNothing(l, r, table);
    assert r.Keys - todo == {};
    while todo != {}
      invariant todo <= r.Keys && merged == Merged(l, Restricted(r, r.Keys - todo), table)
    {
      var k :| k in todo;
      MergeStep(l, r, table, r.Keys - todo, k);
      assert r.Keys - todo + {k} == r.Keys - (todo - {k});
      if k in merged {
        merged := merged[Qualified(table, k) := r[k]];
      } else {
        merged := merged[k := r[k]];
      }
      todo := todo - {k};
    }
    assert r.Keys - todo == r.Keys;
  }

  // ---- What the joins return

  function MatchOn(on: Option<Expr>, row: Row, m: Meaning): Evaluated<bool> {
    match on case None => Known(true) case Some(e) => EvalPredicate(e, row, m)
  }

  function Behind<T>(first: seq<T>, rest: Evaluated<seq<T>>): Evaluated<seq<T>> {
    match rest case Known(rows) => Known(first + rows) case TypeError => TypeError
  }

  lemma BehindKnown<T>(first: seq<T>, rest: Evaluated<seq<T>>)
    ensures rest.Known? ==> Behind(first, rest) == Known(first + rest.value)
    ensures rest.TypeError? ==> Behind(first, rest) == TypeError
  {
  }

  lemma BehindNothing<T>(rest: Evaluated<seq<T>>)
    ensures Behind([], rest) == rest
  {
    if rest.Known? {
      assert [] + rest.value == rest.value;
    }
  }

  lemma BehindBehind<T>(a: seq<T>, b: seq<T>, rest: Evaluated<seq<T>>)
    ensures Behind(a, Behind(b, rest)) == Behind(a + b, rest)
  {
    if rest.Known? {
      assert a + (b + rest.value) == a + b + rest.value;
    }
  }

  /** The merged rows of one left row with the right rows that match it. */
  function Matches(l: Row, rs: seq<Row>, j: Join, m: Meaning): Evaluated<seq<Row>> {
    if rs == [] then Known([])
    else
      match MatchOn(j.on, Merged(l, rs[0], j.table), m)
      case TypeError => TypeError
      case Known(on) => Behind(if on then [Merged(l, rs[0], j.table)] else [], Matches(l, rs[1..], j, m))
  }

  /**
    * A left row without a match: the right table's columns are NULL under their qualified names, and so is the rowid.
    */
  function NullExtended(l: Row, j: Join): Row {
    var names := set n | n in j.names :: Qualified(j.table, n);
    l + (map key | key in names :: Null) + map["rowid" := Null]
  }

  function NestedLoop(ls: seq<Row>, rs: seq<Row>, j: Join, left: bool, m: Meaning): Evaluated<seq<Row>> {
    if ls == [] then Known([])
    else
      match Matches(ls[0], rs, j, m)
      case TypeError => TypeError
      case Known(rows) =>
        Behind(if left && rows == [] then [NullExtended(ls[0], j)] else rows, NestedLoop(ls[1..], rs, j, left, m))
  }

  /** What the hash join takes as the value of one side of ON: only columns and literals have one. */
  function JoinKey(e: Expr, row: Row, m: Meaning): Value {
    match e
    case Lit(v) => m.literal(v)
    case Column(name) => Get(row, name)
    case QualifiedColumn(table, name) => GetQualified(row, table, name)
    case _ => Null
  }

  function LeftKey(on: Option<Expr>, l: Row, m: Meaning): Value {
    match on case Some(Binary(Eq, a, _)) => JoinKey(a, l, m) case _ => Null
  }

  function RightKey(on: Option<Expr>, r: Row, m: Meaning): Value {
    match on case Some(Binary(Eq, _, b)) => JoinKey(b, r, m) case _ => Null
  }

  /** The right rows that the hash table has under a key, in table order. */
  function Bucket(rs: seq<Row>, key: Key, j: Join, m: Meaning): seq<Row> {
    if rs == [] then [] else Entry(rs[0], key, j, m) + Bucket(rs[1..], key, j, m)
  }

  function Entry(r: Row, key: Key, j: Join, m: Meaning): seq<Row> {
    var v := RightKey(j.on, r, m);
    if v != Null && KeyOf(v, m) == key then [r] else []
  }

  function HashMatches(l: Row, rs: seq<Row>, j: Join, m: Meaning): Evaluated<seq<Row>> {
    var v := LeftKey(j.on, l, m);
    if v == Null then Known([]) else Matches(l, Bucket(rs, KeyOf(v, m), j, m), j, m)
  }

  function HashJoin(ls: seq<Row>, rs: seq<Row>, j: Join, m: Meaning): Evaluated<seq<Row>> {
    if ls == [] then Known([])
    else
      match HashMatches(ls[0], rs, j, m)
      case TypeError => TypeError
      case Known(rows) => Behind(rows, HashJoin(ls[1..], rs, j, m))
  }

  // ---- Which rows the nested loop joins

  /** ON joins the left row with the right row at `k`. */
  predicate JoinsAt(l: Row, rs: seq<Row>, k: nat, j: Join, m: Meaning)
    requires k < |rs|
  {
    MatchOn(j.on, Merged(l, rs[k], j.table), m) == Known(true)
  }

  ghost predicate InOrder(ks: seq<nat>) { forall a, b :: 0 <= a < b < |ks| ==> ks[a] < ks[b] }

  /** Places of right rows, in order: those that ON joins with the left row, and no others. */
  ghost predicate Picks(ks: seq<nat>, l: Row, rs: seq<Row>, j: Join, m: Meaning) {
    InOrder(ks) && forall k: nat :: k in ks <==> k < |rs| && JoinsAt(l, rs, k, j, m)
  }

  function Shifted(ks: seq<nat>): (r: seq<nat>)
    ensures |r| == |ks| && forall n :: 0 <= n < |r| ==> r[n] == ks[n] + 1
  {
    seq(|ks|, n requires 0 <= n < |ks| => ks[n] + 1)
  }

  lemma ShiftedMembers(ks: seq<nat>)
    ensures forall k: nat :: k in Shifted(ks) <==> k > 0 && k - 1 in ks
    ensures InOrder(ks) ==> InOrder(Shifted(ks)) && InOrder([0] + Shifted(ks))
  {
    forall k: nat | k > 0 && k - 1 in ks ensures k in Shifted(ks) {
      var n :| 0 <= n < |ks| && ks[n] == k - 1;
      assert Shifted(ks)[n] == k;
    }
  }

  lemma PicksNext(rest: seq<nat>, l: Row, rs: seq<Row>, j: Join, m: Meaning)
    requires rs != [] && Picks(rest, l, rs[1..], j, m)
    ensures Picks((if JoinsAt(l, rs, 0, j, m) then [0] else []) + Shifted(rest), l, rs, j, m)
  {
    hide MatchOn, Merged, Shifted, InOrder;
    ShiftedMembers(rest);
    assert [] + Shifted(rest) == Shifted(rest);
    forall k: nat | 0 < k < |rs| ensures JoinsAt(l, rs, k, j, m) == JoinsAt(l, rs[1..], k - 1, j, m) {
    }
  }

  /** The rows of one left row: it merged with each of the right rows that ON joins it with, in table order. */
  lemma {:induction false} MatchesPick(l: Row, rs: seq<Row>, j: Join, m: Meaning) returns (ks: seq<nat>)
    requires Matches(l, rs, j, m).Known?
    ensures Picks(ks, l, rs, j, m) && |Matches(l, rs, j, m).value| == |ks|
    ensures forall n :: 0 <= n < |ks| ==>
              ks[n] < |rs| && Matches(l, rs, j, m).value[n] == Merged(l, rs[ks[n]], j.table)
    decreases |rs|
  {
    hide MatchOn, Merged, InOrder;
    if rs == [] {
      ks := [];
      assert InOrder(ks) by {
        NoPicks();
      }
    } else {
      var rest := MatchesPick(l, rs[1..], j, m);
      PicksNext(rest, l, rs, j, m);
      hide Picks;
      ks := (if JoinsAt(l, rs, 0, j, m) then [0] else []) + Shifted(rest);
      assert forall n :: 0 <= n < |rest| ==> rs[Shifted(rest)[n]] == rs[1..][rest[n]];
    }
  }

  lemma NoPicks()
    ensures InOrder([])
  {
  }

  /** A left row raises exactly when ON does for it and some right row. */
  lemma {:induction false} MatchesRaise(l: Row, rs: seq<Row>, j: Join, m: Meaning)
    ensures Matches(l, rs, j, m).TypeError?
       <==> exists k :: 0 <= k < |rs| && MatchOn(j.on, Merged(l, rs[k], j.table), m).TypeError?
  {
    hide MatchOn, Merged;
    if rs != [] {
      MatchesRaise(l, rs[1..], j, m);
      assert forall k {:trigger rs[k]} :: 1 <= k < |rs| ==> rs[k] == rs[1..][k - 1];
      assert forall k {:trigger rs[1..][k]} :: 0 <= k < |rs| - 1 ==> rs[1..][k] == rs[k + 1];
    }
  }

  /** Without ON every pair is joined. */
  lemma NoOnJoinsAll(row: Row, m: Meaning)
    ensures MatchOn(None, row, m) == Known(true)
  {
  }

  // ---- The LEFT join is the INNER join with the unmatched rows spliced in

  /** The matches of every left row, row by row. */
  function Blocks(ls: seq<Row>, rs: seq<Row>, j: Join, m: Meaning): Evaluated<seq<seq<Row>>> {
    if ls == [] then Known([])
    else
      match Matches(ls[0], rs, j, m)
      case TypeError => TypeError
      case Known(rows) => Behind([rows], Blocks(ls[1..], rs, j, m))
  }

  function Flatten<T>(blocks: seq<seq<T>>): seq<T> {
    if blocks == [] then [] else blocks[0] + Flatten(blocks[1..])
  }

  function Filled(ls: seq<Row>, blocks: seq<seq<Row>>, j: Join): (r: seq<seq<Row>>)
    requires |ls| == |blocks|
    ensures |r| == |blocks|
    ensures forall i :: 0 <= i < |r| ==> r[i] == if blocks[i] == [] then [NullExtended(ls[i], j)] else blocks[i]
  {
    if ls == [] then []
    else [if blocks[0] == [] then [NullExtended(ls[0], j)] else blocks[0]] + Filled(ls[1..], blocks[1..], j)
  }

  function Unmatched<T>(blocks: seq<seq<T>>): nat {
    if blocks == [] then 0 else (if blocks[0] == [] then 1 else 0) + Unmatched(blocks[1..])
  }

  /** Both joins raise together; otherwise the LEFT join has the INNER join's blocks, one row in each empty one. */
  lemma {:induction false} LeftIsInnerFilled(ls: seq<Row>, rs: seq<Row>, j: Join, m: Meaning)
    ensures
      var inner, outer := NestedLoop(ls, rs, j, false, m), NestedLoop(ls, rs, j, true, m);
      match Blocks(ls, rs, j, m)
      case TypeError => inner == TypeError && outer == TypeError
      case Known(blocks) =>
        && |blocks| == |ls| && inner == Known(Flatten(blocks)) && outer == Known(Flatten(Filled(ls, blocks, j)))
        && |outer.value| == |inner.value| + Unmatched(blocks)
  {
    hide Matches, NullExtended;
    if ls != [] {
      LeftIsInnerFilled(ls[1..], rs, j, m);
    }
  }

  /**
    * The nested loop returns one block for each left row, in their order: the row merged with each of the right rows
    * that ON joins it with, in table order, once, and with no others.
    */
  lemma NestedLoopPicks(ls: seq<Row>, rs: seq<Row>, j: Join, m: Meaning) returns (blocks: seq<seq<Row>>)
    requires NestedLoop(ls, rs, j, false, m).Known?
    ensures |blocks| == |ls| && NestedLoop(ls, rs, j, false, m) == Known(Flatten(blocks))
    ensures forall i :: 0 <= i < |ls| ==> IsBlock(blocks[i], ls[i], rs, j, m)
  {
    hide Matches, NestedLoop, IsBlock;
    LeftIsInnerFilled(ls, rs, j, m);
    blocks := Blocks(ls, rs, j, m).value;
    forall i | 0 <= i < |ls| ensures IsBlock(blocks[i], ls[i], rs, j, m) {
      BlockOf(ls, rs, j, m, i);
      MatchesBlock(ls[i], rs, j, m);
    }
  }

  /** The left row merged with the right rows at some places, which are exactly those that ON joins it with. */
  ghost predicate IsBlock(block: seq<Row>, l: Row, rs: seq<Row>, j: Join, m: Meaning) {
    exists ks: seq<nat> ::
      && Picks(ks, l, rs, j, m) && |block| == |ks|
      && forall n :: 0 <= n < |ks| ==> ks[n] < |rs| && block[n] == Merged(l, rs[ks[n]], j.table)
  }

  lemma MatchesBlock(l: Row, rs: seq<Row>, j: Join, m: Meaning)
    requires Matches(l, rs, j, m).Known?
    ensures IsBlock(Matches(l, rs, j, m).value, l, rs, j, m)
  {
    hide Matches, Merged, Picks;
    var ks := MatchesPick(l, rs, j, m);
  }

  /** It raises exactly when ON does for some pair. */
  lemma {:induction false} NestedLoopRaises(ls: seq<Row>, rs: seq<Row>, j: Join, left: bool, m: Meaning)
    ensures NestedLoop(ls, rs, j, left, m).TypeError?
       <==> exists i, k ::
              0 <= i < |ls| && 0 <= k < |rs| && MatchOn(j.on, Merged(ls[i], rs[k], j.table), m).TypeError?
  {
    hide MatchOn, Merged, Matches, NullExtended;
    if ls != [] {
      MatchesRaise(ls[0], rs, j, m);
      NestedLoopRaises(ls[1..], rs, j, left, m);
      assert forall i {:trigger ls[i]} :: 1 <= i < |ls| ==> ls[i] == ls[1..][i - 1];
      assert forall i {:trigger ls[1..][i]} :: 0 <= i < |ls| - 1 ==> ls[1..][i] == ls[i + 1];
    }
  }

  /** A key that the join does not claim for the right table. */
  ghost predicate LeftOwns(table: string, key: string) { key != "rowid" && forall n :: key != Qualified(table, n) }

  ghost predicate KeepsLeft(row: Row, l: Row, table: string) {
    forall k :: k in l && LeftOwns(table, k) ==> k in row && row[k] == l[k]
  }

  lemma {:induction false} MatchesKeepLeft(l: Row, rs: seq<Row>, j: Join, m: Meaning)
    ensures Matches(l, rs, j, m).Known? ==>
              forall i :: 0 <= i < |Matches(l, rs, j, m).value| ==> KeepsLeft(Matches(l, rs, j, m).value[i], l, j.table)
  {
    hide MatchOn;
    if rs != [] {
      MatchesKeepLeft(l, rs[1..], j, m);
      MergedKeepsLeft(l, rs[0], j.table);
    }
  }

  lemma MergedKeepsLeft(l: Row, r: Row, table: string)
    ensures KeepsLeft(Merged(l, r, table), l, table)
  {
  }

  lemma NullExtendedKeepsLeft(l: Row, j: Join)
    ensures KeepsLeft(NullExtended(l, j), l, j.table)
    ensures forall n :: n in j.names ==>
              Qualified(j.table, n) in NullExtended(l, j) && NullExtended(l, j)[Qualified(j.table, n)] == Null
    ensures NullExtended(l, j)["rowid"] == Null
  {
  }

  /** Every row of the LEFT join, block by block in the order of the left rows, has that left row's columns. */
  lemma {:induction false} LeftColumnsSurvive(ls: seq<Row>, rs: seq<Row>, j: Join, m: Meaning, i: nat)
    requires Blocks(ls, rs, j, m).Known? && i < |ls|
    ensures |Blocks(ls, rs, j, m).value| == |ls|
    ensures
      var block := Filled(ls, Blocks(ls, rs, j, m).value, j)[i];
      block != [] && forall k :: 0 <= k < |block| ==> KeepsLeft(block[k], ls[i], j.table)
  {
    hide Matches, NullExtended, KeepsLeft;
    LeftIsInnerFilled(ls, rs, j, m);
    BlockOf(ls, rs, j, m, i);
    MatchesKeepLeft(ls[i], rs, j, m);
    NullExtendedKeepsLeft(ls[i], j);
  }

  lemma {:induction false} BlockOf(ls: seq<Row>, rs: seq<Row>, j: Join, m: Meaning, i: nat)
    requires Blocks(ls, rs, j, m).Known? && i < |ls|
    ensures |Blocks(ls, rs, j, m).value| == |ls| && Matches(ls[i], rs, j, m) == Known(Blocks(ls, rs, j, m).value[i])
  {
    hide Matches;
    if i > 0 {
      BlockOf(ls[1..], rs, j, m, i - 1);
    } else {
      LeftIsInnerFilled(ls, rs, j, m);
    }
  }

  // ---- The hash join is the nested-loop join

  /** The two rows come together in the hash table. */
  predicate SameKey(l: Row, r: Row, on: Option<Expr>, m: Meaning) {
    var a, b := LeftKey(on, l, m), RightKey(on, r, m);
    a != Null && b != Null && KeyOf(a, m) == KeyOf(b, m)
  }

  predicate IsOperand(e: Expr) { e.Lit? || e.Column? || e.QualifiedColumn? }

  /** ON is a single equation of columns and literals. */
  predicate IsEquation(on: Option<Expr>) {
    on.Some? && on.value.Binary? && on.value.op == Eq && IsOperand(on.value.left) && IsOperand(on.value.right)
  }

  predicate Joined(l: Row, r: Row, j: Join, m: Meaning) { MatchOn(j.on, Merged(l, r, j.table), m) == Known(true) }

  /** An equation never raises, and holds when its sides are there and equal. */
  lemma EquationMeans(on: Option<Expr>, row: Row, m: Meaning)
    requires IsEquation(on)
    ensures
      var a, b := JoinKey(on.value.left, row, m), JoinKey(on.value.right, row, m);
      MatchOn(on, row, m) == Known(a != Null && b != Null && KeyOf(a, m) == KeyOf(b, m))
  {
    var a, b := JoinKey(on.value.left, row, m), JoinKey(on.value.right, row, m);
    assert EvalExpr(on.value.left, row, m) == Known(a) && EvalExpr(on.value.right, row, m) == Known(b);
    assert EvalExpr(on.value, row, m) == Known(BoolValue(a != Null && b != Null && KeyOf(a, m) == KeyOf(b, m)));
  }

  /**
    * One left row: what the hash join finds is what the nested loop finds, exactly when no match is in another bucket.
    */
  lemma {:induction false} BucketMatches(l: Row, rs: seq<Row>, j: Join, m: Meaning)
    requires IsEquation(j.on) && LeftKey(j.on, l, m) != Null
    ensures
      var found, all := Matches(l, Bucket(rs, KeyOf(LeftKey(j.on, l, m), m), j, m), j, m), Matches(l, rs, j, m);
      && found.Known? && all.Known? && |found.value| <= |all.value|
      && (|found.value| == |all.value| ==> found == all)
      && (found == all <==> forall k :: 0 <= k < |rs| && Joined(l, rs[k], j, m) ==> SameKey(l, rs[k], j.on, m))
  {
    hide MatchOn, Merged, KeyOf, LeftKey, RightKey, IsEquation, Bucket, Behind, SameKey;
    var key := KeyOf(LeftKey(j.on, l, m), m);
    BucketFirst(l, rs, j, m);
    if rs != [] {
      BucketMatches(l, rs[1..], j, m);
      var on, same := Joined(l, rs[0], j, m), SameKey(l, rs[0], j.on, m);
      var row := [Merged(l, rs[0], j.table)];
      var rest := Matches(l, Bucket(rs[1..], key, j, m), j, m);
      EquationMeans(j.on, Merged(l, rs[0], j.table), m);
      assert ([rs[0]] + Bucket(rs[1..], key, j, m))[1..] == Bucket(rs[1..], key, j, m);
      assert [] + Bucket(rs[1..], key, j, m) == Bucket(rs[1..], key, j, m);
      BehindNothing(rest);
      assert Matches(l, Bucket(rs, key, j, m), j, m) == Behind(if on && same then row else [], rest);
      assert Matches(l, rs, j, m) == Behind(if on then row else [], Matches(l, rs[1..], j, m));
      BehindKnown(if on && same then row else [], rest);
      BehindKnown(if on then row else [], Matches(l, rs[1..], j, m));
      BothParts(if on && same then row else [], if on then row else [], rest.value, Matches(l, rs[1..], j, m).value);
      assert forall k {:trigger rs[k]} :: 1 <= k < |rs| ==> rs[k] == rs[1..][k - 1];
      assert forall k {:trigger rs[1..][k]} :: 0 <= k < |rs| - 1 ==> rs[1..][k] == rs[k + 1];
    }
  }

  lemma BucketFirst(l: Row, rs: seq<Row>, j: Join, m: Meaning)
    requires LeftKey(j.on, l, m) != Null
    ensures
      var key := KeyOf(LeftKey(j.on, l, m), m);
      Bucket(rs, key, j, m)
      == if rs == [] then []
         else (if SameKey(l, rs[0], j.on, m) then [rs[0]] else []) + Bucket(rs[1..], key, j, m)
  {
    hide KeyOf, LeftKey, RightKey;
  }

  lemma {:induction false} NoKeyMatches(l: Row, rs: seq<Row>, j: Join, m: Meaning)
    requires IsEquation(j.on)
    ensures
      var all := Matches(l, rs, j, m);
      all.Known? && (all.value == [] <==> forall k :: 0 <= k < |rs| ==> !Joined(l, rs[k], j, m))
  {
    hide MatchOn, Merged;
    if rs != [] {
      NoKeyMatches(l, rs[1..], j, m);
      EquationMeans(j.on, Merged(l, rs[0], j.table), m);
      assert forall k {:trigger rs[k]} :: 1 <= k < |rs| ==> rs[k] == rs[1..][k - 1];
      assert forall k {:trigger rs[1..][k]} :: 0 <= k < |rs| - 1 ==> rs[1..][k] == rs[k + 1];
    }
  }

  ghost predicate FindsAll(l: Row, rs: seq<Row>, j: Join, m: Meaning) {
    forall k :: 0 <= k < |rs| && Joined(l, rs[k], j, m) ==> SameKey(l, rs[k], j.on, m)
  }

  lemma HashBlock(l: Row, rs: seq<Row>, j: Join, m: Meaning)
    requires IsEquation(j.on)
    ensures
      var found, all := HashMatches(l, rs, j, m), Matches(l, rs, j, m);
      && found.Known? && all.Known? && |found.value| <= |all.value|
      && (|found.value| == |all.value| ==> found == all) && (found == all <==> FindsAll(l, rs, j, m))
  {
    hide Joined, KeyOf, Bucket, Matches, IsEquation;
    NoKeyMatches(l, rs, j, m);
    if LeftKey(j.on, l, m) != Null {
      BucketMatches(l, rs, j, m);
    }
  }

  /**
    * For any equation the hash join returns no more rows than the nested loop, and the same list exactly when
    * rows that ON joins always have the same key on their own.
    */
  lemma {:induction false} HashJoinExact(ls: seq<Row>, rs: seq<Row>, j: Join, m: Meaning)
    requires IsEquation(j.on)
    ensures
      var found, all := HashJoin(ls, rs, j, m), NestedLoop(ls, rs, j, false, m);
      && found.Known? && all.Known? && |found.value| <= |all.value|
      && (|found.value| == |all.value| ==> found == all)
      && (found == all <==> forall i :: 0 <= i < |ls| ==> FindsAll(ls[i], rs, j, m))
  {
    hide HashMatches, Matches, FindsAll, IsEquation;
    if ls != [] {
      HashJoinExact(ls[1..], rs, j, m);
      HashBlock(ls[0], rs, j, m);
      assert forall i {:trigger ls[i]} :: 1 <= i < |ls| ==> ls[i] == ls[1..][i - 1];
      assert forall i {:trigger ls[1..][i]} :: 0 <= i < |ls| - 1 ==> ls[1..][i] == ls[i + 1];
      BothParts(HashMatches(ls[0], rs, j, m).value, Matches(ls[0], rs, j, m).value,
                HashJoin(ls[1..], rs, j, m).value, NestedLoop(ls[1..], rs, j, false, m).value);
    }
  }

  /** Two shorter halves make an equal whole only if both are equal. */
  lemma BothParts<T>(a: seq<T>, a': seq<T>, b: seq<T>, b': seq<T>)
    requires |a| <= |a'| && |b| <= |b'| && (|a| == |a'| ==> a == a') && (|b| == |b'| ==> b == b')
    ensures a + b == a' + b' <==> a == a' && b == b'
    ensures |a + b| == |a' + b'| ==> a == a' && b == b'
  {
    if a + b == a' + b' {
      assert |a + b| == |a' + b'|;
    }
  }

  /** The left side of ON is a column of the left row, or a literal, and not of the joined table. */
  predicate ResolvesLeft(e: Expr, l: Row, table: string) {
    match e
    case Lit(_) => true
    case Column(name) => Plain(name) && name in l
    case QualifiedColumn(t, name) => Plain(t) && Plain(name) && t != table && (Qualified(t, name) in l || name in l)
    case _ => false
  }

  /** The right side of ON is a column of the joined table, or a literal, and no unqualified column of the left row. */
  predicate ResolvesRight(e: Expr, l: Row, r: Row, table: string) {
    match e
    case Lit(_) => true
    case Column(name) => Plain(name) && name in r && name !in l
    case QualifiedColumn(t, name) => Plain(name) && t == table && name in r && (name in l || Qualified(t, name) !in l)
    case _ => false
  }

  /** Merging leaves the left side's value as it was in the left row. */
  lemma LeftSurvivesMerge(e: Expr, l: Row, r: Row, table: string, m: Meaning)
    requires ResolvesLeft(e, l, table) && PlainKeys(r) && Plain(table)
    ensures JoinKey(e, Merged(l, r, table), m) == JoinKey(e, l, m)
  {
    match e
    case Lit(_) =>
    case Column(name) =>
      NoConflict(l, r, table, name);
    case QualifiedColumn(t, name) =>
      NoConflict(l, r, table, name);
      var key := Qualified(t, name);
      forall n ensures key != Qualified(table, n) {
        if key == Qualified(table, n) {
          QualifiedInjective(t, name, table, n);
        }
      }
      NoConflict(l, r, table, key);
      QualifiedNotPlain(t, name);
      assert key in Merged(l, r, table) <==> key in l;
  }

  /** Merging leaves the right side's value as it was in the right row. */
  lemma RightSurvivesMerge(e: Expr, l: Row, r: Row, table: string, m: Meaning)
    requires ResolvesRight(e, l, r, table) && PlainKeys(r)
    ensures JoinKey(e, Merged(l, r, table), m) == JoinKey(e, r, m)
  {
    match e
    case Lit(_) =>
    case Column(name) =>
      RightValue(l, r, table, name);
    case QualifiedColumn(t, name) =>
      RightValue(l, r, table, name);
      var key := Qualified(table, name);
      QualifiedNotPlain(table, name);
      if name !in l {
        assert key[|table| + 1..] == name;
        forall n | Qualified(table, n) == key ensures n == name {
          assert Qualified(table, n)[|table| + 1..] == n;
        }
        assert key !in Merged(l, r, table);
      }
  }

  /**
    * ON compares a column of the left row with one of the joined table, both of them integers: the pair is joined
    * exactly when the integers compare so.
    */
  lemma ComparisonJoins(l: Row, r: Row, op: CompareOp, a: Expr, b: Expr, x: int, y: int, table: string, m: Meaning)
    requires ResolvesLeft(a, l, table) && ResolvesRight(b, l, r, table) && PlainKeys(r) && Plain(table)
    requires JoinKey(a, l, m) == IntValue(x) && JoinKey(b, r, m) == IntValue(y)
    ensures MatchOn(Some(Binary(op, a, b)), Merged(l, r, table), m)
         == Known(match op
                  case Eq => x == y
                  case Ne => x != y
                  case Lt => x < y
                  case Le => x <= y
                  case Gt => x > y
                  case Ge => x >= y)
  {
    hide Compare, EvalPredicate, Merged, PlainKeys, Plain;
    LeftSurvivesMerge(a, l, r, table, m);
    RightSurvivesMerge(b, l, r, table, m);
    ComparisonMeans(op, a, b, Merged(l, r, table), m);
    IntegersCompare(op, x, y, m);
  }

  /** With ON written left side first, the hash join returns the nested loop's rows in the nested loop's order. */
  lemma HashJoinIsNestedLoop(ls: seq<Row>, rs: seq<Row>, j: Join, m: Meaning)
    requires IsEquation(j.on) && Plain(j.table) && IsScan(rs, j.names)
    requires forall i :: 0 <= i < |ls| ==> ResolvesLeft(j.on.value.left, ls[i], j.table)
    requires forall i, k :: 0 <= i < |ls| && 0 <= k < |rs| ==> ResolvesRight(j.on.value.right, ls[i], rs[k], j.table)
    ensures HashJoin(ls, rs, j, m) == NestedLoop(ls, rs, j, false, m)
  {
    hide JoinKey, KeyOf, ResolvesLeft, ResolvesRight, Merged, HashJoin, NestedLoop, MatchOn, IsOperand, Plain;
    HashJoinExact(ls, rs, j, m);
    forall i, k | 0 <= i < |ls| && 0 <= k < |rs|
      ensures Joined(ls[i], rs[k], j, m) ==> SameKey(ls[i], rs[k], j.on, m)
    {
      ScanKeysPlain(rs, j.names, k);
      LeftSurvivesMerge(j.on.value.left, ls[i], rs[k], j.table, m);
      RightSurvivesMerge(j.on.value.right, ls[i], rs[k], j.table, m);
      EquationMeans(j.on, Merged(ls[i], rs[k], j.table), m);
    }
  }

  lemma ScanKeysPlain(rs: seq<Row>, names: set<string>, k: nat)
    requires IsScan(rs, names) && k < |rs|
    ensures PlainKeys(rs[k])
  {
  }

  /** With ON written right side first, the left rows have no key and the hash join returns nothing at all. */
  lemma {:induction false} ReversedOnFindsNothing(ls: seq<Row>, rs: seq<Row>, j: Join, m: Meaning)
    requires IsEquation(j.on) && j.on.value.left.QualifiedColumn?
    requires forall i :: 0 <= i < |ls| ==>
               j.on.value.left.name !in ls[i] && Qualified(j.on.value.left.table, j.on.value.left.name) !in ls[i]
    ensures HashJoin(ls, rs, j, m) == Known([])
  {
    if ls != [] {
      assert forall i {:trigger ls[1..][i]} :: 0 <= i < |ls| - 1 ==> ls[1..][i] == ls[i + 1];
      ReversedOnFindsNothing(ls[1..], rs, j, m);
      assert LeftKey(j.on, ls[0], m) == Null;
      var none: seq<Row> := [];
      assert none + none == none;
    }
  }

  /** Such a loss: one row on either side that ON joins, and ON written right side first. */
  lemma ReversedOnLosesRow(m: Meaning)
    ensures
      var l, r := map["id" := IntValue(1), "rowid" := IntValue(1)], map["ref" := IntValue(1), "rowid" := IntValue(1)];
      var j := Join("b", {"ref"}, Some(Binary(Eq, QualifiedColumn("b", "ref"), QualifiedColumn("a", "id"))));
      && IsScan([r], j.names) && HashJoin([l], [r], j, m) == Known([])
      && NestedLoop([l], [r], j, false, m) == Known([Merged(l, r, "b")])
  {
    hide Merged, HashJoin, NestedLoop, EvalPredicate, EvalExpr, MatchOn, ResolvesLeft, ResolvesRight;
    var l, r := map["id" := IntValue(1), "rowid" := IntValue(1)], map["ref" := IntValue(1), "rowid" := IntValue(1)];
    var j := Join("b", {"ref"}, Some(Binary(Eq, QualifiedColumn("b", "ref"), QualifiedColumn("a", "id"))));
    WitnessResolves(l, r, m);
    ReversedOnFindsNothing([l], [r], j, m);
    RightSurvivesMerge(QualifiedColumn("b", "ref"), l, r, "b", m);
    LeftSurvivesMerge(QualifiedColumn("a", "id"), l, r, "b", m);
    EquationMeans(j.on, Merged(l, r, "b"), m);
    OneRowJoined(l, r, j, m);
  }

  lemma WitnessResolves(l: Row, r: Row, m: Meaning)
    requires l == map["id" := IntValue(1), "rowid" := IntValue(1)]
    requires r == map["ref" := IntValue(1), "rowid" := IntValue(1)]
    ensures Plain("b") && PlainKeys(r) && Qualified("b", "ref") !in l
    ensures ResolvesRight(QualifiedColumn("b", "ref"), l, r, "b") && ResolvesLeft(QualifiedColumn("a", "id"), l, "b")
    ensures JoinKey(QualifiedColumn("b", "ref"), r, m) == IntValue(1)
    ensures JoinKey(QualifiedColumn("a", "id"), l, m) == IntValue(1)
  {
    QualifiedNotPlain("b", "ref");
    QualifiedNotPlain("a", "id");
  }

  lemma OneRowJoined(l: Row, r: Row, j: Join, m: Meaning)
    requires Joined(l, r, j, m)
    ensures NestedLoop([l], [r], j, false, m) == Known([Merged(l, r, j.table)])
  {
    hide MatchOn, Merged;
    var row := Merged(l, r, j.table);
    assert Matches(l, [], j, m) == Known([]) && Matches(l, [r], j, m) == Known([row] + []);
    assert NestedLoop([], [r], j, false, m) == Known([]);
    assert [row] + [] == [row];
  }

  // ---- The loops

  lemma MatchesStep(l: Row, rs: seq<Row>, j: Join, m: Meaning, done: seq<Row>, k: nat)
    requires k < |rs|
    ensures
      var merged := Merged(l, rs[k], j.table);
      match MatchOn(j.on, merged, m)
      case TypeError => Behind(done, Matches(l, rs[k..], j, m)) == TypeError
      case Known(on) =>
        Behind(done, Matches(l, rs[k..], j, m))
            == Behind(if on then done + [merged] else done, Matches(l, rs[k + 1..], j, m))
  {
    hide MatchOn, Merged;
    var merged := Merged(l, rs[k], j.table);
    assert rs[k..][1..] == rs[k + 1..];
    var on := MatchOn(j.on, merged, m);
    if on.Known? {
      BehindBehind(done, if on.value then [merged] else [], Matches(l, rs[k + 1..], j, m));
      assert done + [] == done;
    }
  }

  /** The inner loop: one left row against the right table. */
  method JoinRow(l: Row, rs: seq<Row>, j: Join, m: Meaning) returns (r: Evaluated<seq<Row>>)
    requires forall k :: 0 <= k < |rs| ==> PlainKeys(rs[k])
    ensures r == Matches(l, rs, j, m)
  {
    hide *;
    var block: seq<Row>, k := [], 0;
    BehindNothing(Matches(l, rs, j, m));
    assert rs[0..] == rs;
    while k < |rs|
      invariant k <= |rs| && Matches(l, rs, j, m) == Behind(block, Matches(l, rs[k..], j, m))
    {
      MatchesStep(l, rs, j, m, block, k);
      var merged := MergeRows(l, rs[k], j.table);
      var on := MatchOn(j.on, merged, m);
      if on.TypeError? {
        return TypeError;
      }
      if on.value {
        block := block + [merged];
      }
      k := k + 1;
    }
    assert rs[k..] == [];
    MatchesNone(l, j, m, block);
    r := Known(block);
  }

  lemma MatchesNone(l: Row, j: Join, m: Meaning, block: seq<Row>)
    ensures Behind(block, Matches(l, [], j, m)) == Known(block)
  {
    assert block + [] == block;
  }

  method ExecNestedLoopJoin(ls: seq<Row>, rs: seq<Row>, j: Join, left: bool, m: Meaning)
    returns (r: Evaluated<seq<Row>>)
    requires IsScan(rs, j.names)
    ensures r == NestedLoop(ls, rs, j, left, m)
  {
    hide Matches, NullExtended, Behind, IsScan;
    ScanPlain(rs, j.names);
    var result: seq<Row>, i := [], 0;
    BehindNothing(NestedLoop(ls, rs, j, left, m));
    assert ls[0..] == ls;
    while i < |ls|
      invariant i <= |ls| && NestedLoop(ls, rs, j, left, m) == Behind(result, NestedLoop(ls[i..], rs, j, left, m))
    {
      assert ls[i..][1..] == ls[i + 1..];
      var matched := JoinRow(ls[i], rs, j, m);
      if matched.TypeError? {
        BehindKnown(result, NestedLoop(ls[i..], rs, j, left, m));
        return TypeError;
      }
      var rows := if left && matched.value == [] then [NullExtended(ls[i], j)] else matched.value;
      BehindBehind(result, rows, NestedLoop(ls[i + 1..], rs, j, left, m));
      result, i := result + rows, i + 1;
    }
    BehindKnown(result, NestedLoop(ls[i..], rs, j, left, m));
    assert result + [] == result;
    r := Known(result);
  }

  lemma ScanPlain(rs: seq<Row>, names: set<string>)
    requires IsScan(rs, names)
    ensures forall k :: 0 <= k < |rs| ==> PlainKeys(rs[k])
  {
    forall k | 0 <= k < |rs| ensures PlainKeys(rs[k]) {
      ScanKeysPlain(rs, names, k);
    }
  }

  /** The right rows under their keys; rows without a key are in no bucket. */
  method BuildTable(rs: seq<Row>, j: Join, m: Meaning) returns (table: map<Key, seq<Row>>)
    ensures forall key :: Bucket(rs, key, j, m) == if key in table then table[key] else []
  {
    hide KeyOf, RightKey;
    table := map[];
    var i := 0;
    while i < |rs|
      invariant i <= |rs|
      invariant forall key :: Bucket(rs[..i], key, j, m) == if key in table then table[key] else []
    {
      BucketsStep(rs, j, m, i);
      var v := RightKey(j.on, rs[i], m);
      if v != Null {
        var key := KeyOf(v, m);
        table := table[key := (if key in table then table[key] else []) + [rs[i]]];
      }
      i := i + 1;
    }
    assert rs[..i] == rs;
  }

  lemma {:induction false} BucketConcat(a: seq<Row>, b: seq<Row>, key: Key, j: Join, m: Meaning)
    ensures Bucket(a + b, key, j, m) == Bucket(a, key, j, m) + Bucket(b, key, j, m)
  {
    hide Entry;
    if a == [] {
      assert a + b == b;
    } else {
      BucketConcat(a[1..], b, key, j, m);
      assert (a + b)[1..] == a[1..] + b;
      Associative(Entry(a[0], key, j, m), Bucket(a[1..], key, j, m), Bucket(b, key, j, m));
    }
  }

  lemma BucketsStep(rs: seq<Row>, j: Join, m: Meaning, i: nat)
    requires i < |rs|
    ensures forall key :: Bucket(rs[..i + 1], key, j, m) == Bucket(rs[..i], key, j, m) + Entry(rs[i], key, j, m)
  {
    hide Entry;
    assert rs[..i + 1] == rs[..i] + [rs[i]];
    forall key ensures Bucket(rs[..i + 1], key, j, m) == Bucket(rs[..i], key, j, m) + Entry(rs[i], key, j, m) {
      BucketConcat(rs[..i], [rs[i]], key, j, m);
      assert Bucket([rs[i]], key, j, m) == Entry(rs[i], key, j, m);
    }
  }

  /** The hash join; a LEFT join goes to the nested loop, which keeps the rows without a match. */
  method ExecHashJoin(ls: seq<Row>, rs: seq<Row>, j: Join, left: bool, m: Meaning) returns (r: Evaluated<seq<Row>>)
    requires IsScan(rs, j.names)
    ensures r == if left then NestedLoop(ls, rs, j, true, m) else HashJoin(ls, rs, j, m)
  {
    hide Matches, NullExtended, Behind, IsScan, KeyOf, Bucket, LeftKey;
    if left {
      r := ExecNestedLoopJoin(ls, rs, j, true, m);
      return;
    }
    ScanPlain(rs, j.names);
    var table := BuildTable(rs, j, m);
    var result: seq<Row>, i := [], 0;
    BehindNothing(HashJoin(ls, rs, j, m));
    assert ls[0..] == ls;
    while i < |ls|
      invariant i <= |ls| && HashJoin(ls, rs, j, m) == Behind(result, HashJoin(ls[i..], rs, j, m))
    {
      assert ls[i..][1..] == ls[i + 1..];
      var v := LeftKey(j.on, ls[i], m);
      ghost var rest := HashJoin(ls[i + 1..], rs, j, m);
      var rows: seq<Row> := [];
      if v != Null && KeyOf(v, m) in table {
        BucketPlain(rs, KeyOf(v, m), j, m);
        var matched := JoinRow(ls[i], table[KeyOf(v, m)], j, m);
        if matched.TypeError? {
          BehindKnown(result, HashJoin(ls[i..], rs, j, m));
          return TypeError;
        }
        rows := matched.value;
      } else if v != Null {
        NoMatches(ls[i], j, m);
      }
      BehindBehind(result, rows, rest);
      result, i := result + rows, i + 1;
    }
    BehindKnown(result, HashJoin(ls[i..], rs, j, m));
    assert result + [] == result;
    r := Known(result);
  }

  lemma NoMatches(l: Row, j: Join, m: Meaning)
    ensures Matches(l, [], j, m) == Known([])
  {
  }

  lemma {:induction false} BucketPlain(rs: seq<Row>, key: Key, j: Join, m: Meaning)
    requires forall k :: 0 <= k < |rs| ==> PlainKeys(rs[k])
    ensures forall k :: 0 <= k < |Bucket(rs, key, j, m)| ==> PlainKeys(Bucket(rs, key, j, m)[k])
  {
    hide KeyOf, RightKey, PlainKeys;
    if rs != [] {
      assert PlainKeys(rs[0]);
      assert forall k {:trigger rs[1..][k]} :: 0 <= k < |rs| - 1 ==> rs[1..][k] == rs[k + 1];
      BucketPlain(rs[1..], key, j, m);
    }
  }
}
