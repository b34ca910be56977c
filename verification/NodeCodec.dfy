/** B+ tree nodes and their byte layout in an index page (INT keys). */
module NodeCodec {
  import opened Bytes
  import opened Storage

  /** A node in memory. A leaf uses `values` and `next`, an internal node uses `children`. */
  datatype Node = Node(pid: nat, isLeaf: bool, keys: seq<int>, values: seq<nat>, children: seq<nat>, next: nat)

  function Leaf(pid: nat, keys: seq<int>, values: seq<nat>, next: nat): Node {
    Node(pid, true, keys, values, [], next)
  }

  function Internal(pid: nat, keys: seq<int>, children: seq<nat>): Node {
    Node(pid, false, keys, [], children, 0)
  }

  const INT_TAG: Byte := 1
  const KEY_SIZE: int := 11

  ghost predicate AllI64(keys: seq<int>) { forall i :: 0 <= i < |keys| ==> IsI64(keys[i]) }

  ghost predicate AllBelow(s: seq<nat>, limit: int) { forall i :: 0 <= i < |s| ==> s[i] < limit }

  /** What is stored beside a key: an eight-byte rowid in a leaf, a four-byte page number otherwise. */
  function RefSize(leaf: bool): int { if leaf then 8 else 4 }

  function RefLimit(leaf: bool): int { if leaf then U64_LIMIT else U32_LIMIT }

  function EntrySize(leaf: bool): int { KEY_SIZE + RefSize(leaf) }

  /** The nodes that can be written at all: every field is in the range its encoding has. */
  ghost predicate Encodable(n: Node) {
    && n.pid < U32_LIMIT && |n.keys| < U16_LIMIT && AllI64(n.keys)
    && if n.isLeaf then
         |n.values| == |n.keys| && n.children == [] && n.next < U64_LIMIT && AllBelow(n.values, U64_LIMIT)
       else
         |n.children| == |n.keys| + 1 && n.values == [] && n.next == 0 && AllBelow(n.children, U32_LIMIT)
  }

  // ---- encoding

  function EncodeKey(k: int): (r: seq<Byte>)
    requires IsI64(k)
    ensures |r| == KEY_SIZE
  {
    [INT_TAG] + U16(8) + I64(k)
  }

  function EncodeRef(v: nat, leaf: bool): (r: seq<Byte>)
    requires v < RefLimit(leaf)
    ensures |r| == RefSize(leaf)
  {
    if leaf then U64(v) else U32(v)
  }

  /** The entries of a leaf, or of an internal node after its first child. */
  ghost function Entries(keys: seq<int>, refs: seq<nat>, leaf: bool): (r: seq<Byte>)
    requires |keys| == |refs| && AllI64(keys) && AllBelow(refs, RefLimit(leaf))
    ensures |r| == if leaf then 19 * |keys| else 15 * |keys|
  {
    if keys == [] then []
    else EncodeKey(keys[0]) + EncodeRef(refs[0], leaf) + Entries(keys[1..], refs[1..], leaf)
  }

  /** Size of the encoded node. */
  ghost function NodeSize(n: Node): nat {
    if n.isLeaf then 11 + 19 * |n.keys| else 7 + 15 * |n.keys|
  }

  ghost function EncodeNode(n: Node): (r: seq<Byte>)
    requires Encodable(n)
    ensures |r| == NodeSize(n)
  {
    if n.isLeaf then
      [1] + U16(|n.keys|) + Entries(n.keys, n.values, true) + U64(n.next)
    else
      [0] + U16(|n.keys|) + U32(n.children[0]) + Entries(n.keys, n.children[1..], false)
  }

  // ---- decoding; `None` stands for the exception of a field that is cut short

  function DecodeKey(body: seq<Byte>, offset: nat): (r: Option<(int, nat)>)
    ensures r.Some? ==> offset + 3 <= r.value.1
  {
    var tag, len := Slice(body, offset, offset + 1), Slice(body, offset + 1, offset + 3);
    if |tag| != 1 || |len| != 2 || tag[0] in {2, 3, 4} then None
    else
      var end := offset + 3 + GetU16(len);
      Some((FromSignedLE(Slice(body, offset + 3, end)), end))
  }

  function DecodeRef(body: seq<Byte>, offset: nat, leaf: bool): Option<nat> {
    var v := Slice(body, offset, offset + RefSize(leaf));
    if |v| != RefSize(leaf) then None
    else if leaf then Some(GetU64(v)) else Some(GetU32(v))
  }

  /** `count` entries from `offset` on: the keys, what is stored with them, and where they end. */
  ghost function DecodeEntries(body: seq<Byte>, offset: nat, count: nat, leaf: bool)
    : (r: Option<(seq<int>, seq<nat>, nat)>)
    ensures r.Some? ==> |r.value.0| == |r.value.1| == count
    decreases count
  {
    if count == 0 then Some(([], [], offset))
    else
      match DecodeKey(body, offset)
      case None => None
      case Some((k, o)) =>
        match DecodeRef(body, o, leaf)
        case None => None
        case Some(v) =>
          match DecodeEntries(body, o + RefSize(leaf), count - 1, leaf)
          case None => None
          case Some((ks, vs, end)) => Some(([k] + ks, [v] + vs, end))
  }

  ghost function DecodeNode(pid: nat, body: seq<Byte>): Option<Node> {
    var flag, count := Slice(body, 0, 1), Slice(body, 1, 3);
    if |flag| != 1 || |count| != 2 then None
    else if flag[0] == 1 then
      match DecodeEntries(body, 3, GetU16(count), true)
      case None => None
      case Some((ks, vs, end)) =>
        Some(Leaf(pid, ks, vs, if end + 8 <= |body| then GetU64(body[end..end + 8]) else 0))
    else
      var first := Slice(body, 3, 7);
      if |first| != 4 then None
      else
        match DecodeEntries(body, 7, GetU16(count), false)
        case None => None
        case Some((ks, cs, end)) => Some(Internal(pid, ks, [GetU32(first)] + cs))
  }

  // ---- the round trip, also for a body that was cut off at the end of its page

  lemma SlicePrefix(body: seq<Byte>, offset: nat, e: seq<Byte>, lo: nat, hi: nat)
    requires offset <= |body| && lo <= hi <= |e|
    requires e <= body[offset..] || (body[offset..] < e && offset + hi <= |body|)
    ensures Slice(body, offset + lo, offset + hi) == e[lo..hi]
  {
    var t := body[offset..];
    assert forall i | lo <= i < hi :: body[offset + i] == t[i] == e[i];
  }

  lemma KeyRoundTrip(body: seq<Byte>, offset: nat, e: seq<Byte>, k: int)
    requires IsI64(k) && offset <= |body|
    requires e <= body[offset..] || body[offset..] < e
    requires EncodeKey(k) <= e
    ensures offset + KEY_SIZE <= |body| ==> DecodeKey(body, offset) == Some((k, offset + KEY_SIZE))
    ensures DecodeKey(body, offset).Some? ==> DecodeKey(body, offset).value.1 == offset + KEY_SIZE
  {
    if offset + 3 <= |body| {
      SlicePrefix(body, offset, e, 0, 1);
      SlicePrefix(body, offset, e, 1, 3);
      assert e[0] == EncodeKey(k)[0] && e[1..3] == EncodeKey(k)[1..3] == U16(8);
      if offset + KEY_SIZE <= |body| {
        SlicePrefix(body, offset, e, 3, 11);
        assert e[3..11] == EncodeKey(k)[3..11] == I64(k);
        SignedLEAt8(I64(k));
      }
    }
  }

  lemma RefRoundTrip(body: seq<Byte>, offset: nat, e: seq<Byte>, ref: nat, leaf: bool)
    requires ref < RefLimit(leaf) && offset + KEY_SIZE <= |body|
    requires e <= body[offset..] || body[offset..] < e
    requires EntrySize(leaf) <= |e| && e[KEY_SIZE..EntrySize(leaf)] == EncodeRef(ref, leaf)
    ensures DecodeRef(body, offset + KEY_SIZE, leaf)
         == if offset + EntrySize(leaf) <= |body| then Some(ref) else None
  {
    if offset + EntrySize(leaf) <= |body| {
      SlicePrefix(body, offset, e, KEY_SIZE, EntrySize(leaf));
    }
  }

  /** The first entry is there or is cut off, and what follows it is what follows it in the encoding `e`. */
  lemma FirstEntryRoundTrip(body: seq<Byte>, offset: nat, e: seq<Byte>, k: int, ref: nat, rest: seq<Byte>, leaf: bool)
    requires offset <= |body| && IsI64(k) && ref < RefLimit(leaf)
    requires e == EncodeKey(k) + EncodeRef(ref, leaf) + rest
    requires e <= body[offset..] || body[offset..] < e
    ensures offset + KEY_SIZE <= |body| ==> DecodeKey(body, offset) == Some((k, offset + KEY_SIZE))
    ensures DecodeKey(body, offset).Some? ==> DecodeKey(body, offset).value.1 == offset + KEY_SIZE
    ensures DecodeRef(body, offset + KEY_SIZE, leaf) == if offset + EntrySize(leaf) <= |body| then Some(ref) else None
    ensures offset + EntrySize(leaf) <= |body| ==>
              var tail := body[offset + EntrySize(leaf)..];
              (e <= body[offset..] ==> rest <= tail) && (body[offset..] < e ==> tail < rest)
  {
    hide DecodeKey, DecodeRef, EncodeKey, EncodeRef;
    var t := body[offset..];
    assert e[..KEY_SIZE] == EncodeKey(k);
    assert e[KEY_SIZE..EntrySize(leaf)] == EncodeRef(ref, leaf);
    assert e[EntrySize(leaf)..] == rest;
    KeyRoundTrip(body, offset, e, k);
    if offset + KEY_SIZE <= |body| {
      RefRoundTrip(body, offset, e, ref, leaf);
    } else {
      RefMissing(body, offset + KEY_SIZE, leaf);
    }
    if offset + EntrySize(leaf) <= |body| {
      assert body[offset + EntrySize(leaf)..] == t[EntrySize(leaf)..];
    }
  }

  lemma RefMissing(body: seq<Byte>, offset: nat, leaf: bool)
    requires offset >= |body|
    ensures DecodeRef(body, offset, leaf) == None
  {
  }

  /** All entries decode when all their bytes are there, and the list does not when some are missing. */
  lemma {:induction false} EntriesRoundTrip(body: seq<Byte>, offset: nat, keys: seq<int>, refs: seq<nat>, leaf: bool)
    requires |keys| == |refs| && offset <= |body| && AllI64(keys) && AllBelow(refs, RefLimit(leaf))
    ensures Entries(keys, refs, leaf) <= body[offset..] ==>
              DecodeEntries(body, offset, |keys|, leaf) == Some((keys, refs, offset + |Entries(keys, refs, leaf)|))
    ensures body[offset..] < Entries(keys, refs, leaf) ==> DecodeEntries(body, offset, |keys|, leaf) == None
    decreases |keys|
  {
    hide DecodeKey, DecodeRef, EncodeKey, EncodeRef;
    var e, t := Entries(keys, refs, leaf), body[offset..];
    if keys != [] && (e <= t || t < e) {
      FirstEntryRoundTrip(body, offset, e, keys[0], refs[0], Entries(keys[1..], refs[1..], leaf), leaf);
      if offset + EntrySize(leaf) <= |body| {
        EntriesRoundTrip(body, offset + EntrySize(leaf), keys[1..], refs[1..], leaf);
        assert [keys[0]] + keys[1..] == keys && [refs[0]] + refs[1..] == refs;
      }
    }
  }

  /** A leaf cut off after `room` bytes. */
  lemma LeafCutOff(n: Node, room: nat)
    requires Encodable(n) && n.isLeaf
    ensures DecodeNode(n.pid, Slice(EncodeNode(n), 0, room))
         == if NodeSize(n) <= room then Some(n) else if NodeSize(n) - 8 <= room then Some(n.(next := 0)) else None
  {
    hide GetU64, GetU32, GetU16, U64, U32, U16, Entries, DecodeEntries;
    var e := EncodeNode(n);
    var es := Entries(n.keys, n.values, true);
    var body := Slice(e, 0, room);
    var end := 3 + |es|;
    assert body == e[..|body|];
    if |body| >= 3 {
      assert body[1..3] == e[1..3] == U16(|n.keys|);
      assert e[3..end] == es;
      EntriesRoundTrip(body, 3, n.keys, n.values, true);
      if |body| < end {
        assert body[3..] == es[..|body| - 3];
      } else {
        assert body[3..][..|es|] == es;
        if |body| == end + 8 {
          assert body[end..end + 8] == e[end..] == U64(n.next);
        }
      }
    }
  }

  /** An internal node cut off after `room` bytes. */
  lemma InternalCutOff(n: Node, room: nat)
    requires Encodable(n) && !n.isLeaf
    ensures DecodeNode(n.pid, Slice(EncodeNode(n), 0, room)) == if NodeSize(n) <= room then Some(n) else None
  {
    hide GetU64, GetU32, GetU16, U64, U32, U16, Entries, DecodeEntries;
    var e := EncodeNode(n);
    var es := Entries(n.keys, n.children[1..], false);
    var body := Slice(e, 0, room);
    assert body == e[..|body|];
    if |body| >= 3 {
      assert body[1..3] == e[1..3] == U16(|n.keys|);
      if |body| >= 7 {
        assert body[3..7] == e[3..7] == U32(n.children[0]);
        assert e[7..] == es;
        EntriesRoundTrip(body, 7, n.keys, n.children[1..], false);
        assert body[7..] == es[..|body| - 7];
        assert [n.children[0]] + n.children[1..] == n.children;
      }
    }
  }

  /**
    * Exactly which nodes survive being cut off after `room` bytes: those that fit, and the leaves at
    * the end of the chain whose entries fit, since a missing `next_leaf` field reads as 0.
    */
  lemma NodeSurvives(n: Node, room: nat)
    requires Encodable(n)
    ensures DecodeNode(n.pid, Slice(EncodeNode(n), 0, room)) == Some(n)
       <==> NodeSize(n) <= room || (n.isLeaf && n.next == 0 && NodeSize(n) - 8 <= room)
  {
    if n.isLeaf { LeafCutOff(n, room); } else { InternalCutOff(n, room); }
  }

  // ---- node pages

  /** A node whose page can be written: also the length of its body has to fit its header field. */
  ghost predicate Writable(n: Node) { Encodable(n) && NodeSize(n) < U16_LIMIT }

  /** The bytes of the page a node is written to. */
  ghost function NodePage(n: Node, pageSize: nat): (raw: seq<Byte>)
    requires Writable(n) && PageSizeOk(pageSize)
    ensures |raw| == pageSize
  {
    RawPage(Page(n.pid, IndexPageType, 0, EncodeNode(n)), pageSize)
  }

  /** Decoding a raw page: `None` when its header or its body does not unpack. */
  ghost function NodeOfPage(pid: nat, raw: seq<Byte>): Option<Node>
    requires |raw| >= FILE_HEADER_SIZE
  {
    match ParsePage(raw)
    case None => None
    case Some(p) => DecodeNode(pid, p.body)
  }

  /** A node comes back from its page if and only if it fits there, up to the `next_leaf` field of a last leaf. */
  lemma NodePageSurvives(n: Node, pageSize: nat)
    requires Writable(n) && PageSizeOk(pageSize)
    ensures NodeOfPage(n.pid, NodePage(n, pageSize)) == Some(n)
       <==> NodeSize(n) <= BodyRoom(pageSize) || (n.isLeaf && n.next == 0 && NodeSize(n) - 8 <= BodyRoom(pageSize))
  {
    hide DecodeNode, EncodeNode, RawPage, ParsePage;
    ParseOfRaw(Page(n.pid, IndexPageType, 0, EncodeNode(n)), pageSize);
    NodeSurvives(n, BodyRoom(pageSize));
  }

  method WriteEntries(head: seq<Byte>, keys: seq<int>, refs: seq<nat>, leaf: bool) returns (body: seq<Byte>)
    requires |keys| == |refs| && AllI64(keys) && AllBelow(refs, RefLimit(leaf))
    ensures body == head + Entries(keys, refs, leaf)
  {
    hide *;
    body := head;
    assert keys[0..] == keys && refs[0..] == refs;
    for i := 0 to |keys|
      invariant AllI64(keys[i..]) && AllBelow(refs[i..], RefLimit(leaf))
      invariant body + Entries(keys[i..], refs[i..], leaf) == head + Entries(keys, refs, leaf)
    {
      EntriesFirst(keys[i..], refs[i..], leaf);
      assert keys[i..][1..] == keys[i + 1..] && refs[i..][1..] == refs[i + 1..];
      var key, ref := EncodeKey(keys[i]), EncodeRef(refs[i], leaf);
      ghost var rest := Entries(keys[i + 1..], refs[i + 1..], leaf);
      assert body + (key + ref + rest) == body + key + ref + rest;
      body := body + key + ref;
    }
    EntriesNone(keys[|keys|..], refs[|keys|..], leaf);
  }

  lemma EntriesNone(keys: seq<int>, refs: seq<nat>, leaf: bool)
    requires |keys| == |refs| == 0
    ensures AllI64(keys) && AllBelow(refs, RefLimit(leaf)) && Entries(keys, refs, leaf) == []
  {
  }

  lemma EntriesFirst(keys: seq<int>, refs: seq<nat>, leaf: bool)
    requires |keys| == |refs| && AllI64(keys) && AllBelow(refs, RefLimit(leaf))
    requires keys != []
    ensures IsI64(keys[0]) && refs[0] < RefLimit(leaf)
    ensures AllI64(keys[1..]) && AllBelow(refs[1..], RefLimit(leaf))
    ensures Entries(keys, refs, leaf)
         == EncodeKey(keys[0]) + EncodeRef(refs[0], leaf) + Entries(keys[1..], refs[1..], leaf)
  {
  }

  method WriteNode(store: FileStore, n: Node)
    requires store.Valid() && Writable(n)
    requires n.pid < store.pageCount && n.pid !in store.freeList
    modifies store`pages
    ensures store.Valid() && store.pages == old(store.pages)[n.pid := NodePage(n, store.pageSize)]
  {
    hide Entries, U16, U32, U64, RawPage, FreeChain;
    var body;
    if n.isLeaf {
      body := WriteEntries([1] + U16(|n.keys|), n.keys, n.values, true);
      body := body + U64(n.next);
    } else {
      body := WriteEntries([0] + U16(|n.keys|) + U32(n.children[0]), n.keys, n.children[1..], false);
    }
    store.WritePage(Page(n.pid, IndexPageType, 0, body));
  }

  /** What the entries already read and the entries still to be read come to together. */
  ghost function Prepend(keys: seq<int>, refs: seq<nat>, rest: Option<(seq<int>, seq<nat>, nat)>)
    : Option<(seq<int>, seq<nat>, nat)>
  {
    match rest
    case None => None
    case Some((ks, vs, end)) => Some((keys + ks, refs + vs, end))
  }

  lemma PrependNothing(rest: Option<(seq<int>, seq<nat>, nat)>)
    ensures Prepend([], [], rest) == rest
  {
    if rest.Some? {
      assert [] + rest.value.0 == rest.value.0 && [] + rest.value.1 == rest.value.1;
    }
  }

  lemma PrependOne(keys: seq<int>, refs: seq<nat>, k: int, v: nat, rest: Option<(seq<int>, seq<nat>, nat)>)
    ensures Prepend(keys + [k], refs + [v], rest) == Prepend(keys, refs, Prepend([k], [v], rest))
  {
    if rest.Some? {
      assert keys + ([k] + rest.value.0) == keys + [k] + rest.value.0;
      assert refs + ([v] + rest.value.1) == refs + [v] + rest.value.1;
    }
  }

  method ReadEntries(body: seq<Byte>, start: nat, count: nat, leaf: bool) returns (r: Option<(seq<int>, seq<nat>, nat)>)
    ensures r == DecodeEntries(body, start, count, leaf)
  {
    hide DecodeKey, DecodeRef;
    var keys: seq<int>, refs: seq<nat>, offset: nat := [], [], start;
    PrependNothing(DecodeEntries(body, start, count, leaf));
    for i := 0 to count
      invariant DecodeEntries(body, start, count, leaf)
             == Prepend(keys, refs, DecodeEntries(body, offset, count - i, leaf))
    {
      var key := DecodeKey(body, offset);
      if key.None? {
        return None;
      }
      var ref := DecodeRef(body, key.value.1, leaf);
      if ref.None? {
        return None;
      }
      ghost var rest := DecodeEntries(body, key.value.1 + RefSize(leaf), count - i - 1, leaf);
      PrependOne(keys, refs, key.value.0, ref.value, rest);
      keys, refs, offset := keys + [key.value.0], refs + [ref.value], key.value.1 + RefSize(leaf);
    }
    assert keys + [] == keys && refs + [] == refs;
    r := Some((keys, refs, offset));
  }

  method ReadNode(store: FileStore, pid: nat) returns (r: Option<Node>)
    requires store.Valid() && pid < store.pageCount
    ensures r == NodeOfPage(pid, store.pages[pid])
  {
    var page := store.ReadPage(pid);
    if page.None? {
      return None;
    }
    var body := page.value.body;
    var flag, count := Slice(body, 0, 1), Slice(body, 1, 3);
    if |flag| != 1 || |count| != 2 {
      return None;
    }
    if flag[0] == 1 {
      var es := ReadEntries(body, 3, GetU16(count), true);
      if es.None? {
        return None;
      }
      var end := es.value.2;
      var next := if end + 8 <= |body| then GetU64(body[end..end + 8]) else 0;
      r := Some(Leaf(pid, es.value.0, es.value.1, next));
    } else {
      var first := Slice(body, 3, 7);
      if |first| != 4 {
        return None;
      }
      var es := ReadEntries(body, 7, GetU16(count), false);
      if es.None? {
        return None;
      }
      r := Some(Internal(pid, es.value.0, [GetU32(first)] + es.value.1));
    }
  }
}
