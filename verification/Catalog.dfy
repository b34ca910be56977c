/** The header page: file metadata in front, the table list behind it, and the catalog that keeps the list. */
module CatalogPage {
  import opened Bytes
  import opened Storage
  import opened CatalogCodec

  const FILE_MAGIC: seq<Byte> := [84, 73, 78, 89, 68, 66, 0, 0]
  const META_SIZE: int := 16
  const CATALOG_START: int := 20

  /** Magic, page size and free head. */
  function Meta(pageSize: nat, freeHead: nat): (b: seq<Byte>)
    requires PageSizeOk(pageSize) && freeHead < U32_LIMIT
    ensures |b| == META_SIZE
  {
    FILE_MAGIC + U32(pageSize) + U32(freeHead)
  }

  /** The metadata as opening the file reads it; None when the magic or the page size is another. */
  function FreeHeadOf(body: seq<Byte>, pageSize: nat): Option<nat> {
    if |body| < META_SIZE || body[..8] != FILE_MAGIC || GetU32(body[8..12]) != pageSize then None
    else Some(GetU32(body[12..16]))
  }

  lemma MetaBack(body: seq<Byte>, pageSize: nat, freeHead: nat)
    requires PageSizeOk(pageSize) && freeHead < U32_LIMIT && |body| >= META_SIZE
    requires body[..META_SIZE] == Meta(pageSize, freeHead)
    ensures FreeHeadOf(body, pageSize) == Some(freeHead)
  {
    hide U32, GetU32;
    var meta := Meta(pageSize, freeHead);
    assert meta[..8] == FILE_MAGIC && meta[8..12] == U32(pageSize) && meta[12..16] == U32(freeHead);
    assert body[..8] == body[..META_SIZE][..8];
    assert body[8..12] == body[..META_SIZE][8..12] && body[12..16] == body[..META_SIZE][12..16];
  }

  // ---- The table list in the body

  /** A dictionary filled in order: a name that comes again takes the earlier one's place. */
  function ByName(ts: seq<TableMeta>): (r: seq<TableMeta>)
    ensures |r| <= |ts|
  {
    if ts == [] then [] else
      var rest := ByName(ts[..|ts| - 1]);
      var t := ts[|ts| - 1];
      var i := IndexOf(rest, t.name);
      if i < |rest| then rest[i := t] else rest + [t]
  }

  function IndexOf(ts: seq<TableMeta>, name: Name): (i: nat)
    ensures i <= |ts| && forall k :: 0 <= k < i ==> ts[k].name != name
    ensures i < |ts| ==> ts[i].name == name
  {
    if ts == [] || ts[0].name == name then 0 else 1 + IndexOf(ts[1..], name)
  }

  ghost predicate DistinctNames(ts: seq<TableMeta>) { forall i, k :: 0 <= i < k < |ts| ==> ts[i].name != ts[k].name }

  lemma {:induction false} ByNameKeepsDistinct(ts: seq<TableMeta>)
    requires DistinctNames(ts)
    ensures ByName(ts) == ts
  {
    if ts != [] {
      ByNameKeepsDistinct(ts[..|ts| - 1]);
      assert ts[..|ts| - 1] + [ts[|ts| - 1]] == ts;
    }
  }

  /** The list's bytes, as far as they are there. */
  function ListBytes(body: seq<Byte>): seq<Byte> {
    if |body| < META_SIZE then []
    else Slice(body, CATALOG_START, CATALOG_START + FromLE(Slice(body, META_SIZE, CATALOG_START)))
  }

  /** What a new catalog finds in a header page's body; Bad when the list does not decode. */
  function Loaded(body: seq<Byte>): Decoded<seq<TableMeta>> {
    if ListBytes(body) == [] then Got([], [])
    else match DecodeCatalog(ListBytes(body)) case Bad => Bad case Got(ts, rest) => Got(ByName(ts), [])
  }

  /** The body that a flush writes: as long as before or as the list needs. */
  function WithCatalog(body: seq<Byte>, raw: seq<Byte>): (r: seq<Byte>)
    requires |raw| < U32_LIMIT
    ensures |r| == Max(|body|, CATALOG_START + |raw|)
  {
    var needed := CATALOG_START + |raw|;
    var room := if |body| < needed then body + Zeros(needed - |body|) else body;
    Patched(Patched(room, META_SIZE, U32(|raw|)), CATALOG_START, raw)
  }

  function WithFreeHead(body: seq<Byte>, pageSize: nat, freeHead: nat): (r: seq<Byte>)
    requires PageSizeOk(pageSize) && freeHead < U32_LIMIT
    ensures |r| == Max(|body|, META_SIZE)
  {
    var room := if |body| < META_SIZE then body + Zeros(META_SIZE - |body|) else body;
    Patched(room, 0, Meta(pageSize, freeHead))
  }

  /**
    * A flushed list is loaded again, with the metadata in front as it was; bytes of a longer, older list behind it do
    * no harm.
    */
  lemma FlushedIsLoaded(body: seq<Byte>, entries: seq<TableMeta>)
    requires |body| >= META_SIZE && CatalogFits(entries) && DistinctNames(entries)
    requires |EncodeCatalog(entries)| < U32_LIMIT
    ensures
      var body' := WithCatalog(body, EncodeCatalog(entries));
      Loaded(body') == Got(entries, []) && body'[..META_SIZE] == body[..META_SIZE]
  {
    hide EncodeCatalog, DecodeCatalog, ByName, FromLE, U32, GetU32, Zeros;
    var raw := EncodeCatalog(entries);
    var body' := WithCatalog(body, raw);
    assert body'[META_SIZE..CATALOG_START] == U32(|raw|);
    FromLEAt4(U32(|raw|));
    assert Slice(body', META_SIZE, CATALOG_START) == U32(|raw|);
    assert body'[CATALOG_START..CATALOG_START + |raw|] == raw;
    assert Slice(body', CATALOG_START, CATALOG_START + |raw|) == raw;
    CatalogBack(entries, []);
    assert raw + [] == raw;
    ByNameKeepsDistinct(entries);
  }

  /** A flushed list that is cut off can never be loaded again. */
  lemma CutIsLost(body: seq<Byte>, entries: seq<TableMeta>, room: nat)
    requires META_SIZE <= |body| <= room && CatalogFits(entries) && |EncodeCatalog(entries)| < U32_LIMIT
    requires CATALOG_START < room < CATALOG_START + |EncodeCatalog(entries)|
    ensures Loaded(Slice(WithCatalog(body, EncodeCatalog(entries)), 0, room)) == Bad
  {
    hide EncodeCatalog, DecodeCatalog, ByName, FromLE, U32, GetU32, Zeros;
    var raw := EncodeCatalog(entries);
    var whole := WithCatalog(body, raw);
    var cut := Slice(whole, 0, room);
    assert cut[META_SIZE..CATALOG_START] == U32(|raw|);
    FromLEAt4(U32(|raw|));
    assert Slice(cut, META_SIZE, CATALOG_START) == U32(|raw|);
    assert whole[CATALOG_START..CATALOG_START + |raw|] == raw;
    assert Slice(cut, CATALOG_START, CATALOG_START + |raw|) == raw[..room - CATALOG_START];
    CatalogCut(entries, raw[..room - CATALOG_START]);
  }

  /** Such a list: one table with a name of 600 bytes, in a file with the smallest pages. */
  lemma OversizedListIsLost()
    ensures
      var entries := [TableMeta(Zeros(600), 1, [])];
      && CatalogFits(entries) && PageSizeOk(PAGE_SIZE_MIN) && |EncodeCatalog(entries)| < U32_LIMIT
      && Loaded(Slice(WithCatalog(Meta(PAGE_SIZE_MIN, 0), EncodeCatalog(entries)), 0, BodyRoom(PAGE_SIZE_MIN))) == Bad
  {
    hide Loaded, WithCatalog, U16, U32, Meta;
    var t := TableMeta(Zeros(600), 1, []);
    assert EncodeTables([t]) == EncodeTable(t) + EncodeTables([t][1..]);
    CutIsLost(Meta(PAGE_SIZE_MIN, 0), [t], BodyRoom(PAGE_SIZE_MIN));
  }

  /** Flushing the free head leaves the list as it is. */
  lemma FreeHeadKeepsList(body: seq<Byte>, pageSize: nat, freeHead: nat)
    requires PageSizeOk(pageSize) && freeHead < U32_LIMIT && |body| >= META_SIZE
    ensures
      var body' := WithFreeHead(body, pageSize, freeHead);
      Loaded(body') == Loaded(body) && body'[..META_SIZE] == Meta(pageSize, freeHead)
  {
    hide DecodeCatalog, ByName, FromLE, Meta;
    var body' := WithFreeHead(body, pageSize, freeHead);
    assert body'[META_SIZE..] == body[META_SIZE..];
    SliceBehind(body, body');
  }

  lemma SliceBehind(body: seq<Byte>, body': seq<Byte>)
    requires |body| == |body'| >= META_SIZE && body'[META_SIZE..] == body[META_SIZE..]
    ensures forall lo: nat, hi: nat :: META_SIZE <= lo ==> Slice(body', lo, hi) == Slice(body, lo, hi)
  {
    forall lo: nat, hi: nat | META_SIZE <= lo ensures Slice(body', lo, hi) == Slice(body, lo, hi) {
      if lo < Min(hi, |body|) {
        var end := Min(hi, |body|);
        assert body'[lo..end] == body'[META_SIZE..][lo - META_SIZE..end - META_SIZE];
        assert body[lo..end] == body[META_SIZE..][lo - META_SIZE..end - META_SIZE];
      }
    }
  }

  // ---- The header page in the file

  /** The header page carries the metadata with this free head. */
  ghost predicate HeaderPage(raw: seq<Byte>, pageSize: nat, freeHead: nat) {
    && PageSizeOk(pageSize) && freeHead < U32_LIMIT && |raw| == pageSize && ParsePage(raw).Some?
    && var page := ParsePage(raw).value;
       && page.pid == 0 && page.pageType == HeaderPageType && page.lsn < U32_LIMIT
       && META_SIZE <= |page.body| <= BodyRoom(pageSize) && page.body[..META_SIZE] == Meta(pageSize, freeHead)
  }

  ghost function LoadedPage(raw: seq<Byte>): Decoded<seq<TableMeta>>
    requires |raw| >= FILE_HEADER_SIZE && ParsePage(raw).Some?
  {
    Loaded(ParsePage(raw).value.body)
  }

  /** The free head that opening the file finds; None when the header page is not as it should be. */
  ghost function SavedFreeHead(raw: seq<Byte>, pageSize: nat): Option<nat> {
    if |raw| < FILE_HEADER_SIZE || ParsePage(raw).None? || ParsePage(raw).value.pageType != HeaderPageType then None
    else FreeHeadOf(ParsePage(raw).value.body, pageSize)
  }

  lemma HeaderFreeHead(raw: seq<Byte>, pageSize: nat, freeHead: nat)
    requires HeaderPage(raw, pageSize, freeHead)
    ensures SavedFreeHead(raw, pageSize) == Some(freeHead)
  {
    hide ParsePage, FreeHeadOf, Meta;
    MetaBack(ParsePage(raw).value.body, pageSize, freeHead);
  }

  /** A header page that is written keeps its metadata even when its body is cut, and all of its body when it fits. */
  lemma WrittenHeader(page: Page, body: seq<Byte>, pageSize: nat, freeHead: nat)
    requires PageSizeOk(pageSize) && freeHead < U32_LIMIT && page.pid == 0 && page.pageType == HeaderPageType
    requires page.lsn < U32_LIMIT
    requires META_SIZE <= |body| < U16_LIMIT && body[..META_SIZE] == Meta(pageSize, freeHead)
    ensures HeaderPage(RawPage(page.(body := body), pageSize), pageSize, freeHead)
    ensures LoadedPage(RawPage(page.(body := body), pageSize)) == Loaded(Slice(body, 0, BodyRoom(pageSize)))
    ensures |body| <= BodyRoom(pageSize) ==> LoadedPage(RawPage(page.(body := body), pageSize)) == Loaded(body)
  {
    hide RawPage, ParsePage, Loaded, Meta;
    ParseOfRaw(page.(body := body), pageSize);
    assert Slice(body, 0, BodyRoom(pageSize))[..META_SIZE] == body[..META_SIZE];
    assert |body| <= BodyRoom(pageSize) ==> Slice(body, 0, BodyRoom(pageSize)) == body;
  }

  /** Every table has a page of its own that is in use. */
  ghost predicate OwnPages(entries: seq<TableMeta>, pageCount: nat, freeList: seq<nat>) {
    && (forall i :: 0 <= i < |entries| ==> 0 < entries[i].root < pageCount && entries[i].root !in freeList)
    && (forall i, k :: 0 <= i < k < |entries| ==> entries[i].root != entries[k].root)
  }

  /** Refused: the name is taken, or not there. Raised: a name or the list is too long for its length field. */
  datatype Change = Done | Refused | Raised

  class Catalog {
    const store: FileStore
    var entries: seq<TableMeta>
    /** The free head that the header page has. */
    ghost var flushedHead: nat

    ghost predicate Valid()
      reads this, store
    {
      && store.Valid() && HeaderPage(store.pages[0], store.pageSize, flushedHead)
      && DistinctNames(entries) && OwnPages(entries, store.pageCount, store.freeList)
    }

    /** Another catalog on the file finds these entries. */
    ghost predicate Saved()
      requires Valid()
      reads this, store
    {
      LoadedPage(store.pages[0]) == Got(entries, [])
    }

    ghost predicate Fits()
      reads this, store
    {
      CatalogFits(entries) && store.Valid() && CATALOG_START + |EncodeCatalog(entries)| <= BodyRoom(store.pageSize)
    }

    constructor (store: FileStore, ghost freeHead: nat)
      requires store.Valid() && HeaderPage(store.pages[0], store.pageSize, freeHead)
      ensures Valid() && this.store == store && flushedHead == freeHead && entries == []
    {
      this.store, entries, flushedHead := store, [], freeHead;
    }

    /** Reads the list from the header page: without one the entries stay, and one that does not decode raises. */
    method Load() returns (ok: bool)
      requires Valid()
      modifies this`entries
      ensures match LoadedPage(store.pages[0])
              case Bad => !ok && entries == old(entries)
              case Got(ts, _) =>
                && ok
                && entries == if ListBytes(ParsePage(store.pages[0]).value.body) == [] then old(entries) else ts
    {
      hide FreeChain, DecodeCatalog;
      var page := store.ReadPage(0);
      var body := page.value.body;
      if |body| < META_SIZE {
        return true;
      }
      var length := FromLE(Slice(body, META_SIZE, CATALOG_START));
      if length == 0 {
        return true;
      }
      var raw := Slice(body, CATALOG_START, CATALOG_START + length);
      if raw == [] {
        return true;
      }
      var decoded := DecodeEntries(raw);
      if decoded.Bad? {
        return false;
      }
      entries := ByName(decoded.value);
      ok := true;
    }

    /** The list's length and the body's have fields that they fit in; otherwise a flush raises. */
    ghost predicate Encodable()
      reads this
    {
      CatalogFits(entries) && CATALOG_START + |EncodeCatalog(entries)| < U16_LIMIT
    }

    /**
      * Writes the list behind the metadata: it is saved exactly when it fits, and no list can be loaded when it does
      * not.
      */
    method Flush() returns (ok: bool)
      requires Valid()
      modifies store`pages
      ensures Valid() && ok == Encodable()
      ensures !ok ==> store.pages == old(store.pages)
      ensures ok ==> (Saved() <==> Fits()) && (!Fits() ==> LoadedPage(store.pages[0]) == Bad)
      ensures store.pages == old(store.pages)[0 := store.pages[0]]
    {
      hide FreeChain, RawPage, ParsePage, EncodeCatalog, Loaded, Meta, WithCatalog;
      var encoded := EncodeEntries(entries);
      if encoded == None {
        return false;
      }
      var raw := encoded.value;
      var page := store.ReadPage(0);
      if |raw| >= U32_LIMIT {
        return false;
      }
      var body := WithCatalog(page.value.body, raw);
      FlushedIsLoaded(page.value.body, entries);
      if |body| >= U16_LIMIT {
        return false;
      }
      WrittenHeader(page.value, body, store.pageSize, flushedHead);
      if !Fits() {
        CutIsLost(page.value.body, entries, BodyRoom(store.pageSize));
      }
      HeaderIsNotFree(store.pages, store.freeHead, store.freeList);
      store.WritePage(page.value.(body := body));
      ok := true;
    }

    /** Writes the free head into the metadata. */
    method FlushFreeHead()
      requires Valid()
      modifies store`pages, this`flushedHead
      ensures Valid() && flushedHead == store.freeHead
      ensures LoadedPage(store.pages[0]) == old(LoadedPage(store.pages[0]))
      ensures store.pages == old(store.pages)[0 := store.pages[0]]
    {
      hide RawPage, ParsePage, Loaded, Meta, WithFreeHead;
      var page := store.ReadPage(0);
      var body := WithFreeHead(page.value.body, store.pageSize, store.freeHead);
      FreeHeadKeepsList(page.value.body, store.pageSize, store.freeHead);
      var written := Page(0, HeaderPageType, 0, body);
      WrittenHeader(written, body, store.pageSize, store.freeHead);
      store.WritePage(written);
      flushedHead := store.freeHead;
    }

    /** A new table gets a page that no other table has. */
    method CreateTable(name: Name, columns: seq<Column>) returns (r: Change)
      requires Valid() && (store.freeList == [] ==> store.pageCount < U32_LIMIT)
      modifies this`entries, store
      ensures Valid() && flushedHead == old(flushedHead)
      ensures r == Refused <==> IndexOf(old(entries), name) < |old(entries)|
      ensures r == Refused ==> entries == old(entries) && unchanged(store)
      ensures r != Refused ==>
                var root := if old(store.freeList) == [] then old(store.pageCount) else old(store.freeList)[0];
                entries == old(entries) + [TableMeta(name, root, columns)]
      ensures r != Refused ==>
                && store.freeList == (if old(store.freeList) == [] then [] else old(store.freeList)[1..])
                && store.pageCount == old(store.pageCount) + (if old(store.freeList) == [] then 1 else 0)
      ensures r != Refused ==>
                && (r == Done <==> Encodable())
                && (Encodable() ==> (Saved() <==> Fits()) && (!Fits() ==> LoadedPage(store.pages[0]) == Bad))
    {
      hide FreeChain, RawPage, ParsePage, EncodeCatalog, Loaded, Meta;
      if IndexOf(entries, name) < |entries| {
        return Refused;
      }
      var root := store.AllocPage(TablePageType);
      assert store.pages[0] == old(store.pages[0]);
      entries := entries + [TableMeta(name, root, columns)];
      var ok := Flush();
      r := if ok then Done else Raised;
    }

    /** Dropping a table frees its page. */
    method DropTable(name: Name) returns (r: Change)
      requires Valid()
      modifies this`entries, store
      ensures Valid() && flushedHead == old(flushedHead)
      ensures
        var i := IndexOf(old(entries), name);
        if i == |old(entries)| then r == Refused && entries == old(entries) && unchanged(store)
        else
          && r != Refused && entries == old(entries)[..i] + old(entries)[i + 1..]
          && store.freeList == [old(entries)[i].root] + old(store.freeList)
          && (r == Done <==> Encodable())
          && (Encodable() ==> (Saved() <==> Fits()) && (!Fits() ==> LoadedPage(store.pages[0]) == Bad))
      ensures store.pageCount == old(store.pageCount)
    {
      hide FreeChain, RawPage, ParsePage, EncodeCatalog, Loaded, Meta;
      var i := IndexOf(entries, name);
      if i == |entries| {
        return Refused;
      }
      var root := entries[i].root;
      entries := entries[..i] + entries[i + 1..];
      var freed := store.FreePage(root);
      var ok := Flush();
      r := if ok then Done else Raised;
    }
  }
}
