/**
  * Whole runs of table creations, drops and free-head flushes on a new file, and what opening the catalog again finds.
  */
module CatalogRuns {
  import opened Bytes
  import opened Storage
  import opened CatalogCodec
  import opened CatalogPage

  datatype Op = CreateOp(name: Name, columns: seq<Column>) | DropOp(name: Name) | FlushHeadOp

  /** The tables with their pages, the free pages, the number of pages, and the free head that the header page has. */
  datatype File = File(tables: seq<TableMeta>, free: seq<nat>, pageCount: nat, flushedHead: nat)

  function Head(free: seq<nat>): nat { if free == [] then 0 else free[0] }

  /** What one operation should do: the page freed last is used first. */
  function Step(f: File, op: Op): File {
    match op
    case CreateOp(name, columns) =>
      if IndexOf(f.tables, name) < |f.tables| then f
      else if f.free == [] then
        f.(tables := f.tables + [TableMeta(name, f.pageCount, columns)], pageCount := f.pageCount + 1)
      else
        f.(tables := f.tables + [TableMeta(name, f.free[0], columns)], free := f.free[1..])
    case DropOp(name) =>
      var i := IndexOf(f.tables, name);
      if i == |f.tables| then f
      else f.(tables := f.tables[..i] + f.tables[i + 1..], free := [f.tables[i].root] + f.free)
    case FlushHeadOp => f.(flushedHead := Head(f.free))
  }

  function After(ops: seq<Op>): File {
    if ops == [] then File([], [], 1, 0) else Step(After(ops[..|ops| - 1]), ops[|ops| - 1])
  }

  ghost predicate ListFits(tables: seq<TableMeta>, pageSize: nat)
    requires PageSizeOk(pageSize)
  {
    CatalogFits(tables) && CATALOG_START + |EncodeCatalog(tables)| <= BodyRoom(pageSize)
  }

  /** No name and no list is too long for its length field. */
  ghost predicate Listable(tables: seq<TableMeta>) {
    CatalogFits(tables) && CATALOG_START + |EncodeCatalog(tables)| < U16_LIMIT
  }

  /**
    * The catalog is as it should be; the header page has its list when that fits, and none that loads when it was cut
    * off.
    */
  ghost predicate Keeps(c: Catalog, f: File)
    reads c, c.store
  {
    && c.Valid() && f == File(c.entries, c.store.freeList, c.store.pageCount, c.flushedHead)
    && (ListFits(f.tables, c.store.pageSize) ==> c.Saved())
    && (Listable(f.tables) && !ListFits(f.tables, c.store.pageSize) ==> LoadedPage(c.store.pages[0]) == Bad)
  }

  lemma HeadOfFree(c: Catalog)
    requires c.Valid()
    ensures c.store.freeHead == Head(c.store.freeList)
  {
  }

  method Perform(c: Catalog, op: Op, ghost f: File)
    requires Keeps(c, f) && (f.free == [] ==> f.pageCount < U32_LIMIT)
    modifies c, c.store
    ensures Keeps(c, Step(f, op))
  {
    hide EncodeCatalog, CatalogFits, FreeChain, HeaderPage, DistinctNames, OwnPages, LoadedPage, IndexOf;
    match op
    case CreateOp(name, columns) =>
      var r := c.CreateTable(name, columns);
    case DropOp(name) =>
      var r := c.DropTable(name);
    case FlushHeadOp =>
      c.FlushFreeHead();
      HeadOfFree(c);
  }

  /** A new file's header page has the metadata and no list. */
  method NewCatalog(pageSize: nat) returns (c: Catalog)
    requires PageSizeOk(pageSize)
    ensures fresh(c) && fresh(c.store) && Keeps(c, After([])) && c.store.pageSize == pageSize
  {
    hide Meta, ParsePage, RawPage, FreeChain;
    var body := Meta(pageSize, 0);
    WrittenHeader(Page(0, HeaderPageType, 0, []), body, pageSize, 0);
    assert ListBytes(body) == [] by {
      assert Slice(body, META_SIZE, CATALOG_START) == [];
    }
    var store := new FileStore(pageSize, body);
    c := new Catalog(store, 0);
  }

  lemma NextFile(ops: seq<Op>, i: nat)
    requires i < |ops|
    ensures After(ops[..i + 1]) == Step(After(ops[..i]), ops[i])
  {
    assert ops[..i + 1][..i] == ops[..i];
  }

  lemma {:induction false} FewPages(ops: seq<Op>)
    ensures After(ops).pageCount <= 1 + |ops|
  {
    if ops != [] {
      FewPages(ops[..|ops| - 1]);
    }
  }

  /**
    * After any run on a new file, whatever lists came in between: if the list fits now, another catalog on the
    * file loads the current tables in order, with their pages, and if it was cut off, loading raises. The tables'
    * pages are distinct, in use and not free, and the metadata is whole, with the free head of the last flush.
    */
  method Run(pageSize: nat, ops: seq<Op>) returns (store: FileStore, ok: bool, reloaded: seq<TableMeta>)
    requires PageSizeOk(pageSize) && |ops| + 1 < U32_LIMIT
    ensures store.Valid() && store.pageSize == pageSize
    ensures ListFits(After(ops).tables, pageSize) ==> ok && reloaded == After(ops).tables
    ensures Listable(After(ops).tables) && !ListFits(After(ops).tables, pageSize) ==> !ok
    ensures OwnPages(After(ops).tables, store.pageCount, store.freeList)
    ensures store.freeList == After(ops).free && store.pageCount == After(ops).pageCount
    ensures SavedFreeHead(store.pages[0], pageSize) == Some(After(ops).flushedHead)
  {
    hide EncodeCatalog, CatalogFits, FreeChain, LoadedPage, DistinctNames, OwnPages, IndexOf, Step, Meta, ParsePage;
    var c := NewCatalog(pageSize);
    assert ops[..0] == [];
    var i := 0;
    while i < |ops|
      invariant i <= |ops| && fresh(c) && fresh(c.store) && Keeps(c, After(ops[..i])) && c.store.pageSize == pageSize
      modifies c, c.store
    {
      NextFile(ops, i);
      FewPages(ops[..i]);
      Perform(c, ops[i], After(ops[..i]));
      i := i + 1;
    }
    assert ops[..i] == ops;
    store := c.store;
    HeaderFreeHead(store.pages[0], pageSize, c.flushedHead);
    var again := new Catalog(store, c.flushedHead);
    NoListLoadsNothing(store.pages[0]);
    ok := again.Load();
    reloaded := again.entries;
  }

  lemma NoListLoadsNothing(raw: seq<Byte>)
    requires |raw| >= FILE_HEADER_SIZE && ParsePage(raw).Some?
    ensures ListBytes(ParsePage(raw).value.body) == [] ==> LoadedPage(raw) == Got([], [])
  {
  }
}
