/** The buffer pool: pages in memory, their dirty flags and pins, and the page file underneath. */
module BufferPools {
  import opened Bytes
  import opened Storage

  /** A pooled page as a value. */
  datatype Slot = Slot(pid: nat, page: Page, dirty: bool, pins: nat)

  function IndexOf(s: seq<Slot>, pid: nat): (i: nat)
    ensures i <= |s| && (i < |s| ==> s[i].pid == pid) && forall k :: 0 <= k < i ==> s[k].pid != pid
  {
    if s == [] || s[0].pid == pid then 0 else 1 + IndexOf(s[1..], pid)
  }

  /** What a reader of the pool sees: the pooled page, or else the page on disk. */
  ghost function ViewOf(s: seq<Slot>, pages: seq<seq<Byte>>, pid: nat): Option<Page>
    requires pid < |pages| && forall p :: 0 <= p < |pages| ==> |pages[p]| >= FILE_HEADER_SIZE
  {
    var i := IndexOf(s, pid);
    if i < |s| then Some(s[i].page) else ParsePage(pages[pid])
  }

  /** A page that can be written back as it is. */
  ghost predicate Writable(slot: Slot, pageSize: nat, freeList: seq<nat>)
    requires PageSizeOk(pageSize)
  {
    slot.page.pid == slot.pid && Packable(slot.page) && |slot.page.body| <= BodyRoom(pageSize) && slot.pid !in freeList
  }

  ghost predicate Sized(pages: seq<seq<Byte>>, pageSize: nat) {
    PageSizeOk(pageSize) && forall p :: 0 <= p < |pages| ==> |pages[p]| == pageSize
  }

  /** One slot is right: a page that is not dirty is the page on disk, and a dirty one can be written back. */
  ghost predicate SlotOk(slot: Slot, pages: seq<seq<Byte>>, pageSize: nat, freeList: seq<nat>)
    requires Sized(pages, pageSize)
  {
    && slot.pid < |pages|
    && (if slot.dirty then Writable(slot, pageSize, freeList) else ParsePage(pages[slot.pid]) == Some(slot.page))
  }

  ghost predicate Coherent(s: seq<Slot>, pages: seq<seq<Byte>>, pageSize: nat, freeList: seq<nat>) {
    && Sized(pages, pageSize)
    && (forall i, k :: 0 <= i < k < |s| ==> s[i].pid != s[k].pid)
    && (forall i :: 0 <= i < |s| ==> SlotOk(s[i], pages, pageSize, freeList))
  }

  ghost predicate SameView(s: seq<Slot>, pages: seq<seq<Byte>>, s': seq<Slot>, pages': seq<seq<Byte>>, pageSize: nat)
    requires Sized(pages, pageSize) && Sized(pages', pageSize) && |pages| == |pages'|
  {
    forall pid :: 0 <= pid < |pages| ==> ViewOf(s', pages', pid) == ViewOf(s, pages, pid)
  }

  /** Readers of one page see this page now, and readers of any other what they saw before. */
  ghost predicate Shows(s: seq<Slot>, pages: seq<seq<Byte>>, s': seq<Slot>, pages': seq<seq<Byte>>, pageSize: nat,
                        page: Page)
    requires Sized(pages, pageSize) && Sized(pages', pageSize) && |pages| == |pages'| && page.pid < |pages|
  {
    forall pid :: 0 <= pid < |pages| ==>
        ViewOf(s', pages', pid) == if pid == page.pid then Some(page) else ViewOf(s, pages, pid)
  }

  /** The disk has what the readers see. */
  ghost predicate DiskIsView(s: seq<Slot>, pages: seq<seq<Byte>>, pageSize: nat)
    requires Sized(pages, pageSize)
  {
    forall pid :: 0 <= pid < |pages| ==> ParsePage(pages[pid]) == ViewOf(s, pages, pid)
  }

  /** Writing a dirty page back and calling it clean changes nothing for a reader. */
  lemma WriteBack(s: seq<Slot>, pages: seq<seq<Byte>>, pageSize: nat, freeList: seq<nat>, i: nat)
    requires Coherent(s, pages, pageSize, freeList) && i < |s| && s[i].dirty
    ensures
      var pages' := pages[s[i].pid := RawPage(s[i].page, pageSize)];
      var s' := s[i := s[i].(dirty := false)];
      && Coherent(s', pages', pageSize, freeList) && SameView(s, pages, s', pages', pageSize)
      && ParsePage(pages'[s[i].pid]) == Some(s[i].page)
  {
    hide ParsePage, RawPage;
    assert SlotOk(s[i], pages, pageSize, freeList);
    PageSurvives(s[i].page, pageSize);
    var pages' := pages[s[i].pid := RawPage(s[i].page, pageSize)];
    var s' := s[i := s[i].(dirty := false)];
    forall k | 0 <= k < |s| ensures SlotOk(s'[k], pages', pageSize, freeList) {
      assert SlotOk(s[k], pages, pageSize, freeList);
    }
    forall pid | 0 <= pid < |pages| ensures ViewOf(s', pages', pid) == ViewOf(s, pages, pid) {
      SamePids(s, s', pid);
    }
  }

  lemma SamePids(s: seq<Slot>, s': seq<Slot>, pid: nat)
    requires |s| == |s'| && forall i :: 0 <= i < |s| ==> s'[i].pid == s[i].pid
    ensures IndexOf(s', pid) == IndexOf(s, pid)
  {
  }

  /** Dropping a clean page changes nothing for a reader. */
  lemma DropClean(s: seq<Slot>, pages: seq<seq<Byte>>, pageSize: nat, freeList: seq<nat>, i: nat)
    requires Coherent(s, pages, pageSize, freeList) && i < |s| && !s[i].dirty
    ensures Coherent(s[..i] + s[i + 1..], pages, pageSize, freeList)
    ensures SameView(s, pages, s[..i] + s[i + 1..], pages, pageSize)
  {
    hide ParsePage, IndexOf, SlotOk;
    var s' := s[..i] + s[i + 1..];
    assert SlotOk(s[i], pages, pageSize, freeList);
    forall k | 0 <= k < |s'| ensures s'[k] == s[if k < i then k else k + 1] {
    }
    forall pid | 0 <= pid < |pages| ensures ViewOf(s', pages, pid) == ViewOf(s, pages, pid) {
      IndexWithout(s, i, pid);
      CleanIsDisk(s[i], pages, pageSize, freeList);
    }
  }

  lemma CleanIsDisk(slot: Slot, pages: seq<seq<Byte>>, pageSize: nat, freeList: seq<nat>)
    requires Sized(pages, pageSize) && SlotOk(slot, pages, pageSize, freeList) && !slot.dirty
    ensures slot.pid < |pages| && |pages[slot.pid]| >= FILE_HEADER_SIZE && ParsePage(pages[slot.pid]) == Some(slot.page)
  {
  }

  lemma IndexWithout(s: seq<Slot>, i: nat, pid: nat)
    requires i < |s| && forall a, b :: 0 <= a < b < |s| ==> s[a].pid != s[b].pid
    ensures
      var s' := s[..i] + s[i + 1..];
      if pid == s[i].pid then IndexOf(s, pid) == i && IndexOf(s', pid) == |s'|
      else if IndexOf(s, pid) == |s| then IndexOf(s', pid) == |s'|
      else IndexOf(s', pid) < |s'| && s'[IndexOf(s', pid)] == s[IndexOf(s, pid)]
  {
    var s' := s[..i] + s[i + 1..];
    var at := IndexOf(s, pid);
    forall k | 0 <= k < |s'| ensures s'[k] == s[if k < i then k else k + 1] {
    }
    if at < |s| && at != i {
      assert s'[if at < i then at else at - 1] == s[at];
    }
  }

  /** Pooling a page that was just read changes nothing for a reader. */
  lemma AddRead(s: seq<Slot>, pages: seq<seq<Byte>>, pageSize: nat, freeList: seq<nat>, pid: nat, page: Page)
    requires Coherent(s, pages, pageSize, freeList) && pid < |pages| && IndexOf(s, pid) == |s|
    requires ParsePage(pages[pid]) == Some(page)
    ensures
      var s' := s + [Slot(pid, page, false, 0)];
      Coherent(s', pages, pageSize, freeList) && SameView(s, pages, s', pages, pageSize)
  {
    hide ParsePage;
    var s' := s + [Slot(pid, page, false, 0)];
    forall p | 0 <= p < |pages| ensures ViewOf(s', pages, p) == ViewOf(s, pages, p) {
      IndexAppended(s, Slot(pid, page, false, 0), p);
    }
  }

  lemma IndexAppended(s: seq<Slot>, slot: Slot, pid: nat)
    ensures IndexOf(s + [slot], pid)
         == if IndexOf(s, pid) < |s| then IndexOf(s, pid) else if slot.pid == pid then |s| else |s| + 1
  {
    var s' := s + [slot];
    var at, at' := IndexOf(s, pid), IndexOf(s', pid);
    assert at < |s| ==> s'[at].pid == pid;
    assert at' < |s| ==> s[at'] == s'[at'];
    assert s'[|s|] == slot;
  }

  /** The oldest page that is not pinned; the number of pages when all are. */
  function FirstUnpinned(s: seq<Slot>): (i: nat)
    ensures i <= |s| && (i < |s| ==> s[i].pins == 0) && forall k :: 0 <= k < i ==> s[k].pins > 0
  {
    if s == [] || s[0].pins == 0 then 0 else 1 + FirstUnpinned(s[1..])
  }

  lemma IsFirstUnpinned(s: seq<Slot>, i: nat)
    requires i <= |s| && (i < |s| ==> s[i].pins == 0) && forall k :: 0 <= k < i ==> s[k].pins > 0
    ensures FirstUnpinned(s) == i
  {
  }

  lemma SameViewTrans(s: seq<Slot>, pages: seq<seq<Byte>>, s1: seq<Slot>, pages1: seq<seq<Byte>>, s2: seq<Slot>,
                      pages2: seq<seq<Byte>>, pageSize: nat)
    requires Sized(pages, pageSize) && Sized(pages1, pageSize) && Sized(pages2, pageSize)
    requires |pages| == |pages1| == |pages2|
    requires SameView(s, pages, s1, pages1, pageSize) && SameView(s1, pages1, s2, pages2, pageSize)
    ensures SameView(s, pages, s2, pages2, pageSize)
  {
    hide ViewOf;
  }

  // ---- The pool

  /** An entry is shared between the pool and the handles given out for it. */
  class PoolEntry {
    var page: Page
    var dirty: bool
    var pins: nat

    constructor (page: Page, dirty: bool)
      ensures this.page == page && this.dirty == dirty && pins == 0
    {
      this.page, this.dirty, pins := page, dirty, 0;
    }
  }

  class BufferPool {
    const store: FileStore
    const capacity: nat
    /** The dictionary, oldest entry first. */
    var pids: seq<nat>
    var entries: seq<PoolEntry>

    ghost predicate OwnEntries()
      reads this
    {
      forall i, k :: 0 <= i < k < |entries| ==> entries[i] != entries[k]
    }

    ghost function Slots(): (s: seq<Slot>)
      requires |pids| == |entries|
      reads this, entries
      ensures |s| == |pids|
      ensures forall i :: 0 <= i < |s| ==> s[i] == Slot(pids[i], entries[i].page, entries[i].dirty, entries[i].pins)
    {
      SlotsFrom(0)
    }

    ghost function SlotsFrom(n: nat): (s: seq<Slot>)
      requires |pids| == |entries| && n <= |pids|
      reads this, entries
      ensures |s| == |pids| - n
      ensures forall i :: 0 <= i < |s| ==>
                s[i] == Slot(pids[n + i], entries[n + i].page, entries[n + i].dirty, entries[n + i].pins)
      decreases |pids| - n
    {
      if n == |pids| then []
      else [Slot(pids[n], entries[n].page, entries[n].dirty, entries[n].pins)] + SlotsFrom(n + 1)
    }

    /** Every entry has its place, whatever the pages in them are. */
    ghost predicate Placed()
      reads this, store
    {
      |pids| == |entries| && OwnEntries() && store.Valid() && |entries| <= capacity
    }

    ghost predicate Valid()
      reads this, entries, store
    {
      Placed() && Coherent(Slots(), store.pages, store.pageSize, store.freeList)
    }

    constructor (store: FileStore, capacity: nat)
      requires store.Valid()
      ensures Valid() && this.store == store && this.capacity == capacity && entries == []
    {
      this.store, this.capacity, pids, entries := store, capacity, [], [];
    }

    /** Writes an entry's page back if it is dirty. */
    method Clean(e: PoolEntry, ghost i: nat)
      requires Valid() && i < |entries| && entries[i] == e
      modifies e`dirty, store`pages
      ensures Valid() && |store.pages| == old(|store.pages|) && !e.dirty
      ensures ParsePage(store.pages[pids[i]]) == Some(e.page)
      ensures Slots() == old(Slots())[i := old(Slots())[i].(dirty := false)]
      ensures SameView(old(Slots()), old(store.pages), Slots(), store.pages, store.pageSize)
    {
      hide IndexOf, RawPage, ParsePage, FreeChain, SlotsFrom;
      if e.dirty {
        assert SlotOk(Slots()[i], store.pages, store.pageSize, store.freeList);
        WriteBack(Slots(), store.pages, store.pageSize, store.freeList, i);
        store.WritePage(e.page);
        e.dirty := false;
        assert Slots() == old(Slots())[i := old(Slots())[i].(dirty := false)];
      }
      CleanIsDisk(Slots()[i], store.pages, store.pageSize, store.freeList);
    }

    /** Takes an entry out of the pool, and what it has for the disk to the disk. */
    method Evict(i: nat)
      requires Valid() && i < |entries|
      modifies this`pids, this`entries, entries, store`pages
      ensures Valid() && |store.pages| == old(|store.pages|)
      ensures SameView(old(Slots()), old(store.pages), Slots(), store.pages, store.pageSize)
      ensures pids == old(pids)[..i] + old(pids)[i + 1..] && entries == old(entries)[..i] + old(entries)[i + 1..]
      ensures forall e :: e in old(entries) ==> e.pins == old(e.pins) && e.page == old(e.page)
    {
      hide IndexOf, RawPage, ParsePage, FreeChain, SlotsFrom, Coherent, SameView;
      ghost var before, pagesBefore := Slots(), store.pages;
      CoherentSized(before, pagesBefore, store.pageSize, store.freeList);
      Clean(entries[i], i);
      ghost var clean := Slots();
      CoherentSized(clean, store.pages, store.pageSize, store.freeList);
      DropClean(clean, store.pages, store.pageSize, store.freeList, i);
      pids := pids[..i] + pids[i + 1..];
      entries := entries[..i] + entries[i + 1..];
      assert Slots() == clean[..i] + clean[i + 1..];
      SameViewTrans(before, pagesBefore, clean, store.pages, Slots(), store.pages, store.pageSize);
    }

    /** Makes room for one more: the oldest entry that is not pinned goes. With every entry pinned this raises. */
    method EvictIfFull() returns (ok: bool)
      requires Valid()
      modifies this`pids, this`entries, entries, store`pages
      ensures Valid() && |store.pages| == old(|store.pages|)
      ensures SameView(old(Slots()), old(store.pages), Slots(), store.pages, store.pageSize)
      ensures ok ==> |entries| < capacity
      ensures forall e :: e in old(entries) && old(e.pins) > 0 ==> e in entries
      ensures !ok ==> forall e :: e in entries ==> e.pins > 0
      ensures
        var i := FirstUnpinned(old(Slots()));
        if old(|entries|) < capacity || i == old(|entries|) then
          && ok == (old(|entries|) < capacity)
          && entries == old(entries) && pids == old(pids) && store.pages == old(store.pages)
          && Slots() == old(Slots())
        else
          ok && pids == old(pids)[..i] + old(pids)[i + 1..] && entries == old(entries)[..i] + old(entries)[i + 1..]
      ensures forall e :: e in old(entries) ==> e.pins == old(e.pins) && e.page == old(e.page)
    {
      hide IndexOf, RawPage, ParsePage, FreeChain, SlotsFrom, Coherent, FirstUnpinned;
      CoherentSized(Slots(), store.pages, store.pageSize, store.freeList);
      if |entries| < capacity {
        return true;
      }
      var i := 0;
      while i < |entries| && entries[i].pins != 0
        invariant i <= |entries| && forall k :: 0 <= k < i ==> entries[k].pins > 0
      {
        i := i + 1;
      }
      IsFirstUnpinned(Slots(), i);
      if i < |entries| {
        Evict(i);
        ok := true;
      } else {
        ok := false;
      }
    }

    /** The pool's index of a page; the number of entries when it is not pooled. */
    method Find(pid: nat) returns (i: nat)
      requires Valid()
      ensures i <= |pids| && (if i < |pids| then pids[i] == pid else pid !in pids) && i == IndexOf(Slots(), pid)
    {
      hide Coherent, SlotsFrom, IndexOf, FreeChain;
      i := 0;
      while i < |pids| && pids[i] != pid
        invariant i <= |pids| && forall k :: 0 <= k < i ==> pids[k] != pid
      {
        i := i + 1;
      }
      IsIndex(Slots(), pid, i);
    }

    /** A handle for a page as a reader sees it. No pinned page leaves the pool for it. */
    method Get(pid: nat) returns (h: Option<PageHandle>)
      requires Valid() && pid < store.pageCount
      modifies this`pids, this`entries, entries, store`pages
      ensures Valid() && |store.pages| == old(|store.pages|)
      ensures SameView(old(Slots()), old(store.pages), Slots(), store.pages, store.pageSize)
      ensures h.Some? ==> exists i :: 0 <= i < |entries| && entries[i] == h.value.entry && pids[i] == pid
      ensures h.Some? ==> ViewOf(old(Slots()), old(store.pages), pid) == Some(h.value.entry.page)
      ensures forall e :: e in old(entries) && old(e.pins) > 0 ==> e in entries && e.pins == old(e.pins)
      ensures h.None? ==>
                ViewOf(old(Slots()), old(store.pages), pid) == None || forall e :: e in old(entries) ==> e.pins > 0
    {
      hide RawPage, ParsePage, FreeChain, SlotsFrom, FirstUnpinned, IndexOf, SlotOk, Coherent, SameView;
      ghost var before, pagesBefore := Slots(), store.pages;
      CoherentSized(before, pagesBefore, store.pageSize, store.freeList);
      var i := Find(pid);
      if i < |entries| {
        var handle := new PageHandle(entries[i]);
        SameViewSelf(before, pagesBefore, store.pageSize);
        return Some(handle);
      }
      var ok := EvictIfFull();
      if !ok {
        return None;
      }
      ghost var roomy := Slots();
      CoherentSized(roomy, store.pages, store.pageSize, store.freeList);
      ViewAt(before, pagesBefore, roomy, store.pages, store.pageSize, pid);
      h := LoadPage(pid);
      SameViewTrans(before, pagesBefore, roomy, store.pages, Slots(), store.pages, store.pageSize);
    }

    /** Reads a page that is not pooled into the room there is. */
    method LoadPage(pid: nat) returns (h: Option<PageHandle>)
      requires Valid() && pid < store.pageCount && |entries| < capacity && pid !in pids
      modifies this`pids, this`entries
      ensures Valid() && SameView(old(Slots()), store.pages, Slots(), store.pages, store.pageSize)
      ensures entries == old(entries) || exists e :: entries == old(entries) + [e]
      ensures h.Some? ==> exists i :: 0 <= i < |entries| && entries[i] == h.value.entry && pids[i] == pid
      ensures ViewOf(old(Slots()), store.pages, pid) == if h.Some? then Some(h.value.entry.page) else None
    {
      hide RawPage, ParsePage, FreeChain, SlotsFrom, IndexOf, SlotOk;
      NotPooled(Slots(), store.pages, pid);
      var page := store.ReadPage(pid);
      if page.None? {
        return None;
      }
      var entry := new PoolEntry(page.value, false);
      ghost var before := Slots();
      AddRead(before, store.pages, store.pageSize, store.freeList, pid, page.value);
      pids, entries := pids + [pid], entries + [entry];
      assert Slots() == before + [Slot(pid, page.value, false, 0)];
      var handle := new PageHandle(entry);
      assert entries[|entries| - 1] == handle.entry && pids[|entries| - 1] == pid;
      h := Some(handle);
    }

    /**
      * Puts a page into the pool, to be written later; an entry with its number is replaced where it stands.
      * The pool stays right exactly when the page can be written back as it is.
      */
    method Put(page: Page) returns (h: Option<PageHandle>)
      requires Valid() && page.pid < store.pageCount
      modifies this`pids, this`entries, entries, store`pages
      ensures Placed() && |store.pages| == old(|store.pages|)
      ensures h.None? ==> Valid() && SameView(old(Slots()), old(store.pages), Slots(), store.pages, store.pageSize)
      ensures h.Some? ==> h.value.entry.page == page && page.pid < |store.pages|
      ensures h.Some? ==> Shows(old(Slots()), old(store.pages), Slots(), store.pages, store.pageSize, page)
      ensures h.Some? ==> (Valid() <==> Writable(Slot(page.pid, page, true, 0), store.pageSize, store.freeList))
    {
      hide RawPage, ParsePage, FreeChain, SlotsFrom, FirstUnpinned, IndexOf, SlotOk, Coherent, SameView, Shows,
           Writable, Sized;
      ghost var first, pagesFirst := Slots(), store.pages;
      CoherentSized(first, pagesFirst, store.pageSize, store.freeList);
      var ok := EvictIfFull();
      if !ok {
        return None;
      }
      ghost var before := Slots();
      CoherentSized(before, store.pages, store.pageSize, store.freeList);
      ShowsAfter(first, pagesFirst, before, store.pages, store.pageSize, page);
      h := PutEntry(page);
    }

    /** The page under its number: in the place of the entry that is there, or as the newest. */
    method PutEntry(page: Page) returns (h: Option<PageHandle>)
      requires Valid() && page.pid < store.pageCount && |entries| < capacity
      modifies this`pids, this`entries
      ensures Placed() && h.Some? && h.value.entry.page == page
      ensures Valid() <==> Writable(Slot(page.pid, page, true, 0), store.pageSize, store.freeList)
      ensures Shows(old(Slots()), store.pages, Slots(), store.pages, store.pageSize, page)
    {
      hide RawPage, ParsePage, FreeChain, SlotsFrom, IndexOf, SlotOk, Coherent, Shows, Writable, Sized;
      ghost var before := Slots();
      CoherentSized(before, store.pages, store.pageSize, store.freeList);
      var i := Find(page.pid);
      var entry := new PoolEntry(page, true);
      var handle := new PageHandle(entry);
      ghost var slot := Slot(page.pid, page, true, 0);
      PutSlot(before, store.pages, store.pageSize, store.freeList, slot);
      if i < |entries| {
        entries := entries[i := entry];
        assert Slots() == before[i := slot];
      } else {
        pids, entries := pids + [page.pid], entries + [entry];
        assert Slots() == before + [slot];
      }
      h := Some(handle);
    }

    /**
      * What a client does through a handle: it changes the page's body and marks the page dirty. Readers see
      * the change exactly when the handle's entry is in the pool.
      */
    method ChangePage(h: PageHandle, body: seq<Byte>)
      requires Valid()
      modifies h.entry`page, h.entry`dirty
      ensures Placed() && h.entry.page == old(h.entry.page).(body := body)
      ensures h.entry !in entries ==> Valid() && Slots() == old(Slots())
      ensures forall i :: 0 <= i < |entries| && entries[i] == h.entry && h.entry.page.pid == pids[i] ==>
                && pids[i] < |store.pages|
                && Shows(old(Slots()), store.pages, Slots(), store.pages, store.pageSize, h.entry.page)
      ensures forall i :: 0 <= i < |entries| && entries[i] == h.entry ==>
                (Valid() <==> Writable(Slots()[i], store.pageSize, store.freeList))
    {
      hide RawPage, ParsePage, FreeChain, SlotsFrom, IndexOf, SlotOk, Coherent, Shows, Packable, BodyRoom;
      ghost var before := Slots();
      CoherentSized(before, store.pages, store.pageSize, store.freeList);
      h.entry.page := h.entry.page.(body := body);
      h.entry.dirty := true;
      if h.entry in entries {
        ghost var i :| 0 <= i < |entries| && entries[i] == h.entry;
        PidsDistinct(before, store.pages, store.pageSize, store.freeList, i);
        PutSlot(before, store.pages, store.pageSize, store.freeList, Slots()[i]);
        assert Slots() == before[i := Slots()[i]];
        assert forall k :: 0 <= k < |entries| && entries[k] == h.entry ==> k == i;
      } else {
        assert Slots() == before;
      }
    }

    /**
      * A change and a flush: the disk gets the change exactly when the handle's entry is in the pool, and what the
      * readers saw otherwise.
      */
    method ChangeThenFlush(h: PageHandle, body: seq<Byte>)
      requires Valid() && h.entry.page.pid < |store.pages|
      requires forall i :: 0 <= i < |entries| && entries[i] == h.entry ==>
                 Writable(Slot(pids[i], h.entry.page.(body := body), true, 0), store.pageSize, store.freeList)
      modifies h.entry`page, h.entry`dirty, entries`dirty, store`pages
      ensures Valid() && |store.pages| == old(|store.pages|) && h.entry.page == old(h.entry.page).(body := body)
      ensures if h.entry in entries
              then Shows(old(Slots()), old(store.pages), Slots(), store.pages, store.pageSize, h.entry.page)
              else SameView(old(Slots()), old(store.pages), Slots(), store.pages, store.pageSize)
      ensures DiskIsView(Slots(), store.pages, store.pageSize)
    {
      hide RawPage, ParsePage, FreeChain, SlotsFrom, IndexOf, SlotOk, Coherent, Shows, SameView, Packable, BodyRoom,
           DiskIsView;
      ghost var before, pagesBefore := Slots(), store.pages;
      CoherentSized(before, pagesBefore, store.pageSize, store.freeList);
      SameViewSelf(before, pagesBefore, store.pageSize);
      ChangePage(h, body);
      ghost var changed := Slots();
      FlushAll();
      CoherentSized(Slots(), store.pages, store.pageSize, store.freeList);
      if h.entry in entries {
        ghost var i :| 0 <= i < |entries| && entries[i] == h.entry;
        ShowsBefore(before, pagesBefore, changed, Slots(), store.pages, store.pageSize, h.entry.page);
      }
    }

    /** Writes every dirty page back; then the disk has what the readers see. */
    method FlushAll()
      requires Valid()
      modifies entries`dirty, store`pages
      ensures Valid() && |store.pages| == old(|store.pages|)
      ensures SameView(old(Slots()), old(store.pages), Slots(), store.pages, store.pageSize)
      ensures forall e :: e in entries ==> !e.dirty
      ensures DiskIsView(Slots(), store.pages, store.pageSize)
    {
      hide RawPage, ParsePage, FreeChain, SlotsFrom, IndexOf, SlotOk, Coherent, SameView, DiskIsView, Sized, OwnEntries;
      ghost var before, pagesBefore := Slots(), store.pages;
      CoherentSized(before, pagesBefore, store.pageSize, store.freeList);
      SameViewSelf(before, pagesBefore, store.pageSize);
      var i := 0;
      while i < |entries|
        invariant i <= |entries| && Valid() && |store.pages| == |pagesBefore| && Sized(store.pages, store.pageSize)
        invariant SameView(before, pagesBefore, Slots(), store.pages, store.pageSize)
        invariant forall k :: 0 <= k < i ==> !Slots()[k].dirty
      {
        ghost var now, pagesNow := Slots(), store.pages;
        Clean(entries[i], i);
        CoherentSized(Slots(), store.pages, store.pageSize, store.freeList);
        SameViewTrans(before, pagesBefore, now, pagesNow, Slots(), store.pages, store.pageSize);
        i := i + 1;
      }
      AllClean(Slots(), store.pages, store.pageSize, store.freeList);
    }
  }

  /** What a client holds: the entry itself, whether or not it is still in the pool. */
  class PageHandle {
    const entry: PoolEntry

    constructor (entry: PoolEntry)
      ensures this.entry == entry
    {
      this.entry := entry;
    }

    method Pin()
      modifies entry`pins
      ensures entry.pins == old(entry.pins) + 1
    {
      entry.pins := entry.pins + 1;
    }

    method Unpin()
      modifies entry`pins
      ensures entry.pins == Max(0, old(entry.pins) - 1)
    {
      if entry.pins > 0 {
        entry.pins := entry.pins - 1;
      }
    }
  }

  lemma NotPooled(s: seq<Slot>, pages: seq<seq<Byte>>, pid: nat)
    requires pid < |pages| && (forall p :: 0 <= p < |pages| ==> |pages[p]| >= FILE_HEADER_SIZE)
    requires forall k :: 0 <= k < |s| ==> s[k].pid != pid
    ensures IndexOf(s, pid) == |s| && ViewOf(s, pages, pid) == ParsePage(pages[pid])
  {
    hide ParsePage;
  }

  lemma SameViewSelf(s: seq<Slot>, pages: seq<seq<Byte>>, pageSize: nat)
    requires Sized(pages, pageSize)
    ensures SameView(s, pages, s, pages, pageSize)
  {
  }

  lemma ViewAt(s: seq<Slot>, pages: seq<seq<Byte>>, s': seq<Slot>, pages': seq<seq<Byte>>, pageSize: nat, pid: nat)
    requires Sized(pages, pageSize) && Sized(pages', pageSize) && |pages| == |pages'|
    requires SameView(s, pages, s', pages', pageSize)
    requires pid < |pages|
    ensures ViewOf(s', pages', pid) == ViewOf(s, pages, pid)
  {
  }

  /** A page put in the place of a slot with its number, or behind all others, is what readers of that page see. */
  lemma PutSlot(s: seq<Slot>, pages: seq<seq<Byte>>, pageSize: nat, freeList: seq<nat>, slot: Slot)
    requires Coherent(s, pages, pageSize, freeList) && slot.pid < |pages| && slot.dirty
    ensures
      var i := IndexOf(s, slot.pid);
      var s' := if i < |s| then s[i := slot] else s + [slot];
      && (Coherent(s', pages, pageSize, freeList) <==> Writable(slot, pageSize, freeList))
      && (slot.page.pid == slot.pid ==> Shows(s, pages, s', pages, pageSize, slot.page))
  {
    hide ParsePage, Packable, BodyRoom;
    PutCoherent(s, pages, pageSize, freeList, slot);
    var i := IndexOf(s, slot.pid);
    var s' := if i < |s| then s[i := slot] else s + [slot];
    forall pid | 0 <= pid < |pages|
      ensures ViewOf(s', pages, pid) == if pid == slot.pid then Some(slot.page) else ViewOf(s, pages, pid)
    {
      if i < |s| {
        SamePids(s, s', pid);
      } else {
        IndexAppended(s, slot, pid);
      }
    }
  }

  lemma PutCoherent(s: seq<Slot>, pages: seq<seq<Byte>>, pageSize: nat, freeList: seq<nat>, slot: Slot)
    requires Coherent(s, pages, pageSize, freeList) && slot.pid < |pages| && slot.dirty
    ensures
      var i := IndexOf(s, slot.pid);
      var s' := if i < |s| then s[i := slot] else s + [slot];
      Coherent(s', pages, pageSize, freeList) <==> Writable(slot, pageSize, freeList)
  {
    hide ParsePage, Writable;
    var i := IndexOf(s, slot.pid);
    var s' := if i < |s| then s[i := slot] else s + [slot];
    assert s'[i] == slot;
    assert SlotOk(slot, pages, pageSize, freeList) <==> Writable(slot, pageSize, freeList);
  }

  lemma ShowsBefore(s: seq<Slot>, pages: seq<seq<Byte>>, s1: seq<Slot>, s2: seq<Slot>, pages2: seq<seq<Byte>>,
                    pageSize: nat, page: Page)
    requires Sized(pages, pageSize) && Sized(pages2, pageSize) && |pages| == |pages2| && page.pid < |pages|
    requires Shows(s, pages, s1, pages, pageSize, page) && SameView(s1, pages, s2, pages2, pageSize)
    ensures Shows(s, pages, s2, pages2, pageSize, page)
  {
    hide ViewOf;
  }

  lemma ShowsAfter(s: seq<Slot>, pages: seq<seq<Byte>>, s1: seq<Slot>, pages1: seq<seq<Byte>>, pageSize: nat,
                   page: Page)
    requires Sized(pages, pageSize) && Sized(pages1, pageSize) && |pages| == |pages1| && page.pid < |pages|
    requires SameView(s, pages, s1, pages1, pageSize)
    ensures forall s2 :: Shows(s1, pages1, s2, pages1, pageSize, page) ==> Shows(s, pages, s2, pages1, pageSize, page)
  {
    hide ViewOf;
  }

  lemma PidsDistinct(s: seq<Slot>, pages: seq<seq<Byte>>, pageSize: nat, freeList: seq<nat>, i: nat)
    requires Coherent(s, pages, pageSize, freeList) && i < |s|
    ensures IndexOf(s, s[i].pid) == i && s[i].pid < |pages|
  {
    assert SlotOk(s[i], pages, pageSize, freeList);
  }

  lemma AllClean(s: seq<Slot>, pages: seq<seq<Byte>>, pageSize: nat, freeList: seq<nat>)
    requires Coherent(s, pages, pageSize, freeList) && forall i :: 0 <= i < |s| ==> !s[i].dirty
    ensures DiskIsView(s, pages, pageSize)
  {
    hide ParsePage;
    forall pid | 0 <= pid < |pages| ensures ParsePage(pages[pid]) == ViewOf(s, pages, pid) {
      var i := IndexOf(s, pid);
      if i < |s| {
        CleanIsDisk(s[i], pages, pageSize, freeList);
      }
    }
  }

  lemma IsIndex(s: seq<Slot>, pid: nat, i: nat)
    requires i <= |s| && (i < |s| ==> s[i].pid == pid) && forall k :: 0 <= k < i ==> s[k].pid != pid
    ensures IndexOf(s, pid) == i
  {
  }

  lemma CoherentSized(s: seq<Slot>, pages: seq<seq<Byte>>, pageSize: nat, freeList: seq<nat>)
    requires Coherent(s, pages, pageSize, freeList)
    ensures Sized(pages, pageSize)
  {
  }
}
