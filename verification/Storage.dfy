/** Fixed-size pages, the page file, and its last-in-first-out free list. */
module Storage {
  import opened Bytes

  const FILE_HEADER_SIZE: int := 11
  const PAGE_SIZE_MIN: int := 512
  const PAGE_SIZE_MAX: int := 65536

  datatype PageType = FreePageType | HeaderPageType | TablePageType | IndexPageType | OverflowPageType

  datatype Page = Page(pid: nat, pageType: PageType, lsn: nat, body: seq<Byte>)

  function TypeCode(t: PageType): Byte {
    match t
    case FreePageType => 0
    case HeaderPageType => 1
    case TablePageType => 2
    case IndexPageType => 3
    case OverflowPageType => 4
  }

  function TypeOf(code: Byte): Option<PageType> {
    if code == 0 then Some(FreePageType)
    else if code == 1 then Some(HeaderPageType)
    else if code == 2 then Some(TablePageType)
    else if code == 3 then Some(IndexPageType)
    else if code == 4 then Some(OverflowPageType)
    else None
  }

  /** What `struct.pack` accepts for a page header: it raises on any wider field. */
  predicate Packable(p: Page) {
    p.pid < U32_LIMIT && p.lsn < U32_LIMIT && |p.body| < U16_LIMIT
  }

  predicate PageSizeOk(pageSize: nat) { PAGE_SIZE_MIN <= pageSize <= PAGE_SIZE_MAX }

  /** Room for a page body; a longer body is cut off without an error. */
  function BodyRoom(pageSize: nat): nat
    requires PageSizeOk(pageSize)
  {
    pageSize - FILE_HEADER_SIZE
  }

  function PackHeader(p: Page): (r: seq<Byte>)
    requires Packable(p)
    ensures |r| == FILE_HEADER_SIZE
  {
    U32(p.pid) + [TypeCode(p.pageType)] + U32(p.lsn) + U16(|p.body|)
  }

  function PadBody(body: seq<Byte>, pageSize: nat): (r: seq<Byte>)
    requires PageSizeOk(pageSize)
    ensures |r| == BodyRoom(pageSize)
  {
    var room := BodyRoom(pageSize);
    if |body| >= room then body[..room] else body + Zeros(room - |body|)
  }

  /** The bytes that writing `p` puts at its place in the file. */
  function RawPage(p: Page, pageSize: nat): (raw: seq<Byte>)
    requires Packable(p) && PageSizeOk(pageSize)
    ensures |raw| == pageSize
  {
    PackHeader(p) + PadBody(p.body, pageSize)
  }

  /** The page read back from its bytes; `None` when the page type byte is unknown. */
  function ParsePage(raw: seq<Byte>): Option<Page>
    requires |raw| >= FILE_HEADER_SIZE
  {
    match TypeOf(raw[4])
    case None => None
    case Some(t) =>
      Some(Page(GetU32(raw[..4]), t, GetU32(raw[5..9]),
                Slice(raw, FILE_HEADER_SIZE, FILE_HEADER_SIZE + GetU16(raw[9..11]))))
  }

  /** A page comes back with its body cut to the room a page has, and otherwise as it was written. */
  lemma ParseOfRaw(p: Page, pageSize: nat)
    requires Packable(p) && PageSizeOk(pageSize)
    ensures ParsePage(RawPage(p, pageSize)) == Some(p.(body := Slice(p.body, 0, BodyRoom(pageSize))))
  {
    var raw := RawPage(p, pageSize);
    assert raw[..4] == U32(p.pid);
    assert raw[5..9] == U32(p.lsn);
    assert raw[9..11] == U16(|p.body|);
    assert raw[FILE_HEADER_SIZE..] == PadBody(p.body, pageSize);
    assert Slice(raw, FILE_HEADER_SIZE, FILE_HEADER_SIZE + |p.body|) == Slice(p.body, 0, BodyRoom(pageSize));
  }

  /** Exactly the pages whose body fits survive a write and a read. */
  lemma PageSurvives(p: Page, pageSize: nat)
    requires Packable(p) && PageSizeOk(pageSize)
    ensures ParsePage(RawPage(p, pageSize)) == Some(p) <==> |p.body| <= BodyRoom(pageSize)
  {
    ParseOfRaw(p, pageSize);
    assert |p.body| <= BodyRoom(pageSize) ==> Slice(p.body, 0, BodyRoom(pageSize)) == p.body;
  }

  /** What a free page looks like on disk: the next free page's number in the first four body bytes. */
  function FreeRaw(pid: nat, next: nat, pageSize: nat): (raw: seq<Byte>)
    requires pid < U32_LIMIT && next < U32_LIMIT && PageSizeOk(pageSize)
    ensures |raw| == pageSize && FreeLink(raw) == next
  {
    var raw := RawPage(Page(pid, FreePageType, 0, U32(next)), pageSize);
    assert raw[11..15] == U32(next);
    raw
  }

  function FreeLink(raw: seq<Byte>): nat
    requires |raw| >= 15
  {
    GetU32(raw[11..15])
  }

  ghost predicate Distinct<T(!new)>(s: seq<T>) { forall i, j :: 0 <= i < j < |s| ==> s[i] != s[j] }

  /** `list` names, from the head on, the pages linked through their first body bytes, ending at 0. */
  ghost predicate FreeChain(pages: seq<seq<Byte>>, head: nat, list: seq<nat>) {
    && head == (if list == [] then 0 else list[0])
    && Distinct(list)
    && (forall i :: 0 <= i < |list| ==> 0 < list[i] < |pages|)
    && (forall i :: 0 <= i < |list| ==>
          |pages[list[i]]| >= 15 && FreeLink(pages[list[i]]) == Next(list, i))
  }

  function Next(list: seq<nat>, i: nat): nat { if i + 1 < |list| then list[i + 1] else 0 }

  ghost predicate HasChain(pages: seq<seq<Byte>>, head: nat) { exists list :: FreeChain(pages, head, list) }

  lemma HeaderIsNotFree(pages: seq<seq<Byte>>, head: nat, list: seq<nat>)
    requires FreeChain(pages, head, list)
    ensures 0 !in list
  {
  }

  /** Writing a page that is not free leaves the chain as it is. */
  lemma FreeChainFrame(pages: seq<seq<Byte>>, pages': seq<seq<Byte>>, head: nat, list: seq<nat>)
    requires FreeChain(pages, head, list) && |pages| <= |pages'|
    requires forall p :: p in list ==> pages'[p] == pages[p]
    ensures FreeChain(pages', head, list)
  {
    forall i | 0 <= i < |list|
      ensures |pages'[list[i]]| >= 15
      ensures FreeLink(pages'[list[i]]) == Next(list, i)
    {
      assert list[i] in list;
    }
  }

  /** Taking the head off a chain leaves the chain that the head linked to. */
  lemma FreeChainTail(pages: seq<seq<Byte>>, head: nat, list: seq<nat>)
    requires FreeChain(pages, head, list) && list != []
    ensures FreeChain(pages, FreeLink(pages[head]), list[1..]) && head !in list[1..]
  {
    var rest := list[1..];
    forall i | 0 <= i < |rest|
      ensures rest[i] == list[i + 1] && 0 < rest[i] < |pages| && |pages[rest[i]]| >= 15
      ensures FreeLink(pages[rest[i]]) == Next(rest, i)
    {
      assert Next(rest, i) == Next(list, i + 1);
    }
  }

  /** A page that links to the head becomes the new head. */
  lemma FreeChainPush(pages: seq<seq<Byte>>, head: nat, list: seq<nat>, pid: nat, raw: seq<Byte>)
    requires FreeChain(pages, head, list)
    requires 0 < pid < |pages| && pid !in list
    requires |raw| >= 15 && FreeLink(raw) == head
    ensures FreeChain(pages[pid := raw], pid, [pid] + list)
  {
    var list', pages' := [pid] + list, pages[pid := raw];
    forall i | 0 <= i < |list'|
      ensures 0 < list'[i] < |pages'| && |pages'[list'[i]]| >= 15
      ensures FreeLink(pages'[list'[i]]) == Next(list', i)
    {
      if i > 0 {
        assert list'[i] == list[i - 1] && list[i - 1] in list;
        assert Next(list', i) == Next(list, i - 1);
      }
    }
  }

  /** Other bytes on one page keep the chain exactly when the page is not in it, or links on as before. */
  lemma FreeChainOverwritten(pages: seq<seq<Byte>>, head: nat, list: seq<nat>, pid: nat, raw: seq<Byte>)
    requires FreeChain(pages, head, list) && pid < |pages| && |raw| >= 15
    ensures FreeChain(pages[pid := raw], head, list) <==> (pid in list ==> FreeLink(raw) == FreeLink(pages[pid]))
  {
    if pid in list {
      var k: nat :| k < |list| && list[k] == pid;
      assert FreeLink(pages[list[k]]) == Next(list, k);
      forall i | 0 <= i < |list| && i != k
        ensures pages[pid := raw][list[i]] == pages[list[i]]
      {
      }
    } else {
      FreeChainFrame(pages, pages[pid := raw], head, list);
    }
  }

  /** A page that was free already and is put in front again closes a cycle: from then on no chain ends. */
  lemma FreedTwice(pages: seq<seq<Byte>>, head: nat, list: seq<nat>, pid: nat, raw: seq<Byte>)
    requires FreeChain(pages, head, list) && pid in list && pid < |pages|
    requires |raw| >= 15 && FreeLink(raw) == head
    ensures !HasChain(pages[pid := raw], pid)
  {
    var k: nat :| k < |list| && list[k] == pid;
    if HasChain(pages[pid := raw], pid) {
      var chain :| FreeChain(pages[pid := raw], pid, chain);
      ChainFollowsCycle(pages, head, list, pid, raw, chain, k);
    }
  }

  lemma {:induction false} ChainFollowsCycle(pages: seq<seq<Byte>>, head: nat, list: seq<nat>, pid: nat, raw: seq<Byte>,
                                             chain: seq<nat>, k: nat)
    requires FreeChain(pages, head, list) && pid < |pages| && |raw| >= 15 && FreeLink(raw) == head
    requires k < |list| && forall i :: 0 <= i < k ==> list[i] != pid
    requires pid != 0 && FreeChain(pages[pid := raw], pid, chain)
    ensures k + 1 < |chain| && chain[k + 1] == list[k]
    decreases k
  {
    assert FreeLink(pages[pid := raw][chain[0]]) == Next(chain, 0);
    if k > 0 {
      ChainFollowsCycle(pages, head, list, pid, raw, chain, k - 1);
      assert FreeLink(pages[pid := raw][chain[k]]) == Next(chain, k);
      assert FreeLink(pages[list[k - 1]]) == Next(list, k - 1);
    }
  }

  /** The page file: `pages[p]` holds the `pageSize` bytes at offset `p * pageSize`. */
  class FileStore {
    const pageSize: nat
    var pages: seq<seq<Byte>>
    var pageCount: nat
    var freeHead: nat
    ghost var freeList: seq<nat>

    ghost predicate Valid()
      reads this
    {
      && PageSizeOk(pageSize)
      && 1 <= pageCount == |pages| <= U32_LIMIT
      && (forall p :: 0 <= p < |pages| ==> |pages[p]| == pageSize)
      && FreeChain(pages, freeHead, freeList)
    }

    /** A new file holds only the header page, here with the body it is given. */
    constructor (pageSize: nat, headerBody: seq<Byte>)
      requires PageSizeOk(pageSize) && |headerBody| <= BodyRoom(pageSize)
      ensures Valid() && this.pageSize == pageSize
      ensures pages == [RawPage(Page(0, HeaderPageType, 0, headerBody), pageSize)] && freeList == []
    {
      this.pageSize := pageSize;
      pages := [RawPage(Page(0, HeaderPageType, 0, headerBody), pageSize)];
      pageCount, freeHead, freeList := 1, 0, [];
    }

    method ReadPage(pid: nat) returns (p: Option<Page>)
      requires Valid() && pid < pageCount
      ensures p == ParsePage(pages[pid])
    {
      p := ParsePage(pages[pid]);
    }

    /**
      * Writes a page of the file. A free page written over keeps its place in the free list only if its link is as
      * before.
      */
    method WritePage(p: Page)
      requires Valid() && Packable(p) && p.pid < pageCount
      modifies this`pages
      ensures pages == old(pages)[p.pid := RawPage(p, pageSize)]
      ensures Valid() <==> (p.pid in freeList ==> FreeLink(pages[p.pid]) == FreeLink(old(pages)[p.pid]))
    {
      pages := pages[p.pid := RawPage(p, pageSize)];
      FreeChainOverwritten(old(pages), freeHead, freeList, p.pid, pages[p.pid]);
    }

    /** Takes the most recently freed page, or extends the file when none is free. */
    method AllocPage(pageType: PageType) returns (pid: nat)
      requires Valid()
      requires freeList == [] ==> pageCount < U32_LIMIT
      modifies this
      ensures Valid() && 0 < pid < pageCount && pid !in freeList
      ensures old(freeList) != [] ==>
                && pid == old(freeList)[0] && freeList == old(freeList)[1..] && pageCount == old(pageCount)
                && pages == old(pages)[pid := RawPage(Page(pid, pageType, 0, []), pageSize)]
      ensures old(freeList) == [] ==>
                && pid == old(pageCount) && freeList == [] && pageCount == old(pageCount) + 1
                && pages == old(pages) + [RawPage(Page(pid, pageType, 0, []), pageSize)]
    {
      if freeHead != 0 {
        FreeChainTail(pages, freeHead, freeList);
        pid := freeHead;
        var raw := pages[pid];
        freeHead := GetU32(raw[11..15]);
        freeList := freeList[1..];
        WritePage(Page(pid, pageType, 0, []));
      } else {
        pid := pageCount;
        pageCount := pageCount + 1;
        pages := pages + [RawPage(Page(pid, pageType, 0, []), pageSize)];
        FreeChainFrame(old(pages), pages, freeHead, freeList);
      }
    }

    /** Puts a page at the head of the free list; the header page is refused, a page that is free already is not. */
    method FreePage(pid: nat) returns (ok: bool)
      requires Valid() && pid < pageCount
      modifies this
      ensures ok == (pid != 0) && pageCount == old(pageCount)
      ensures !ok ==> Valid() && pages == old(pages) && freeHead == old(freeHead) && freeList == old(freeList)
      ensures ok ==> freeHead == pid && freeList == [pid] + old(freeList)
      ensures ok ==> pages == old(pages)[pid := FreeRaw(pid, old(freeHead), pageSize)]
      ensures ok ==> (Valid() <==> pid !in old(freeList))
      ensures ok && pid in old(freeList) ==> !HasChain(pages, freeHead)
    {
      if pid == 0 {
        return false;
      }
      var raw := FreeRaw(pid, freeHead, pageSize);
      if pid in freeList {
        FreedTwice(pages, freeHead, freeList, pid, raw);
      } else {
        FreeChainPush(pages, freeHead, freeList, pid, raw);
      }
      pages := pages[pid := raw];
      freeHead := pid;
      freeList := [pid] + freeList;
      ok := true;
    }
  }
}
