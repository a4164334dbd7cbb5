// Pages in one file (src/storage/file_page_store.cpp:38-234, src/storage/page_store.h:54-81).
module PageStore {
  import opened Wrappers
  import opened Bytes
  import opened Checksums
  import Records
  import Crc32

  const PAGE_SIZE: nat := 4096
  const HEADER_SIZE: nat := 48
  const MAGIC: U32 := 0x47524148
  const INVALID_PAGE_ID: nat := 0

  type PageId = nat

  datatype Failure = IoError | InvalidArgument

  // ----- What write_page makes of the page it is given -----

  function Put(data: seq<Byte>, at: nat, field: seq<Byte>): (r: seq<Byte>)
    requires at + |field| <= |data|
    ensures |r| == |data|
  {
    data[..at] + field + data[at + |field|..]
  }

  /** The page with magic number and id filled in and the checksum field cleared. */
  function Stamped(id: U64, data: seq<Byte>): (page: seq<Byte>)
    requires |data| == PAGE_SIZE
    ensures |page| == PAGE_SIZE
  {
    Put(Put(Put(data, 0, Records.LittleEndian(MAGIC, 4)), 24, Records.LittleEndian(id, 8)), 12, Records.LittleEndian(0, 4))
  }

  function Sealed(id: U64, data: seq<Byte>): (page: seq<Byte>)
    requires |data| == PAGE_SIZE
    ensures |page| == PAGE_SIZE
  {
    var stamped := Stamped(id, data);
    Put(stamped, 12, Records.LittleEndian(Checksum(stamped), 4))
  }

  /** The checksum field holds the checksum of the page with that field cleared. */
  ghost predicate ChecksumOk(page: seq<Byte>) {
    |page| == PAGE_SIZE && Records.Read32(page[12..]) == Checksum(Put(page, 12, Records.LittleEndian(0, 4)))
  }

  lemma PutAt(data: seq<Byte>, at: nat, field: seq<Byte>, from: nat, to: nat)
    requires at + |field| <= |data| && from <= to <= |data|
    ensures to <= at || at + |field| <= from ==> Put(data, at, field)[from..to] == data[from..to]
    ensures Put(data, at, field)[at..at + |field|] == field
  {
  }

  /** Only the fields magic, checksum and page id change. */
  lemma SealedKeeps(id: U64, data: seq<Byte>)
    requires |data| == PAGE_SIZE
    ensures Sealed(id, data)[4..12] == data[4..12]
    ensures Sealed(id, data)[16..24] == data[16..24]
    ensures Sealed(id, data)[32..] == data[32..]
  {
    hide Put, Checksum, Records.LittleEndian;
    var a := Put(data, 0, Records.LittleEndian(MAGIC, 4));
    var b := Put(a, 24, Records.LittleEndian(id, 8));
    var c := Put(b, 12, Records.LittleEndian(0, 4));
    var last := Records.LittleEndian(Checksum(c), 4);
    var d := Put(c, 12, last);
    PutAt(data, 0, Records.LittleEndian(MAGIC, 4), 4, 12);
    PutAt(data, 0, Records.LittleEndian(MAGIC, 4), 16, 24);
    PutAt(data, 0, Records.LittleEndian(MAGIC, 4), 32, PAGE_SIZE);
    PutAt(a, 24, Records.LittleEndian(id, 8), 4, 12);
    PutAt(a, 24, Records.LittleEndian(id, 8), 16, 24);
    PutAt(a, 24, Records.LittleEndian(id, 8), 32, PAGE_SIZE);
    PutAt(b, 12, Records.LittleEndian(0, 4), 4, 12);
    PutAt(b, 12, Records.LittleEndian(0, 4), 16, 24);
    PutAt(b, 12, Records.LittleEndian(0, 4), 32, PAGE_SIZE);
    PutAt(c, 12, last, 4, 12);
    PutAt(c, 12, last, 16, 24);
    PutAt(c, 12, last, 32, PAGE_SIZE);
    assert d[32..] == d[32..PAGE_SIZE] && data[32..] == data[32..PAGE_SIZE];
  }

  /** A page written has the magic number at its beginning and its own id at byte 24. */
  lemma SealedStamps(id: U64, data: seq<Byte>)
    requires |data| == PAGE_SIZE
    ensures Records.Read32(Sealed(id, data)) == 0x47524148
    ensures Records.Read64(Sealed(id, data)[24..]) == id
  {
    hide Put, Checksum, Records.LittleEndian, Records.Read32, Records.Read64;
    var magic, number := Records.LittleEndian(MAGIC, 4), Records.LittleEndian(id, 8);
    var a := Put(data, 0, magic);
    var b := Put(a, 24, number);
    var c := Put(b, 12, Records.LittleEndian(0, 4));
    var last := Records.LittleEndian(Checksum(c), 4);
    var d := Put(c, 12, last);
    PutAt(data, 0, magic, 0, 4);
    PutAt(a, 24, number, 0, 4);
    PutAt(a, 24, number, 24, 32);
    PutAt(b, 12, Records.LittleEndian(0, 4), 0, 4);
    PutAt(b, 12, Records.LittleEndian(0, 4), 24, 32);
    PutAt(c, 12, last, 0, 4);
    PutAt(c, 12, last, 24, 32);
    assert d == magic + d[4..];
    assert d[24..] == number + d[32..];
    Records.Read32RoundTrip(MAGIC, d[4..]);
    Records.Read64RoundTrip(id, d[32..]);
  }

  lemma PutTwice(data: seq<Byte>, at: nat, f: seq<Byte>, g: seq<Byte>)
    requires at + |f| <= |data| && |f| == |g|
    ensures Put(Put(data, at, f), at, g) == Put(data, at, g)
  {
  }

  lemma ZeroField()
    ensures Records.LittleEndian(0, 4) == [0, 0, 0, 0]
  {
  }

  /** Every page written carries its own checksum. */
  lemma SealedChecks(id: U64, data: seq<Byte>)
    requires |data| == PAGE_SIZE
    ensures ChecksumOk(Sealed(id, data))
  {
    hide Put, Checksum, Records.LittleEndian, Records.Read32;
    var c := Stamped(id, data);
    var sum, zero := Records.LittleEndian(Checksum(c), 4), Records.LittleEndian(0, 4);
    var page := Put(c, 12, sum);
    PutTwice(c, 12, sum, zero);
    var b := Put(Put(data, 0, Records.LittleEndian(MAGIC, 4)), 24, Records.LittleEndian(id, 8));
    PutTwice(b, 12, zero, zero);
    PutAt(c, 12, sum, 12, 16);
    assert page[12..] == sum + page[16..];
    Records.Read32RoundTrip(Checksum(c), page[16..]);
  }

  /** The checksum is the CRC-32 of the page with the field cleared. */
  lemma SealedCrc(id: U64, data: seq<Byte>)
    requires |data| == PAGE_SIZE
    ensures var page := Sealed(id, data);
            Records.Read32(page[12..]) == Crc32.Calculate(Bits(page[..12] + [0, 0, 0, 0] + page[16..])) as int
  {
    hide Sealed, Records.LittleEndian, Records.Read32;
    SealedChecks(id, data);
    ZeroField();
    assert Put(Sealed(id, data), 12, [0, 0, 0, 0]) == Sealed(id, data)[..12] + [0, 0, 0, 0] + Sealed(id, data)[16..];
  }

  lemma PutBefore(head: seq<Byte>, rest: seq<Byte>, at: nat, field: seq<Byte>)
    requires at + |field| <= |head|
    ensures Put(head + rest, at, field) == Put(head, at, field) + rest
  {
    var whole := head + rest;
    assert whole[..at] == head[..at] && whole[at + |field|..] == head[at + |field|..] + rest;
  }

  lemma PutAfter(head: seq<Byte>, rest: seq<Byte>, at: nat, field: seq<Byte>)
    requires |head| <= at && at + |field| <= |head| + |rest|
    ensures Put(head + rest, at, field) == head + Put(rest, at - |head|, field)
  {
    var whole, k := head + rest, at - |head|;
    assert whole[..at] == head + rest[..k] && whole[at + |field|..] == rest[k + |field|..];
  }

  lemma ThreeParts(head: seq<Byte>, a: seq<Byte>, tail: seq<Byte>)
    ensures head + a + tail == head + (a + tail)
  {
  }

  lemma Read32Local(page: seq<Byte>, other: seq<Byte>)
    requires |page| == |other| >= 16 && page[12..16] == other[12..16]
    ensures Records.Read32(page[12..]) == Records.Read32(other[12..])
  {
    assert page[12..][..4] == page[12..16] && other[12..][..4] == other[12..16];
  }

  /** The checksum tells a page from one that differs within four bytes outside the checksum field. */
  lemma CorruptionDetected(head: seq<Byte>, a: seq<Byte>, b: seq<Byte>, tail: seq<Byte>)
    requires |a| == |b| <= 4 && (|head| >= 16 || |head| + |a| <= 12)
    requires ChecksumOk(head + a + tail)
    ensures ChecksumOk(head + b + tail) <==> a == b
  {
    hide Checksum, Records.Read32, Put, Records.LittleEndian;
    var zero := Records.LittleEndian(0, 4);
    if ChecksumOk(head + b + tail) {
      Read32Local(head + a + tail, head + b + tail);
      ThreeParts(head, a, tail);
      ThreeParts(head, b, tail);
      if |head| >= 16 {
        PutBefore(head, a + tail, 12, zero);
        PutBefore(head, b + tail, 12, zero);
        ThreeParts(Put(head, 12, zero), a, tail);
        ThreeParts(Put(head, 12, zero), b, tail);
        ChecksumDetects(Put(head, 12, zero), a, b, tail);
      } else {
        PutAfter(head + a, tail, 12, zero);
        PutAfter(head + b, tail, 12, zero);
        ChecksumDetects(head, a, b, Put(tail, 12 - |head| - |a|, zero));
      }
    }
  }

  // ----- The file -----

  /** The bytes of one page of the file. */
  function Slot(file: seq<Byte>, id: PageId): seq<Byte>
    requires (id + 1) * PAGE_SIZE <= |file|
  {
    file[id * PAGE_SIZE..(id + 1) * PAGE_SIZE]
  }

  function Zeros(n: nat): (zeros: seq<Byte>)
    ensures |zeros| == n
  {
    seq(n, _ => 0)
  }

  /** The file with the data at the offset; a gap before it is filled with zeros. */
  function WriteAt(file: seq<Byte>, offset: nat, data: seq<Byte>): seq<Byte> {
    if offset >= |file| then file + Zeros(offset - |file|) + data
    else if offset + |data| <= |file| then Put(file, offset, data)
    else file[..offset] + data
  }

  /** What a read of one page gives: bytes beyond the end of the file are zero. */
  function ReadAt(file: seq<Byte>, offset: nat): seq<Byte> {
    if offset >= |file| then Zeros(PAGE_SIZE)
    else if offset + PAGE_SIZE <= |file| then file[offset..offset + PAGE_SIZE]
    else file[offset..] + Zeros(PAGE_SIZE - (|file| - offset))
  }

  ghost predicate Holds(file: seq<Byte>, pages: map<PageId, seq<Byte>>) {
    forall id :: id in pages ==> (id + 1) * PAGE_SIZE <= |file| && pages[id] == Slot(file, id)
  }

  lemma HoldsLonger(file: seq<Byte>, longer: seq<Byte>, pages: map<PageId, seq<Byte>>)
    requires Holds(file, pages) && |file| <= |longer| && longer[..|file|] == file
    ensures Holds(longer, pages)
  {
    forall id | id in pages ensures pages[id] == Slot(longer, id) {
      assert longer[..|file|][id * PAGE_SIZE..(id + 1) * PAGE_SIZE] == longer[id * PAGE_SIZE..(id + 1) * PAGE_SIZE];
    }
  }

  lemma HoldsNew(file: seq<Byte>, longer: seq<Byte>, pages: map<PageId, seq<Byte>>, id: PageId)
    requires Holds(file, pages) && |file| <= |longer| && longer[..|file|] == file && (id + 1) * PAGE_SIZE <= |longer|
    ensures Holds(longer, pages[id := Slot(longer, id)])
  {
    HoldsLonger(file, longer, pages);
  }

  /** Writing one page leaves every other page as it was. */
  lemma HoldsWritten(file: seq<Byte>, pages: map<PageId, seq<Byte>>, id: PageId, page: seq<Byte>)
    requires Holds(file, pages) && id in pages && |page| == PAGE_SIZE
    ensures Holds(WriteAt(file, id * PAGE_SIZE, page), pages[id := page])
  {
    hide Put;
    var written := WriteAt(file, id * PAGE_SIZE, page);
    assert written == Put(file, id * PAGE_SIZE, page);
    forall j | j in pages ensures pages[id := page][j] == Slot(written, j) {
      PutAt(file, id * PAGE_SIZE, page, j * PAGE_SIZE, (j + 1) * PAGE_SIZE);
    }
  }

  /** Where a page is written: from its id times 4096 on. */
  lemma WrittenSlot(file: seq<Byte>, id: PageId, page: seq<Byte>)
    requires id * 4096 + 4096 <= |file| && |page| == 4096
    ensures WriteAt(file, id * PAGE_SIZE, page) == file[..id * 4096] + page + file[id * 4096 + 4096..]
  {
  }

  class FilePageStore {
    var file: seq<Byte>
    var nextPageId: nat
    var freePages: set<PageId>
    var allocatedPages: nat
    var closed: bool
    ghost var pages: map<PageId, seq<Byte>>

    /** `pages` is what the file holds for the ids handed out, and these are allocated or free. */
    ghost predicate Valid()
      reads this
    {
      && 1 <= nextPageId <= RANGE_64 && |pages| == nextPageId - 1
      && (forall id :: id in pages <==> 1 <= id < nextPageId)
      && Holds(file, pages)
      && freePages <= pages.Keys && nextPageId - 1 == allocatedPages + |freePages|
    }

    /** A file that is already there keeps its bytes, but ids start at one again. */
    constructor (existing: seq<Byte>)
      ensures Valid() && pages == map[] && file == existing && !closed && freePages == {} && nextPageId == 1
    {
      file, nextPageId, freePages, allocatedPages, closed, pages := existing, 1, {}, 0, false, map[];
    }

    method Allocate() returns (result: Result<PageId, Failure>)
      requires Valid() && nextPageId < RANGE_64
      modifies this
      ensures Valid() && closed == old(closed) && nextPageId <= old(nextPageId) + 1
      ensures closed ==> result == Err(IoError) && pages == old(pages) && freePages == old(freePages) && file == old(file)
      ensures !closed && old(freePages) != {} ==>
                result.Ok? && result.value in old(freePages)
                && pages == old(pages) && freePages == old(freePages) - {result.value}
      ensures !closed && old(freePages) == {} ==>
                result == Ok(old(nextPageId)) && result.value !in old(pages) && result.value in pages
                && freePages == {} && pages == old(pages)[result.value := pages[result.value]]
                && result.value * 4096 + 4096 <= |file|
      ensures |file| >= |old(file)| && file[..|old(file)|] == old(file)
      ensures forall i :: |old(file)| <= i < |file| ==> file[i] == 0
    {
      if closed {
        return Err(IoError);
      }
      if freePages != {} {
        var reused := TakeFreePage();
        return Ok(reused);
      }
      var extended := AddPage();
      return Ok(extended);
    }

    method TakeFreePage() returns (pageId: PageId)
      requires Valid() && freePages != {}
      modifies this`freePages, this`allocatedPages
      ensures Valid() && pageId in old(freePages) && freePages == old(freePages) - {pageId}
    {
      hide Holds;
      pageId :| pageId in freePages;
      freePages := freePages - {pageId};
      allocatedPages := allocatedPages + 1;
    }

    method AddPage() returns (pageId: PageId)
      requires Valid() && nextPageId < RANGE_64
      modifies this
      ensures Valid() && closed == old(closed) && freePages == old(freePages) && nextPageId == old(nextPageId) + 1
      ensures pageId == old(nextPageId) && pageId !in old(pages) && pageId in pages
      ensures pages == old(pages)[pageId := pages[pageId]]
      ensures pageId * 4096 + 4096 <= |file| && |file| >= |old(file)| && file[..|old(file)|] == old(file)
      ensures forall i :: |old(file)| <= i < |file| ==> file[i] == 0
    {
      hide Holds, Slot;
      pageId := nextPageId;
      nextPageId := nextPageId + 1;
      EnsureFileSize((pageId + 1) * PAGE_SIZE);
      HoldsNew(old(file), file, pages, pageId);
      pages := pages[pageId := Slot(file, pageId)];
      allocatedPages := allocatedPages + 1;
    }

    method EnsureFileSize(required: nat)
      modifies this`file
      ensures |file| >= required && |file| >= |old(file)| && file[..|old(file)|] == old(file)
      ensures forall i :: |old(file)| <= i < |file| ==> file[i] == 0
    {
      if |file| < required {
        file := file + Zeros(required - |file|);
      }
    }

    method Deallocate(pageId: PageId) returns (result: Result<(), Failure>)
      requires Valid()
      modifies this`freePages, this`allocatedPages
      ensures Valid()
      ensures result == if closed then Err(IoError) else if pageId !in pages || pageId in old(freePages) then Err(InvalidArgument)
                        else Ok(())
      ensures freePages == old(freePages) + if result.Ok? then {pageId} else {}
    {
      if closed {
        return Err(IoError);
      }
      if pageId == INVALID_PAGE_ID || pageId >= nextPageId {
        return Err(InvalidArgument);
      }
      if pageId in freePages {
        return Err(InvalidArgument);
      }
      Release(pageId);
      return Ok(());
    }

    method Release(pageId: PageId)
      requires Valid() && pageId in pages && pageId !in freePages
      modifies this`freePages, this`allocatedPages
      ensures Valid() && freePages == old(freePages) + {pageId}
    {
      hide Holds;
      InUse(pageId);
      freePages := freePages + {pageId};
      allocatedPages := allocatedPages - 1;
    }

    lemma InUse(pageId: PageId)
      requires Valid() && pageId in pages && pageId !in freePages
      ensures allocatedPages > 0
    {
      hide Holds;
      SubsetSize(freePages, pages.Keys - {pageId});
    }

    method Read(pageId: PageId) returns (result: Result<seq<Byte>, Failure>)
      requires Valid()
      ensures result == if closed then Err(IoError) else if pageId !in pages then Err(InvalidArgument) else Ok(pages[pageId])
      ensures result.Ok? ==>
                pageId * 4096 + 4096 <= |file| && result.value == file[pageId * 4096..pageId * 4096 + 4096]
    {
      if closed {
        return Err(IoError);
      }
      if pageId == INVALID_PAGE_ID || pageId >= nextPageId {
        return Err(InvalidArgument);
      }
      return Ok(ReadAt(file, pageId * PAGE_SIZE));
    }

    method Write(pageId: PageId, data: seq<Byte>) returns (result: Result<(), Failure>)
      requires Valid()
      modifies this`file, this`pages
      ensures Valid()
      ensures result == if |data| != PAGE_SIZE then Err(InvalidArgument) else if closed then Err(IoError)
                        else if pageId !in pages then Err(InvalidArgument) else Ok(())
      ensures result.Ok? ==> pageId < RANGE_64 && pages == old(pages)[pageId := Sealed(pageId, data)]
      ensures result.Ok? ==>
                && |file| == |old(file)| && pageId * 4096 + 4096 <= |file|
                && file == old(file)[..pageId * 4096] + Sealed(pageId, data) + old(file)[pageId * 4096 + 4096..]
      ensures result.Err? ==> pages == old(pages) && file == old(file)
    {
      if |data| != PAGE_SIZE {
        return Err(InvalidArgument);
      }
      if closed {
        return Err(IoError);
      }
      if pageId == INVALID_PAGE_ID || pageId >= nextPageId {
        return Err(InvalidArgument);
      }
      hide Holds, WriteAt, Sealed;
      InFile(pageId);
      WrittenSlot(file, pageId, Sealed(pageId, data));
      WriteSlot(pageId, data);
      return Ok(());
    }

    lemma InFile(pageId: PageId)
      requires Valid() && pageId in pages
      ensures (pageId + 1) * PAGE_SIZE <= |file| && (pageId + 1) * PAGE_SIZE == pageId * 4096 + 4096
    {
    }

    method WriteSlot(pageId: PageId, data: seq<Byte>)
      requires Valid() && pageId in pages && |data| == PAGE_SIZE
      modifies this`file, this`pages
      ensures Valid() && pages == old(pages)[pageId := Sealed(pageId, data)]
      ensures file == WriteAt(old(file), pageId * PAGE_SIZE, Sealed(pageId, data))
    {
      hide Sealed, WriteAt, Holds, Put, Slot, Stamped;
      var sealed := Sealed(pageId, data);
      HoldsWritten(file, pages, pageId, sealed);
      file := WriteAt(file, pageId * PAGE_SIZE, sealed);
      pages := pages[pageId := sealed];
    }

    method Close()
      requires Valid()
      modifies this`closed
      ensures Valid() && closed
    {
      closed := true;
    }

    method PageCount() returns (n: nat)
      requires Valid()
      ensures n == |pages| == allocatedPages + |freePages|
    {
      n := nextPageId - 1;
    }
  }

  lemma {:induction false} SubsetSize(a: set<PageId>, b: set<PageId>)
    requires a <= b
    ensures |a| <= |b|
  {
    if x :| x in a {
      SubsetSize(a - {x}, b - {x});
    }
  }
}
