/** A page of the storage engine's pager (ArenaPage in fdbserver/IPager.h):
    a byte buffer whose logical size ends in a 4-byte checksum slot. */
module Pager {
  import opened Bytes

  /** sizeof(Checksum): the checksum is a uint32_t. */
  const ChecksumSize: nat := 4

  type LogicalPageID = uint32

  /** crc32c_append(seed, data): the CRC-32C routine is a parameter of the model. */
  type Crc = (uint32, seq<byte>) -> uint32

  // ---------------------------------------------------------------------
  // A page's logical bytes as a value

  /** The usable bytes: all but the trailing checksum slot. */
  function Usable(page: seq<byte>): (r: seq<byte>)
    requires |page| >= ChecksumSize
    ensures |r| == |page| - ChecksumSize
  {
    page[..|page| - ChecksumSize]
  }

  /** The checksum slot read as a uint32 in memory order (little-endian). */
  function StoredChecksum(page: seq<byte>): (r: uint32)
    requires |page| >= ChecksumSize
  {
    var slot := page[|page| - ChecksumSize..];
    FromLittleEndianBound(slot);
    assert Pow256(4) == 0x1_0000_0000;
    FromLittleEndian(slot)
  }

  /** calculateChecksum: the CRC of the usable bytes seeded with the page id. */
  function Checksum(page: seq<byte>, id: LogicalPageID, crc: Crc): uint32
    requires |page| >= ChecksumSize
  {
    crc(id, Usable(page))
  }

  /** verifyChecksum. */
  predicate Verifies(page: seq<byte>, id: LogicalPageID, crc: Crc)
    requires |page| >= ChecksumSize
  {
    StoredChecksum(page) == Checksum(page, id, crc)
  }

  /** updateChecksum: the usable bytes followed by their checksum. */
  function WithChecksum(page: seq<byte>, id: LogicalPageID, crc: Crc): (r: seq<byte>)
    requires |page| >= ChecksumSize
    ensures |r| == |page|
    ensures Usable(r) == Usable(page)
    ensures Verifies(r, id, crc)
  {
    var r := Usable(page) + LittleEndian(ChecksumSize, Checksum(page, id, crc));
    assert Usable(r) == Usable(page);
    assert r[|r| - ChecksumSize..] == LittleEndian(ChecksumSize, Checksum(page, id, crc));
    assert Pow256(4) == 0x1_0000_0000;
    LittleEndianRoundTrip(ChecksumSize, Checksum(page, id, crc));
    r
  }

  /** A page verifies exactly when updating its checksum would change nothing. */
  lemma VerifiesIffUpToDate(page: seq<byte>, id: LogicalPageID, crc: Crc)
    requires |page| >= ChecksumSize
    ensures Verifies(page, id, crc) <==> page == WithChecksum(page, id, crc)
  {
    var slot := page[|page| - ChecksumSize..];
    if Verifies(page, id, crc) {
      LittleEndianOfDecode(slot);
      assert page == Usable(page) + slot;
    }
  }

  /** Verification sees only the usable bytes and the slot: a page whose usable
      bytes were changed after the update fails unless the CRC collides. */
  lemma VerifiesAfterUpdate(page: seq<byte>, edited: seq<byte>, id: LogicalPageID, crc: Crc)
    requires |page| >= ChecksumSize && |edited| == |page|
    requires edited[|page| - ChecksumSize..] == WithChecksum(page, id, crc)[|page| - ChecksumSize..]
    ensures Verifies(edited, id, crc) <==> crc(id, Usable(edited)) == crc(id, Usable(page))
  {
    var w := WithChecksum(page, id, crc);
    assert StoredChecksum(edited) == StoredChecksum(w);
  }

  /** The in-order concatenation of byte strings. */
  function Concat(chunks: seq<seq<byte>>): seq<byte>
  {
    if chunks == [] then [] else Concat(chunks[..|chunks| - 1]) + chunks[|chunks| - 1]
  }

  /** n chunks of u bytes each concatenate to n * u bytes. */
  lemma {:induction false} ConcatLength(chunks: seq<seq<byte>>, u: nat)
    requires forall i :: 0 <= i < |chunks| ==> |chunks[i]| == u
    ensures |Concat(chunks)| == |chunks| * u
  {
    if chunks != [] {
      ConcatLength(chunks[..|chunks| - 1], u);
    }
  }

  /** Chunk k of equal-sized chunks occupies bytes [k * u, (k + 1) * u). */
  lemma {:induction false} ConcatSlice(chunks: seq<seq<byte>>, u: nat, k: nat)
    requires forall i :: 0 <= i < |chunks| ==> |chunks[i]| == u
    requires k < |chunks|
    ensures |Concat(chunks)| == |chunks| * u
    ensures (k + 1) * u <= |chunks| * u
    ensures Concat(chunks)[k * u..(k + 1) * u] == chunks[k]
  {
    MulMonotone(k + 1, |chunks|, u);
    var init := chunks[..|chunks| - 1];
    ConcatLength(chunks, u);
    ConcatLength(init, u);
    if k == |chunks| - 1 {
      assert Concat(chunks) == Concat(init) + chunks[k];
    } else {
      ConcatSlice(init, u, k);
      MulMonotone(k + 1, |init|, u);
      assert Concat(chunks)[k * u..(k + 1) * u] == Concat(init)[k * u..(k + 1) * u];
    }
  }

  lemma MulMonotone(a: nat, b: nat, c: nat)
    requires a <= b
    ensures a * c <= b * c
  {
  }

  /** memcpy(dst + dstStart, src + srcStart, len) between distinct buffers. */
  method Copy(dst: array<byte>, dstStart: nat, src: array<byte>, srcStart: nat, len: nat)
    requires dst != src
    requires dstStart + len <= dst.Length && srcStart + len <= src.Length
    modifies dst
    ensures dst[dstStart..dstStart + len] == src[srcStart..srcStart + len]
    ensures forall i :: 0 <= i < dst.Length && !(dstStart <= i < dstStart + len) ==> dst[i] == old(dst[i])
    ensures dst[..dstStart] == old(dst[..dstStart])
    ensures dst[..dstStart + len] == old(dst[..dstStart]) + src[srcStart..srcStart + len]
  {
    for j := 0 to len
      invariant dst[dstStart..dstStart + j] == src[srcStart..srcStart + j]
      invariant forall i :: 0 <= i < dst.Length && !(dstStart <= i < dstStart + j) ==> dst[i] == old(dst[i])
      invariant dst[..dstStart] == old(dst[..dstStart])
    {
      dst[dstStart + j] := src[srcStart + j];
      assert dst[dstStart..dstStart + j + 1] == dst[dstStart..dstStart + j] + [dst[dstStart + j]];
      assert src[srcStart..srcStart + j + 1] == src[srcStart..srcStart + j] + [src[srcStart + j]];
    }
    assert dst[..dstStart + len] == dst[..dstStart] + dst[dstStart..dstStart + len];
  }

  // ---------------------------------------------------------------------
  // The page object

  class ArenaPage {
    const logicalSize: int
    const bufferSize: int
    /** The arena memory the page points into (an empty array for nullptr). */
    var buffer: array<byte>
    /** Where the page begins in that memory: non-zero for a sub-page. */
    var start: nat

    /** The page's logical bytes lie inside its buffer. */
    ghost predicate Valid()
      reads this
    {
      0 <= logicalSize && start + logicalSize <= buffer.Length
    }

    /** ArenaPage(logicalSize, bufferSize): a fresh buffer of bufferSize bytes,
        or none when bufferSize is not positive. */
    constructor (logicalSize: int, bufferSize: int)
      ensures this.logicalSize == logicalSize && this.bufferSize == bufferSize
      ensures fresh(buffer) && start == 0
      ensures buffer.Length == if bufferSize > 0 then bufferSize else 0
      ensures Valid() <==> 0 <= logicalSize <= buffer.Length
    {
      this.logicalSize := logicalSize;
      this.bufferSize := bufferSize;
      if bufferSize > 0 {
        buffer := new byte[bufferSize];
      } else {
        buffer := new byte[0];
      }
      start := 0;
    }

    /** mutate(): the memory the page writes through. */
    method Mutate() returns (b: array<byte>)
      ensures b == buffer
    {
      b := buffer;
    }

    /** The page's logical bytes. */
    ghost function Contents(): seq<byte>
      reads this, buffer
      requires Valid()
    {
      buffer[start..start + logicalSize]
    }

    /** size(): the usable size, without the checksum. */
    function Size(): (r: int)
      reads this
      ensures r + ChecksumSize == logicalSize
    {
      logicalSize - ChecksumSize
    }

    /** asStringRef(): the usable bytes. */
    function AsStringRef(): (r: seq<byte>)
      reads this, buffer
      requires Valid() && logicalSize >= ChecksumSize
      ensures |r| == Size()
      ensures r == Usable(Contents())
    {
      buffer[start..start + Size()]
    }

    /** getChecksum(). */
    function GetChecksum(): (r: uint32)
      reads this, buffer
      requires Valid() && logicalSize >= ChecksumSize
      ensures r == StoredChecksum(Contents())
    {
      assert Contents()[|Contents()| - ChecksumSize..] == buffer[start + Size()..start + logicalSize];
      StoredChecksum(buffer[start..start + logicalSize])
    }

    /** calculateChecksum(pageID). */
    function CalculateChecksum(pageID: LogicalPageID, crc: Crc): (r: uint32)
      reads this, buffer
      requires Valid() && logicalSize >= ChecksumSize
      ensures r == Checksum(Contents(), pageID, crc)
    {
      crc(pageID, AsStringRef())
    }

    /** verifyChecksum(pageID). */
    function VerifyChecksum(pageID: LogicalPageID, crc: Crc): (r: bool)
      reads this, buffer
      requires Valid() && logicalSize >= ChecksumSize
      ensures r <==> Verifies(Contents(), pageID, crc)
    {
      GetChecksum() == CalculateChecksum(pageID, crc)
    }

    /** updateChecksum(pageID): writes the 4 slot bytes and nothing else. */
    method UpdateChecksum(pageID: LogicalPageID, crc: Crc)
      requires Valid() && logicalSize >= ChecksumSize
      modifies buffer
      ensures Valid()
      ensures Contents() == WithChecksum(old(Contents()), pageID, crc)
      ensures VerifyChecksum(pageID, crc)
      ensures forall i :: 0 <= i < buffer.Length && !(start + Size() <= i < start + logicalSize) ==>
        buffer[i] == old(buffer[i])
    {
      var c := LittleEndian(ChecksumSize, CalculateChecksum(pageID, crc));
      ghost var page := Contents();
      var at := start + Size();
      for j := 0 to ChecksumSize
        invariant buffer[start..at] == Usable(page)
        invariant buffer[at..at + j] == c[..j]
        invariant forall i :: 0 <= i < buffer.Length && !(at <= i < at + j) ==> buffer[i] == old(buffer[i])
      {
        buffer[at + j] := c[j];
        assert buffer[at..at + j + 1] == buffer[at..at + j] + [c[j]];
        assert c[..j + 1] == c[..j] + [c[j]];
      }
      assert Contents() == buffer[start..at] + buffer[at..at + ChecksumSize];
    }

    /** cloneContents(): a page of the same sizes over a fresh buffer holding
        a copy of the logical bytes. The copy needs a buffer at least as large
        as the logical size, so this page must own its memory. */
    method CloneContents() returns (p: ArenaPage)
      requires Valid() && logicalSize <= bufferSize
      ensures fresh(p) && fresh(p.buffer)
      ensures p.logicalSize == logicalSize && p.bufferSize == bufferSize
      ensures p.Valid() && p.Contents() == Contents()
    {
      p := new ArenaPage(logicalSize, bufferSize);
      Copy(p.buffer, 0, buffer, start, logicalSize);
    }

    /** subPage(offset, len): a page of logical size len over this page's own
        memory from offset on; writes through either are seen by both. */
    method SubPage(offset: nat, len: nat) returns (p: ArenaPage)
      requires Valid() && start + offset + len <= buffer.Length
      ensures fresh(p)
      ensures p.logicalSize == len && p.bufferSize == 0
      ensures p.buffer == buffer && p.start == start + offset
      ensures p.Valid() && p.Contents() == buffer[start + offset..start + offset + len]
    {
      p := new ArenaPage(len, 0);
      p.buffer := buffer;
      p.start := start + offset;
    }
  }

  /** The usable bytes of each page, in order. */
  ghost function UsableOf(pages: seq<ArenaPage>): (r: seq<seq<byte>>)
    reads set i | 0 <= i < |pages| :: pages[i]
    reads set i | 0 <= i < |pages| :: pages[i].buffer
    requires forall i :: 0 <= i < |pages| ==> pages[i].Valid() && pages[i].logicalSize >= ChecksumSize
    ensures |r| == |pages|
    ensures forall i :: 0 <= i < |pages| ==> r[i] == pages[i].AsStringRef()
  {
    if pages == [] then []
    else UsableOf(pages[..|pages| - 1]) + [pages[|pages| - 1].AsStringRef()]
  }

  /** The write-pointer loop of concatPages: copies each page's first u
      bytes one after another to the front of buf. */
  method WriteChunks(buf: array<byte>, pages: seq<ArenaPage>, u: nat, ghost chunks: seq<seq<byte>>)
    requires |chunks| == |pages| && |Concat(chunks)| <= buf.Length
    requires forall i :: 0 <= i < |pages| ==>
      pages[i].buffer != buf && pages[i].start + u <= pages[i].buffer.Length
      && chunks[i] == pages[i].buffer[pages[i].start..pages[i].start + u]
    modifies buf
    ensures buf[..|Concat(chunks)|] == Concat(chunks)
  {
    var wptr := 0;
    for k := 0 to |pages|
      invariant wptr == |Concat(chunks[..k])| && wptr <= |Concat(chunks)|
      invariant buf[..wptr] == Concat(chunks[..k])
    {
      var p := pages[k];
      assert chunks[..k + 1][..k] == chunks[..k];
      ConcatPrefixLength(chunks, k + 1);
      assert |Concat(chunks[..k + 1])| == wptr + u;
      Copy(buf, wptr, p.buffer, p.start, u);
      wptr := wptr + u;
    }
    assert chunks[..|pages|] == chunks;
  }

  lemma {:induction false} ConcatPrefixLength(chunks: seq<seq<byte>>, k: nat)
    requires k <= |chunks|
    ensures |Concat(chunks[..k])| <= |Concat(chunks)|
    decreases |chunks|
  {
    if k < |chunks| {
      var init := chunks[..|chunks| - 1];
      assert init[..k] == chunks[..k];
      ConcatPrefixLength(init, k);
    } else {
      assert chunks[..k] == chunks;
    }
  }

  /** concatPages(pages): one page whose usable bytes are the pages' usable
      bytes in order. All pages must have the usable size of the first, and
      the first must own a buffer at least as large as its logical size. */
  method ConcatPages(pages: seq<ArenaPage>) returns (superpage: ArenaPage)
    requires |pages| > 0
    requires forall i :: 0 <= i < |pages| ==> pages[i].Valid() && pages[i].logicalSize == pages[0].logicalSize
    requires pages[0].logicalSize >= ChecksumSize && pages[0].logicalSize <= pages[0].bufferSize
    ensures fresh(superpage) && fresh(superpage.buffer)
    ensures superpage.Valid()
    ensures superpage.Size() == |pages| * pages[0].Size()
    ensures superpage.bufferSize == pages[0].bufferSize * |pages|
    ensures superpage.AsStringRef() == Concat(old(UsableOf(pages)))
  {
    ghost var chunks := UsableOf(pages);
    var usableSize := pages[0].Size();
    var totalUsableSize := |pages| * usableSize;
    var totalBufferSize := pages[0].bufferSize * |pages|;
    SuperpageFits(|pages|, pages[0].logicalSize, pages[0].bufferSize);
    superpage := new ArenaPage(totalUsableSize + ChecksumSize, totalBufferSize);
    var buf := superpage.Mutate();
    ConcatLength(chunks, usableSize);
    WriteChunks(buf, pages, usableSize, chunks);
  }

  /** n pages' usable bytes plus one checksum slot fit into n buffers. */
  lemma SuperpageFits(n: nat, logical: int, bufferSize: int)
    requires n > 0 && 4 <= logical <= bufferSize
    ensures 0 <= n * (logical - 4) + 4 <= bufferSize * n
  {
    MulMonotone(1, n, 4);
    assert n * (logical - 4) == n * logical - n * 4;
    assert n * logical <= n * bufferSize;
  }
}
