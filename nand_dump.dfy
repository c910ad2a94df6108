/**
 * The dump firmware's side of the wire protocol (nand_dump.c): 8-digit hex
 * text, the 7-byte page header, streaming the controller's page buffer
 * word by word with the last word clipped, the full-dump stream of
 * do_dump_all, the single-page reply of do_read_page, and the address and
 * count values the 'A' and 'C' commands assemble from received bytes.
 * The UART is modelled by the bytes a routine sends, returned as a
 * sequence; the controller's page buffer by a sequence of 32-bit words.
 */
module NandDump {
  import opened Common
  import opened NandGeometry

  // ---------------------------------------------------------------------
  // Text on the wire
  // ---------------------------------------------------------------------

  predicate IsAscii(s: string)
  {
    forall i :: 0 <= i < |s| ==> s[i] as int < 0x80
  }

  /** The bytes `uart_send_str` sends for an ASCII string. */
  function AsciiBytes(s: string): (bs: seq<Byte>)
    requires IsAscii(s)
    ensures |bs| == |s|
  {
    seq(|s|, i requires 0 <= i < |s| => s[i] as int)
  }

  // The fixed texts the firmware sends.
  const CrLf: seq<Byte> := AsciiBytes("\r\n")
  const PageTimeoutText: seq<Byte> := AsciiBytes("ERR:PAGE_TIMEOUT\r\n")
  const PageOkText: seq<Byte> := AsciiBytes("PAGE_OK bytes=")
  const DumpIdFailText: seq<Byte> := AsciiBytes("ERR:DUMP_ID_FAIL\r\n")
  const DumpStartText: seq<Byte> := AsciiBytes("DUMP_START\r\n")
  const DumpEndText: seq<Byte> := AsciiBytes("DUMP_END\r\n")
  const PageDataLabel: seq<Byte> := AsciiBytes("  page_data=")
  const SpareLabel: seq<Byte> := AsciiBytes(" spare=")
  const PagesPerBlockLabel: seq<Byte> := AsciiBytes(" pages/blk=")
  const BlocksLabel: seq<Byte> := AsciiBytes(" blocks=")
  const BlkLabel: seq<Byte> := AsciiBytes("\r\nBLK=")

  const HexDigits: string := "0123456789ABCDEF"

  /**
   * What uart_send_hex32 sends, as text: eight digits from "0123456789ABCDEF",
   * digit `k` being nibble `7 - k` of the value (most significant first).
   */
  function Hex32(v: U32): (s: string)
    ensures |s| == 8 && IsAscii(s)
    ensures forall k :: 0 <= k < 8 ==> s[k] in HexDigits
  {
    seq(8, k requires 0 <= k < 8 => HexDigits[Bits(v, 28 - 4 * k, 4)])
  }

  /** uart_send_hex32: the loop over `i = 28, 24, ..., 0`. */
  method SendHex32(val: U32) returns (sent: seq<Byte>)
    ensures sent == AsciiBytes(Hex32(val))
  {
    sent := [];
    var i := 28;
    while i >= 0
      invariant -4 <= i <= 28 && i == 28 - 4 * |sent|
      invariant forall k :: 0 <= k < |sent| ==> sent[k] == HexDigits[Bits(val, 28 - 4 * k, 4)] as int
    {
      sent := sent + [HexDigits[Bits(val, i, 4)] as int];
      i := i - 4;
    }
    Hex32Bytes(val, sent);
  }

  /** Eight bytes that are the ASCII codes of the digits of Hex32(val) are its bytes. */
  lemma Hex32Bytes(val: U32, sent: seq<Byte>)
    requires |sent| == 8
    requires forall k :: 0 <= k < 8 ==> sent[k] == HexDigits[Bits(val, 28 - 4 * k, 4)] as int
    ensures sent == AsciiBytes(Hex32(val))
  {
    var expected := AsciiBytes(Hex32(val));
    forall k | 0 <= k < 8
      ensures sent[k] == expected[k]
    {
    }
  }

  // ---------------------------------------------------------------------
  // Page header and page data
  // ---------------------------------------------------------------------

  /**
   * The 7-byte page header: `bytes_read` little-endian in bytes 0..3, the
   * low 24 bits of `row` little-endian in bytes 4..6.
   */
  function HeaderBytes(bytesRead: U32, row: nat): (h: seq<Byte>)
    ensures |h| == 7
    ensures LittleEndian(h[..4]) == bytesRead && LittleEndian(h[4..]) == row % 0x100_0000
  {
    var h := LittleEndianBytes(bytesRead, 4) + LittleEndianBytes(row, 3);
    HeaderFields(bytesRead, row, h);
    h
  }

  lemma HeaderFields(bytesRead: U32, row: nat, h: seq<Byte>)
    requires h == LittleEndianBytes(bytesRead, 4) + LittleEndianBytes(row, 3)
    ensures LittleEndian(h[..4]) == bytesRead && LittleEndian(h[4..]) == row % 0x100_0000
  {
    LittleEndianRoundTrip(bytesRead, 4);
    LittleEndianRoundTrip(row, 3);
    Pow2Lanes();
    assert h[..4] == LittleEndianBytes(bytesRead, 4);
    assert h[4..] == LittleEndianBytes(row, 3);
  }

  /** The marker sent instead of a header when a page read times out. */
  const ErrMarker: seq<Byte> := [0xFF, 0xFF, 0xFF, 0xFF, 'E' as int, 'R' as int, 'R' as int]

  /** `(bytes_read + 3) / 4` in 32-bit arithmetic: the addition wraps. */
  function WordCount(bytesRead: U32): nat
  {
    ((bytesRead + 3) % 0x1_0000_0000) / 4
  }

  /** The number of bytes the word loop sends. */
  function StreamLength(bytesRead: U32): nat
  {
    if bytesRead <= 0xFFFF_FFFC then bytesRead else 0
  }

  /**
   * The word count is the number of words that cover `bytes_read` bytes,
   * except for the three largest counts, where the 32-bit addition wraps
   * and no word is read.
   */
  lemma WordCountCovers(bytesRead: U32)
    ensures bytesRead <= 0xFFFF_FFFC ==>
              4 * WordCount(bytesRead) >= bytesRead && 4 * WordCount(bytesRead) < bytesRead + 4
    ensures bytesRead > 0xFFFF_FFFC ==> WordCount(bytesRead) == 0
  {
  }

  /** The page data on the wire: byte `i` is byte `i % 4` (little-endian) of word `i / 4`. */
  function PageBytes(buffer: seq<U32>, bytesRead: U32): (bs: seq<Byte>)
    requires |buffer| >= WordCount(bytesRead)
    ensures |bs| == StreamLength(bytesRead)
  {
    WordCountCovers(bytesRead);
    seq(StreamLength(bytesRead), i requires 0 <= i < StreamLength(bytesRead) => Bits(buffer[i / 4], 8 * (i % 4), 8))
  }

  /**
   * The word loop of do_read_page and do_dump_all: read each word, split it
   * into four bytes least significant first, and send all four, or only
   * the `remaining` ones for the last word.
   */
  method StreamPageWords(buffer: seq<U32>, bytesRead: U32) returns (sent: seq<Byte>)
    requires |buffer| >= WordCount(bytesRead)
    ensures sent == PageBytes(buffer, bytesRead)
  {
    sent := [];
    var words := ((bytesRead + 3) % 0x1_0000_0000) / 4;
    WordCountCovers(bytesRead);
    for i := 0 to words
      invariant |sent| == 4 * i <= bytesRead
      invariant forall k :: 0 <= k < |sent| ==> sent[k] == Bits(buffer[k / 4], 8 * (k % 4), 8)
    {
      var w := buffer[i];
      var b := LittleEndianBytes(w, 4);
      var remaining: U32 := bytesRead - i * 4;
      var sendCnt := if remaining >= 4 then 4 else remaining;
      ghost var before := sent;
      sent := sent + b[..sendCnt];
      forall k | |before| <= k < |sent|
        ensures sent[k] == Bits(buffer[k / 4], 8 * (k % 4), 8)
      {
        assert k / 4 == i && k % 4 == k - 4 * i;
      }
      if sendCnt < 4 {
        // Only the last word is clipped.
        assert i == words - 1;
        assert |sent| == bytesRead;
        return;
      }
    }
  }

  /** What the NAND controller reports for one page read. */
  datatype PageRead = Timeout | Read(bytesRead: U32, buffer: seq<U32>)

  /** The page buffer holds every word the word loop reads. */
  predicate BufferCovers(r: PageRead)
  {
    r.Read? ==> |r.buffer| >= WordCount(r.bytesRead)
  }

  /** do_read_page's reply ('G' command). */
  function ReadPageReply(r: PageRead): seq<Byte>
    requires BufferCovers(r)
  {
    if r.Timeout? then PageTimeoutText
    else
      PageOkText + AsciiBytes(Hex32(r.bytesRead)) + CrLf +
      LittleEndianBytes(r.bytesRead, 4) + PageBytes(r.buffer, r.bytesRead)
  }

  /** do_read_page: a text status line, the 4-byte length, then the page data. */
  method DoReadPage(r: PageRead) returns (sent: seq<Byte>)
    requires BufferCovers(r)
    ensures sent == ReadPageReply(r)
  {
    if r.Timeout? {
      return PageTimeoutText;
    }
    var bytesRead := r.bytesRead;
    var hex := SendHex32(bytesRead);
    sent := PageOkText + hex + CrLf;
    var hdr := [Bits(bytesRead, 0, 8), Bits(bytesRead, 8, 8), Bits(bytesRead, 16, 8), Bits(bytesRead, 24, 8)];
    assert hdr == LittleEndianBytes(bytesRead, 4);
    sent := sent + hdr;
    var data := StreamPageWords(r.buffer, bytesRead);
    sent := sent + data;
  }

  // ---------------------------------------------------------------------
  // do_dump_all
  // ---------------------------------------------------------------------

  /** `total_blocks`, the firmware's fixed block count. */
  const TotalBlocks: nat := 4096

  /** The line that follows DUMP_START. */
  function GeometryLine(g: Geometry): seq<Byte>
    requires g.pageTotal == g.pageDataSize + g.spareTotal && g.pageTotal <= 8448 && g.pagesPerBlock <= 512
  {
    PageDataLabel + AsciiBytes(Hex32(g.pageDataSize)) +
    SpareLabel + AsciiBytes(Hex32(g.spareTotal)) +
    PagesPerBlockLabel + AsciiBytes(Hex32(g.pagesPerBlock)) +
    BlocksLabel + AsciiBytes(Hex32(TotalBlocks)) + CrLf
  }

  /** One page's frame: the error marker alone, or the header and the page data. */
  function PageFrame(r: PageRead, row: nat): seq<Byte>
    requires BufferCovers(r)
  {
    if r.Timeout? then ErrMarker else HeaderBytes(r.bytesRead, row) + PageBytes(r.buffer, r.bytesRead)
  }

  ghost predicate CoversAll(readPage: nat -> PageRead)
  {
    forall row :: BufferCovers(readPage(row))
  }

  /** The frames of the `n` rows from `first` on. */
  function PageFrames(readPage: nat -> PageRead, first: nat, n: nat): seq<Byte>
    requires CoversAll(readPage)
  {
    if n == 0 then []
    else PageFrames(readPage, first, n - 1) + PageFrame(readPage(first + n - 1), first + n - 1)
  }

  /** The progress line after every 64th block (`(block & 0x3F) == 0`). */
  function ProgressLine(block: U32): seq<Byte>
  {
    if block % 64 == 0 then BlkLabel + AsciiBytes(Hex32(block)) + CrLf else []
  }

  /** The first row of block `b`, `b * pages_per_block`, counted up one block at a time. */
  function BlockStart(b: nat, ppb: nat): nat
  {
    if b == 0 then 0 else BlockStart(b - 1, ppb) + ppb
  }

  lemma {:induction false} BlockStartIsProduct(b: nat, ppb: nat)
    ensures BlockStart(b, ppb) == b * ppb
  {
    if b > 0 {
      BlockStartIsProduct(b - 1, ppb);
      assert b * ppb == (b - 1) * ppb + ppb;
    }
  }

  /** The frames and progress lines of blocks `0..n-1`. */
  function BlockFrames(readPage: nat -> PageRead, ppb: nat, n: nat): seq<Byte>
    requires CoversAll(readPage) && n <= TotalBlocks
  {
    if n == 0 then []
    else BlockFrames(readPage, ppb, n - 1) + BlockChunk(readPage, ppb, n - 1)
  }

  /** What block `b` contributes: its page frames, then its progress line. */
  function BlockChunk(readPage: nat -> PageRead, ppb: nat, b: nat): seq<Byte>
    requires CoversAll(readPage) && b < TotalBlocks
  {
    PageFrames(readPage, BlockStart(b, ppb), ppb) + ProgressLine(b)
  }

  /** Everything do_dump_all sends; `None` is an ID read that timed out. */
  function DumpStream(idLo: Option<U32>, readPage: nat -> PageRead): seq<Byte>
    requires CoversAll(readPage)
  {
    if idLo.None? then DumpIdFailText
    else
      var g := Decode(idLo.value);
      DumpStartText + GeometryLine(g) +
      BlockFrames(readPage, g.pagesPerBlock, TotalBlocks) + DumpEndText
  }

  /** The `n` rows from `first` on. */
  function RowRun(first: nat, n: nat): seq<nat>
  {
    if n == 0 then [] else RowRun(first, n - 1) + [first + n - 1]
  }

  lemma {:induction false} RowRunValues(first: nat, n: nat)
    ensures |RowRun(first, n)| == n
    ensures forall i :: 0 <= i < n ==> RowRun(first, n)[i] == first + i
  {
    if n > 0 {
      RowRunValues(first, n - 1);
    }
  }

  /** The rows of blocks `0..n-1`, in visiting order. */
  function VisitedRows(ppb: nat, n: nat): seq<nat>
  {
    if n == 0 then [] else VisitedRows(ppb, n - 1) + RowRun(BlockStart(n - 1, ppb), ppb)
  }

  /**
   * The body of do_dump_all's page loop once the row is addressed: the
   * error marker on a timeout, otherwise the header and the page data.
   */
  method SendPage(r: PageRead, row: nat) returns (sent: seq<Byte>)
    requires BufferCovers(r)
    ensures sent == PageFrame(r, row)
  {
    if r.Timeout? {
      return ErrMarker;
    }
    var hdr := HeaderBytes(r.bytesRead, row);
    var data := StreamPageWords(r.buffer, r.bytesRead);
    sent := hdr + data;
  }

  /**
   * One iteration of do_dump_all's block loop: each page of the block,
   * rows `first` onwards, is addressed, read and framed in turn, then the
   * progress line if the block number is a multiple of 64.
   */
  method SendBlock(readPage: nat -> PageRead, block: nat, first: nat, ppb: nat) returns (sent: seq<Byte>, ghost rows: seq<nat>)
    requires CoversAll(readPage) && block < TotalBlocks && first == BlockStart(block, ppb)
    ensures sent == BlockChunk(readPage, ppb, block)
    ensures rows == RowRun(first, ppb)
  {
    sent := [];
    rows := [];
    for page := 0 to ppb
      invariant sent == PageFrames(readPage, first, page)
      invariant rows == RowRun(first, page)
    {
      var row := first + page;
      rows := rows + [row];
      var frame := SendPage(readPage(row), row);
      sent := sent + frame;
    }
    var progress := SendProgress(block);
    sent := sent + progress;
  }

  /** The progress report after a block: "\r\nBLK=" and the block number in hex, every 64th block. */
  method SendProgress(block: U32) returns (sent: seq<Byte>)
    ensures sent == ProgressLine(block)
  {
    sent := [];
    if block % 64 == 0 {
      var hex := SendHex32(block);
      sent := BlkLabel + hex + CrLf;
    }
  }

  /**
   * do_dump_all: the ID read, the geometry it decodes, then every page of
   * every block in block-major order, with a progress line every 64 blocks.
   * `visited` lists the rows in the order the loops address them.
   */
  method DoDumpAll(idLo: Option<U32>, readPage: nat -> PageRead) returns (sent: seq<Byte>, ghost visited: seq<nat>)
    requires CoversAll(readPage)
    ensures sent == DumpStream(idLo, readPage)
    ensures idLo.Some? ==> visited == VisitedRows(Decode(idLo.value).pagesPerBlock, TotalBlocks)
  {
    visited := [];
    if idLo.None? {
      return DumpIdFailText, visited;
    }
    var g := Decode(idLo.value);
    var header := SendGeometry(g);
    var frames;
    frames, visited := SendAllBlocks(readPage, g.pagesPerBlock);
    sent := DumpStartText + header + frames + DumpEndText;
  }

  /** The geometry line: each value is sent with uart_send_hex32 after its label. */
  method SendGeometry(g: Geometry) returns (sent: seq<Byte>)
    requires g.pageTotal == g.pageDataSize + g.spareTotal && g.pageTotal <= 8448 && g.pagesPerBlock <= 512
    ensures sent == GeometryLine(g)
  {
    var dataHex := SendHex32(g.pageDataSize);
    var spareHex := SendHex32(g.spareTotal);
    var ppbHex := SendHex32(g.pagesPerBlock);
    var blocksHex := SendHex32(TotalBlocks);
    sent := PageDataLabel + dataHex + SpareLabel + spareHex + PagesPerBlockLabel + ppbHex + BlocksLabel + blocksHex + CrLf;
  }

  /** One more turn of the block loop appends that block's chunk. */
  lemma BlockFramesNext(readPage: nat -> PageRead, ppb: nat, block: nat, frames: seq<Byte>, chunk: seq<Byte>)
    requires CoversAll(readPage) && block < TotalBlocks
    requires frames == BlockFrames(readPage, ppb, block) && chunk == BlockChunk(readPage, ppb, block)
    ensures frames + chunk == BlockFrames(readPage, ppb, block + 1)
  {
  }

  /** The block loop of do_dump_all, blocks `0..total_blocks-1` in order. */
  method SendAllBlocks(readPage: nat -> PageRead, ppb: nat) returns (frames: seq<Byte>, ghost visited: seq<nat>)
    requires CoversAll(readPage)
    ensures frames == BlockFrames(readPage, ppb, TotalBlocks)
    ensures visited == VisitedRows(ppb, TotalBlocks)
  {
    frames := [];
    visited := [];
    var first := 0;
    for block := 0 to TotalBlocks
      invariant first == BlockStart(block, ppb)
      invariant frames == BlockFrames(readPage, ppb, block)
      invariant visited == VisitedRows(ppb, block)
    {
      var blockFrames, rows := SendBlock(readPage, block, first, ppb);
      BlockFramesNext(readPage, ppb, block, frames, blockFrames);
      frames := frames + blockFrames;
      visited := visited + rows;
      first := first + ppb;
    }
  }

  /**
   * Rows are visited block-major, `row = block * pages_per_block + page`:
   * the n-th page addressed is row n, so rows strictly increase and every
   * row below `blocks * pages_per_block` is read exactly once.
   */
  lemma {:induction false} VisitedRowsConsecutive(ppb: nat, n: nat)
    ensures |VisitedRows(ppb, n)| == n * ppb
    ensures forall i :: 0 <= i < n * ppb ==> VisitedRows(ppb, n)[i] == i
  {
    if n > 0 {
      VisitedRowsConsecutive(ppb, n - 1);
      BlockStartIsProduct(n - 1, ppb);
      RowRunValues(BlockStart(n - 1, ppb), ppb);
      assert n * ppb == (n - 1) * ppb + ppb;
    }
  }

  /** In the shipped configuration every row is below 2^21, so its 24-bit header field holds it whole. */
  lemma DumpRowsFit(ppb: nat, i: nat)
    requires ppb <= 512
    requires i < |VisitedRows(ppb, TotalBlocks)|
    ensures VisitedRows(ppb, TotalBlocks)[i] < 0x20_0000
  {
    VisitedRowsConsecutive(ppb, TotalBlocks);
  }

  // ---------------------------------------------------------------------
  // 'A' and 'C' commands
  // ---------------------------------------------------------------------

  /** `ab[0] | (ab[1] << 8)`: the bytes occupy separate lanes, so `|` is `+`. */
  function ColumnAddress(ab0: Byte, ab1: Byte): (col: nat)
    ensures col < 0x1_0000
    ensures LittleEndianBytes(col, 2) == [ab0, ab1]
  {
    assert Pow2(8) == 0x100;
    assert Bits(ab0 + 0x100 * ab1, 0, 8) == ab0;
    assert Bits(ab0 + 0x100 * ab1, 8, 8) == ab1;
    ab0 + 0x100 * ab1
  }

  /** `ab[2] | (ab[3] << 8) | (ab[4] << 16)`. */
  function RowAddress(ab2: Byte, ab3: Byte, ab4: Byte): (row: nat)
    ensures row < 0x100_0000
    ensures LittleEndianBytes(row, 3) == [ab2, ab3, ab4]
  {
    var row := ab2 + 0x100 * ab3 + 0x1_0000 * ab4;
    assert Pow2(8) == 0x100 && Pow2(16) == 0x1_0000;
    assert Bits(row, 0, 8) == ab2;
    assert row / 0x100 == ab3 + 0x100 * ab4;
    assert Bits(row, 8, 8) == ab3;
    assert row / 0x1_0000 == ab4;
    assert Bits(row, 16, 8) == ab4;
    row
  }

  /** `cb[0] | (cb[1] << 8)`. */
  function ReadCount(cb0: Byte, cb1: Byte): (count: nat)
    ensures count < 0x1_0000
    ensures LittleEndianBytes(count, 2) == [cb0, cb1]
  {
    ColumnAddress(cb0, cb1)
  }
}
