/**
 * NAND geometry as the dump firmware (nand_dump.c) decodes it from byte 3
 * of the READ ID answer: page data size from bits 1:0, spare bytes per
 * 512 from bit 2, pages per block from bits 5:4. The arithmetic is the
 * firmware's own shifts and masks, whatever a given part's datasheet says.
 */
module NandGeometry {
  import opened Common

  /** `(id_lo >> 24) & 0xFF`: byte 3 of the ID, the top byte of the low ID word. */
  function IdByte3(idLo: U32): Byte
  {
    Bits(idLo, 24, 8)
  }

  /** `1024 << (byte3 & 0x03)`. */
  function PageDataSize(byte3: Byte): nat
  {
    1024 * Pow2(Bits(byte3, 0, 2))
  }

  /** `64 << ((byte3 >> 4) & 0x03)`. */
  function PagesPerBlock(byte3: Byte): nat
  {
    64 * Pow2(Bits(byte3, 4, 2))
  }

  /** `(byte3 & 0x04) ? 16 : 8`. */
  function SparePer512(byte3: Byte): nat
  {
    if Bits(byte3, 2, 1) != 0 then 16 else 8
  }

  /** `(page_data_size / 512) * spare_per_512`. */
  function SpareTotal(byte3: Byte): nat
  {
    (PageDataSize(byte3) / 512) * SparePer512(byte3)
  }

  /** `page_data_size + spare_total`, the read count set for a full page. */
  function PageTotal(byte3: Byte): nat
  {
    PageDataSize(byte3) + SpareTotal(byte3)
  }

  /**
   * The page data size is 1024 times 2 to the power of the two low bits:
   * one of 1024, 2048, 4096 or 8192, and 1024 exactly when both bits are clear.
   */
  lemma PageDataSizeValues(byte3: Byte)
    ensures PageDataSize(byte3) in {1024, 2048, 4096, 8192}
    ensures PageDataSize(byte3) == 1024 <==> byte3 % 4 == 0
    ensures PageDataSize(byte3) == 8192 <==> byte3 % 4 == 3
  {
    assert Pow2(0) == 1 && Pow2(1) == 2 && Pow2(2) == 4 && Pow2(3) == 8;
    assert Bits(byte3, 0, 2) == byte3 % 4;
  }

  /** Pages per block is one of 64, 128, 256 or 512, chosen by bits 5:4. */
  lemma PagesPerBlockValues(byte3: Byte)
    ensures PagesPerBlock(byte3) in {64, 128, 256, 512}
    ensures PagesPerBlock(byte3) == 64 <==> (byte3 / 16) % 4 == 0
    ensures PagesPerBlock(byte3) == 512 <==> (byte3 / 16) % 4 == 3
  {
    assert Pow2(0) == 1 && Pow2(1) == 2 && Pow2(2) == 4 && Pow2(3) == 8;
    assert Pow2(4) == 16;
    assert Bits(byte3, 4, 2) == (byte3 / 16) % 4;
  }

  /**
   * The spare area is 16 bytes per 512 iff bit 2 is set (8 otherwise);
   * the spare total is a 32nd or a 64th of the page data, and a full page
   * with spare is never more than 8448 bytes.
   */
  lemma SpareAndTotalValues(byte3: Byte)
    ensures SparePer512(byte3) == 16 <==> (byte3 / 4) % 2 == 1
    ensures SparePer512(byte3) == 8 <==> (byte3 / 4) % 2 == 0
    ensures SpareTotal(byte3) * (if SparePer512(byte3) == 16 then 32 else 64) == PageDataSize(byte3)
    ensures PageDataSize(byte3) < PageTotal(byte3) <= 8448
  {
    assert Pow2(1) == 2 && Pow2(2) == 4;
    assert Bits(byte3, 2, 1) == (byte3 / 4) % 2;
    PageDataSizeValues(byte3);
  }

  /** The geometry the firmware derives from one ID word. */
  datatype Geometry = Geometry(pageDataSize: nat, sparePer512: nat, spareTotal: nat, pageTotal: nat, pagesPerBlock: nat)

  function Decode(idLo: U32): (g: Geometry)
    ensures g.pageDataSize in {1024, 2048, 4096, 8192}
    ensures g.pagesPerBlock in {64, 128, 256, 512}
    ensures g.sparePer512 in {8, 16}
    ensures g.pageTotal == g.pageDataSize + g.spareTotal && g.pageTotal <= 8448
  {
    var b3 := IdByte3(idLo);
    PageDataSizeValues(b3);
    PagesPerBlockValues(b3);
    SpareAndTotalValues(b3);
    Geometry(PageDataSize(b3), SparePer512(b3), SpareTotal(b3), PageTotal(b3), PagesPerBlock(b3))
  }
}
