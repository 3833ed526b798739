/** Byte layout of one science record (Z_DATA_TYPE_SCI_L3_V3) as the player
    reads it: a 28-byte header followed by 100 frames (FRAME_SPB_2_L3_V0), each
    of 36 PMT blocks (PMT_3rd_L3_GEN) of 320 bytes, of which the first 256
    bytes are the pixel data that is forwarded. The last 36 bytes of the
    record follow the last frame and are never read. */
module Layout {

  const PixelsPerPmt: nat := 64
  const KiPerPmt: nat := 8
  const SparePerPmt: nat := 8
  const PmtsPerEcAsic: nat := 6
  const EcAsicsPerPdm: nat := 6
  /** Number of PMT blocks in a frame. */
  const PmtsInFrame: nat := PmtsPerEcAsic * EcAsicsPerPdm
  /** Number of frames in a record. */
  const FramesPerRecord: nat := 100

  /** Bytes of a PMT block that are forwarded: the pixel words only. */
  const DataOnlyPerPmtSize: nat := PixelsPerPmt * 4
  /** Bytes of a whole PMT block in the record: pixels, KI and spare words. */
  const FullPmtSize: nat := (PixelsPerPmt + KiPerPmt + SparePerPmt) * 4
  /** Bytes of one frame in the record. */
  const FrameSize: nat := PmtsInFrame * FullPmtSize
  /** Bytes of one record, the unit in which the input is read. */
  const RecordSize: nat := 1152064
  /** Offset of the first frame inside a record. */
  const FramesOffset: nat := 28

  /** Bytes of one outgoing datagram: the data part of every PMT of a frame. */
  const PayloadSize: nat := PmtsInFrame * DataOnlyPerPmtSize

  /** Byte offset, inside a record, at which frame `frameIdx` starts. */
  function FrameStart(frameIdx: nat): nat
  {
    FramesOffset + frameIdx * FrameSize
  }

  /** Byte offset, inside a record, at which PMT `pmtIdx` of frame `frameIdx` starts. */
  function PmtStart(frameIdx: nat, pmtIdx: nat): nat
  {
    FrameStart(frameIdx) + pmtIdx * FullPmtSize
  }

  /** The derived sizes have the values the record format fixes. */
  lemma DerivedSizes()
    ensures PmtsInFrame == 36
    ensures DataOnlyPerPmtSize == 256
    ensures FullPmtSize == 320
    ensures FrameSize == 11520
    ensures PayloadSize == 9216
    ensures FullPmtSize - DataOnlyPerPmtSize == (KiPerPmt + SparePerPmt) * 4
    ensures FrameStart(FramesPerRecord) == 1152028 && RecordSize - FrameStart(FramesPerRecord) == 36
  {
  }

  /** The data part of every PMT of every frame lies inside one record: a
      slice taken from a full record is never shortened. The last one ends at
      byte 1151964, 100 bytes before the end of the record. */
  lemma PmtDataInRecord(frameIdx: nat, pmtIdx: nat)
    requires frameIdx < FramesPerRecord && pmtIdx < PmtsInFrame
    ensures FramesOffset <= PmtStart(frameIdx, pmtIdx)
    ensures PmtStart(frameIdx, pmtIdx) + DataOnlyPerPmtSize <= PmtStart(FramesPerRecord - 1, PmtsInFrame - 1) + DataOnlyPerPmtSize
    ensures PmtStart(FramesPerRecord - 1, PmtsInFrame - 1) + DataOnlyPerPmtSize == 1151964
    ensures 1151964 <= RecordSize
  {
  }

  /** Frames are consecutive and do not overlap: frame `f` ends where frame
      `f + 1` starts, and its PMT blocks tile it exactly. */
  lemma FramesTile(frameIdx: nat, pmtIdx: nat)
    requires pmtIdx < PmtsInFrame
    ensures FrameStart(frameIdx) <= PmtStart(frameIdx, pmtIdx)
    ensures PmtStart(frameIdx, pmtIdx) + FullPmtSize <= FrameStart(frameIdx + 1)
    ensures PmtStart(frameIdx, PmtsInFrame - 1) + FullPmtSize == FrameStart(frameIdx + 1)
  {
  }

  /** Byte `i` of a record is a forwarded data byte of frame `frameIdx`: it
      lies in that frame and in the first 256 bytes of its PMT block (not in
      the KI or spare words). */
  predicate IsDataByteOf(frameIdx: nat, i: int)
  {
    FrameStart(frameIdx) <= i < FrameStart(frameIdx) + FrameSize &&
    (i - FrameStart(frameIdx)) % FullPmtSize < DataOnlyPerPmtSize
  }
}
