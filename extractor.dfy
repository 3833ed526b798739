/** Building the UDP payload of one frame: the 256 data bytes of each of the
    36 PMT blocks of the frame, appended in ascending PMT order. */
module Extractor {
  import opened Layout

  /** Python's slice `s[lo:hi]` for non-negative bounds: an end beyond the
      sequence is clamped to its length, and an empty or inverted range gives
      an empty slice. */
  function PySlice(s: seq<bv8>, lo: nat, hi: nat): seq<bv8>
  {
    var start := if lo < |s| then lo else |s|;
    var stop := if hi < |s| then hi else |s|;
    if start < stop then s[start..stop] else []
  }

  /** A slice within bounds is the exact subsequence; one whose end is past
      the sequence is silently cut at the end; an empty range gives nothing. */
  lemma PySliceSemantics(s: seq<bv8>, lo: nat, hi: nat)
    ensures lo <= hi <= |s| ==> PySlice(s, lo, hi) == s[lo..hi]
    ensures hi <= lo ==> PySlice(s, lo, hi) == []
    ensures lo < hi && |s| < hi ==> PySlice(s, lo, hi) == if lo < |s| then s[lo..] else []
  {
  }

  /** The slice the player takes for PMT `pmtIdx` of frame `frameIdx`. */
  function PmtData(record: seq<bv8>, frameIdx: nat, pmtIdx: nat): seq<bv8>
  {
    PySlice(record, PmtStart(frameIdx, pmtIdx), PmtStart(frameIdx, pmtIdx) + DataOnlyPerPmtSize)
  }

  /** The payload of frame `frameIdx` once the data of its first `n` PMTs has
      been appended. */
  function PartialPayload(record: seq<bv8>, frameIdx: nat, n: nat): seq<bv8>
  {
    if n == 0 then [] else PartialPayload(record, frameIdx, n - 1) + PmtData(record, frameIdx, n - 1)
  }

  /** The datagram sent for frame `frameIdx` of `record`. */
  function FramePayload(record: seq<bv8>, frameIdx: nat): seq<bv8>
  {
    PartialPayload(record, frameIdx, PmtsInFrame)
  }

  /** Builds the payload of one frame by appending the data part of each PMT
      block, in ascending order, to an initially empty buffer. */
  method BuildFramePayload(recordData: seq<bv8>, frameIdx: nat) returns (udpPayload: seq<bv8>)
    ensures udpPayload == FramePayload(recordData, frameIdx)
    ensures |recordData| == RecordSize && frameIdx < FramesPerRecord ==> |udpPayload| == PayloadSize
  {
    udpPayload := [];
    var frameStartByte := FramesOffset + frameIdx * FrameSize;
    for pmtIdx := 0 to PmtsInFrame
      invariant udpPayload == PartialPayload(recordData, frameIdx, pmtIdx)
    {
      var pmtStartByte := frameStartByte + pmtIdx * FullPmtSize;
      var pmtDataOnly := PySlice(recordData, pmtStartByte, pmtStartByte + DataOnlyPerPmtSize);
      udpPayload := udpPayload + pmtDataOnly;
    }
    if |recordData| == RecordSize && frameIdx < FramesPerRecord {
      FramePayloadContents(recordData, frameIdx);
    }
  }

  /** In a full record every slice is taken whole: Python's clamping never
      shortens it. */
  lemma PmtDataExact(record: seq<bv8>, frameIdx: nat, pmtIdx: nat)
    requires |record| == RecordSize && frameIdx < FramesPerRecord && pmtIdx < PmtsInFrame
    ensures PmtStart(frameIdx, pmtIdx) + DataOnlyPerPmtSize <= |record|
    ensures PmtData(record, frameIdx, pmtIdx) == record[PmtStart(frameIdx, pmtIdx)..PmtStart(frameIdx, pmtIdx) + DataOnlyPerPmtSize]
    ensures |PmtData(record, frameIdx, pmtIdx)| == DataOnlyPerPmtSize
  {
    PmtDataInRecord(frameIdx, pmtIdx);
    PySliceSemantics(record, PmtStart(frameIdx, pmtIdx), PmtStart(frameIdx, pmtIdx) + DataOnlyPerPmtSize);
  }

  /** A partial payload holds `n` whole slices of 256 bytes. */
  lemma {:induction false} PartialPayloadLength(record: seq<bv8>, frameIdx: nat, n: nat)
    requires |record| == RecordSize && frameIdx < FramesPerRecord && n <= PmtsInFrame
    ensures |PartialPayload(record, frameIdx, n)| == n * DataOnlyPerPmtSize
  {
    if n > 0 {
      PartialPayloadLength(record, frameIdx, n - 1);
      PmtDataExact(record, frameIdx, n - 1);
    }
  }

  /** Byte `j` of the data of PMT `p` sits at position `p * 256 + j` of the
      partial payload, once PMT `p` has been appended. */
  lemma {:induction false} PartialPayloadAt(record: seq<bv8>, frameIdx: nat, n: nat, p: nat, j: nat)
    requires |record| == RecordSize && frameIdx < FramesPerRecord && n <= PmtsInFrame
    requires p < n && j < DataOnlyPerPmtSize
    ensures PmtStart(frameIdx, p) + j < |record|
    ensures p * DataOnlyPerPmtSize + j < |PartialPayload(record, frameIdx, n)|
    ensures PartialPayload(record, frameIdx, n)[p * DataOnlyPerPmtSize + j] == record[PmtStart(frameIdx, p) + j]
    decreases n, 1
  {
    if p < n - 1 {
      EarlierBlockAt(record, frameIdx, n, p, j);
    } else {
      LastBlockAt(record, frameIdx, n, p, j);
    }
  }

  /** The case of `PartialPayloadAt` where PMT `p` was appended before the last one. */
  lemma {:induction false} EarlierBlockAt(record: seq<bv8>, frameIdx: nat, n: nat, p: nat, j: nat)
    requires |record| == RecordSize && frameIdx < FramesPerRecord && n <= PmtsInFrame
    requires p < n - 1 && j < DataOnlyPerPmtSize
    ensures PmtStart(frameIdx, p) + j < |record|
    ensures p * DataOnlyPerPmtSize + j < |PartialPayload(record, frameIdx, n)|
    ensures PartialPayload(record, frameIdx, n)[p * DataOnlyPerPmtSize + j] == record[PmtStart(frameIdx, p) + j]
    decreases n, 0
  {
    var prev := PartialPayload(record, frameIdx, n - 1);
    var last := PmtData(record, frameIdx, n - 1);
    var i := p * DataOnlyPerPmtSize + j;
    assert PmtStart(frameIdx, p) + j < |record| && i < |prev| && prev[i] == record[PmtStart(frameIdx, p) + j] by {
      PartialPayloadAt(record, frameIdx, n - 1, p, j);
    }
    assert PartialPayload(record, frameIdx, n) == prev + last;
    assert (prev + last)[i] == prev[i];
  }

  /** The case of `PartialPayloadAt` where PMT `n - 1` is the one just appended. */
  lemma LastBlockAt(record: seq<bv8>, frameIdx: nat, n: nat, p: nat, j: nat)
    requires |record| == RecordSize && frameIdx < FramesPerRecord && n <= PmtsInFrame
    requires p == n - 1 && j < DataOnlyPerPmtSize
    ensures PmtStart(frameIdx, p) + j < |record|
    ensures p * DataOnlyPerPmtSize + j < |PartialPayload(record, frameIdx, n)|
    ensures PartialPayload(record, frameIdx, n)[p * DataOnlyPerPmtSize + j] == record[PmtStart(frameIdx, p) + j]
  {
    var prev := PartialPayload(record, frameIdx, p);
    var last := PmtData(record, frameIdx, p);
    var src := PmtStart(frameIdx, p) + j;
    var i := p * DataOnlyPerPmtSize + j;
    assert |prev| + j == i by {
      PartialPayloadLength(record, frameIdx, p);
    }
    assert src < |record| && |last| == DataOnlyPerPmtSize && last[j] == record[src] by {
      PmtDataAt(record, frameIdx, p, j);
    }
    assert PartialPayload(record, frameIdx, n) == prev + last;
    assert (prev + last)[i] == last[j];
  }

  /** Byte `j` of the data of a PMT of a full record is record byte `PMT start + j`. */
  lemma PmtDataAt(record: seq<bv8>, frameIdx: nat, pmtIdx: nat, j: nat)
    requires |record| == RecordSize && frameIdx < FramesPerRecord && pmtIdx < PmtsInFrame
    requires j < DataOnlyPerPmtSize
    ensures |PmtData(record, frameIdx, pmtIdx)| == DataOnlyPerPmtSize
    ensures PmtStart(frameIdx, pmtIdx) + j < |record|
    ensures PmtData(record, frameIdx, pmtIdx)[j] == record[PmtStart(frameIdx, pmtIdx) + j]
  {
    PmtDataExact(record, frameIdx, pmtIdx);
  }

  /** Position `k` of a payload is byte `k % 256` of the block of PMT `k / 256`. */
  lemma BlockOf(k: nat)
    ensures k == k / DataOnlyPerPmtSize * DataOnlyPerPmtSize + k % DataOnlyPerPmtSize
    ensures k % DataOnlyPerPmtSize < DataOnlyPerPmtSize
    ensures k < PayloadSize ==> k / DataOnlyPerPmtSize < PmtsInFrame
  {
  }

  /** The payload of a frame of a full record is 9216 bytes long, and byte
      `k` of it is byte `k % 256` of the data part of PMT `k / 256`: the data
      parts of PMTs 0..35 back to back, in ascending order. */
  lemma FramePayloadContents(record: seq<bv8>, frameIdx: nat)
    requires |record| == RecordSize && frameIdx < FramesPerRecord
    ensures |FramePayload(record, frameIdx)| == PayloadSize
    ensures forall k :: 0 <= k < PayloadSize ==>
      PmtStart(frameIdx, k / DataOnlyPerPmtSize) + k % DataOnlyPerPmtSize < |record| &&
      FramePayload(record, frameIdx)[k] == record[PmtStart(frameIdx, k / DataOnlyPerPmtSize) + k % DataOnlyPerPmtSize]
  {
    PartialPayloadLength(record, frameIdx, PmtsInFrame);
    forall k | 0 <= k < PayloadSize
      ensures PmtStart(frameIdx, k / DataOnlyPerPmtSize) + k % DataOnlyPerPmtSize < |record|
      ensures FramePayload(record, frameIdx)[k] == record[PmtStart(frameIdx, k / DataOnlyPerPmtSize) + k % DataOnlyPerPmtSize]
    {
      BlockOf(k);
      PartialPayloadAt(record, frameIdx, PmtsInFrame, k / DataOnlyPerPmtSize, k % DataOnlyPerPmtSize);
    }
  }

  /** Decomposition of a payload position into a PMT index and an offset
      into that PMT's data, and the record byte it comes from. */
  lemma SourceOfPayloadByte(frameIdx: nat, k: nat)
    requires k < PayloadSize
    ensures IsDataByteOf(frameIdx, PmtStart(frameIdx, k / DataOnlyPerPmtSize) + k % DataOnlyPerPmtSize)
  {
    var q, r := k / DataOnlyPerPmtSize, k % DataOnlyPerPmtSize;
    var off := q * FullPmtSize + r;
    assert q < PmtsInFrame;
    assert off / FullPmtSize == q && off % FullPmtSize == r by {
      assert off == q * FullPmtSize + r && 0 <= r < FullPmtSize;
    }
  }

  /** Only the data bytes of frame `frameIdx` of the current record reach
      its payload: two records that agree on those bytes give the same
      payload, whatever their header, their KI and spare words and their
      other frames hold. */
  lemma AuxBytesIgnored(r1: seq<bv8>, r2: seq<bv8>, frameIdx: nat)
    requires |r1| == RecordSize && |r2| == RecordSize && frameIdx < FramesPerRecord
    requires forall i :: 0 <= i < RecordSize && IsDataByteOf(frameIdx, i) ==> r1[i] == r2[i]
    ensures FramePayload(r1, frameIdx) == FramePayload(r2, frameIdx)
  {
    FramePayloadContents(r1, frameIdx);
    FramePayloadContents(r2, frameIdx);
    forall k | 0 <= k < PayloadSize
      ensures FramePayload(r1, frameIdx)[k] == FramePayload(r2, frameIdx)[k]
    {
      SourceOfPayloadByte(frameIdx, k);
    }
  }

  /** Conversely, every data byte of frame `frameIdx` is forwarded: byte `i`
      of the record appears in the payload at the position that its PMT
      index and its offset in the PMT block give. */
  lemma DataByteForwarded(record: seq<bv8>, frameIdx: nat, i: nat)
    requires |record| == RecordSize && frameIdx < FramesPerRecord
    requires IsDataByteOf(frameIdx, i)
    ensures i < |record|
    ensures var off := i - FrameStart(frameIdx);
      var k := off / FullPmtSize * DataOnlyPerPmtSize + off % FullPmtSize;
      k < |FramePayload(record, frameIdx)| && FramePayload(record, frameIdx)[k] == record[i]
  {
    var off := i - FrameStart(frameIdx);
    var k := off / FullPmtSize * DataOnlyPerPmtSize + off % FullPmtSize;
    PayloadPositionOf(off);
    FramePayloadContents(record, frameIdx);
    assert FramePayload(record, frameIdx)[k] == record[PmtStart(frameIdx, k / DataOnlyPerPmtSize) + k % DataOnlyPerPmtSize];
  }

  /** Offset `off` of a data byte inside a frame and its payload position
      `k` name the same PMT and the same byte within it. */
  lemma PayloadPositionOf(off: nat)
    requires off < FrameSize && off % FullPmtSize < DataOnlyPerPmtSize
    ensures var k := off / FullPmtSize * DataOnlyPerPmtSize + off % FullPmtSize;
      k < PayloadSize && k / DataOnlyPerPmtSize == off / FullPmtSize && k % DataOnlyPerPmtSize == off % FullPmtSize &&
      (k / DataOnlyPerPmtSize) * FullPmtSize + k % DataOnlyPerPmtSize == off
  {
    var q, r := off / FullPmtSize, off % FullPmtSize;
    var k := q * DataOnlyPerPmtSize + r;
    assert q < PmtsInFrame;
    assert k / DataOnlyPerPmtSize == q && k % DataOnlyPerPmtSize == r;
  }
}
