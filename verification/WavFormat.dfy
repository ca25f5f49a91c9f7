/** The byte layout that audio_utils.c relies on: the 44-byte header of the "Waveform Audio
    File Format (WAVE)" section, chapter 3 of the IBM/Microsoft Multimedia Programming
    Interface and Data Specifications 1.0, stored little-endian. */
module WavFormat {
  import opened Words

  const WAV_FILE_BLKID: uint32 := 0x46464952
  const WAV_FILE_FMT_ID: uint32 := 0x45564157
  const WAV_FMT_BLKID: uint32 := 0x20746D66
  const WAV_DATA_BLKID: uint32 := 0x61746164

  const HEADER_SIZE := 44
  const DATA_SIZE_OFFSET := 40

  function Put16(v: uint16): seq<byte> { [v % 0x100, v / 0x100] }

  function Put32(v: uint32): seq<byte> { Put16(v % 0x1_0000) + Put16(v / 0x1_0000) }

  function Get16(s: seq<byte>, at: nat): uint16
    requires at + 2 <= |s|
  {
    s[at] as int + 0x100 * s[at + 1] as int
  }

  function Get32(s: seq<byte>, at: nat): uint32
    requires at + 4 <= |s|
  {
    Get16(s, at) + 0x1_0000 * Get16(s, at + 2)
  }

  lemma PutGet(v: uint32, w: uint16)
    ensures Get32(Put32(v), 0) == v
    ensures Get16(Put16(w), 0) == w
  {}

  /** Reading a word depends only on its own bytes. */
  lemma GetSlice(s: seq<byte>, at: nat)
    ensures at + 4 <= |s| ==> Get32(s, at) == Get32(s[at..at + 4], 0)
    ensures at + 2 <= |s| ==> Get16(s, at) == Get16(s[at..at + 2], 0)
  {}

  /** struct wav_header. */
  datatype WavHeader = WavHeader(
    fileBlkID: uint32, fileSize: uint32, fileFmtID: uint32,
    fmtBlkID: uint32, blkSize: uint32, audioFmt: uint16, numChan: uint16, freq: uint32,
    bytesPerSec: uint32, bytesPerBlk: uint16, bitsPerSample: uint16,
    dataBlkID: uint32, dataSize: uint32)

  function Encode(h: WavHeader): seq<byte> {
    Put32(h.fileBlkID) + Put32(h.fileSize) + Put32(h.fileFmtID)
    + Put32(h.fmtBlkID) + Put32(h.blkSize) + Put16(h.audioFmt) + Put16(h.numChan) + Put32(h.freq)
    + Put32(h.bytesPerSec) + Put16(h.bytesPerBlk) + Put16(h.bitsPerSample)
    + Put32(h.dataBlkID) + Put32(h.dataSize)
  }

  function Decode(s: seq<byte>): WavHeader
    requires |s| >= HEADER_SIZE
  {
    WavHeader(Get32(s, 0), Get32(s, 4), Get32(s, 8),
              Get32(s, 12), Get32(s, 16), Get16(s, 20), Get16(s, 22), Get32(s, 24),
              Get32(s, 28), Get16(s, 32), Get16(s, 34),
              Get32(s, 36), Get32(s, DATA_SIZE_OFFSET))
  }

  lemma EncodeLength(h: WavHeader)
    ensures |Encode(h)| == HEADER_SIZE
  {}

  /** A header survives the trip through the file, whatever follows it. */
  lemma HeaderRoundTrip(h: WavHeader, rest: seq<byte>)
    ensures Decode(Encode(h) + rest) == h
  {
    var s := Encode(h) + rest;
    assert s[0..4] == Put32(h.fileBlkID) && s[4..8] == Put32(h.fileSize) && s[8..12] == Put32(h.fileFmtID);
    assert s[12..16] == Put32(h.fmtBlkID) && s[16..20] == Put32(h.blkSize);
    assert s[20..22] == Put16(h.audioFmt) && s[22..24] == Put16(h.numChan) && s[24..28] == Put32(h.freq);
    assert s[28..32] == Put32(h.bytesPerSec) && s[32..34] == Put16(h.bytesPerBlk) && s[34..36] == Put16(h.bitsPerSample);
    assert s[36..40] == Put32(h.dataBlkID) && s[40..44] == Put32(h.dataSize);
    hide Encode, Put32, Put16, Get32, Get16;
    GetSlice(s, 0); GetSlice(s, 4); GetSlice(s, 8); GetSlice(s, 12); GetSlice(s, 16); GetSlice(s, 20);
    GetSlice(s, 22); GetSlice(s, 24); GetSlice(s, 28); GetSlice(s, 32); GetSlice(s, 34); GetSlice(s, 36); GetSlice(s, 40);
    PutGet(h.fileBlkID, h.audioFmt); PutGet(h.fileSize, h.numChan); PutGet(h.fileFmtID, h.bytesPerBlk);
    PutGet(h.fmtBlkID, h.bitsPerSample); PutGet(h.blkSize, 0); PutGet(h.freq, 0); PutGet(h.bytesPerSec, 0);
    PutGet(h.dataBlkID, 0); PutGet(h.dataSize, 0);
  }

  // ----- what a write leaves in a file, and what the file means -----

  function Zeros(n: nat): seq<byte> { seq(n, (i: nat) => 0) }

  /** data written at offset pos; a gap past the old end reads as zeros. */
  function Overlay(bytes: seq<byte>, pos: nat, data: seq<byte>): seq<byte> {
    if data == [] then bytes
    else if pos >= |bytes| then bytes + Zeros(pos - |bytes|) + data
    else bytes[..pos] + data + if pos + |data| < |bytes| then bytes[pos + |data|..] else []
  }

  function DataSize(bytes: seq<byte>): uint32
    requires |bytes| >= HEADER_SIZE
  {
    Get32(bytes, DATA_SIZE_OFFSET)
  }

  /** The header is there and the file holds the samples it promises. */
  predicate Whole(bytes: seq<byte>) {
    |bytes| >= HEADER_SIZE && HEADER_SIZE + DataSize(bytes) <= |bytes|
  }

  /** The recorded samples: data_size bytes from offset 44. */
  function Samples(bytes: seq<byte>): seq<byte>
    requires Whole(bytes)
  {
    bytes[HEADER_SIZE..HEADER_SIZE + DataSize(bytes)]
  }

  lemma OverlayNothing(bytes: seq<byte>, pos: nat)
    ensures Overlay(bytes, pos, []) == bytes
  {}

  /** Byte by byte, what a write leaves. */
  lemma OverlayAt(bytes: seq<byte>, pos: nat, data: seq<byte>)
    requires data != []
    ensures
      var after, end := Overlay(bytes, pos, data), pos + |data|;
      && |after| == (if |bytes| < end then end else |bytes|)
      && forall i: nat | i < |after| ::
           after[i] == if pos <= i < end then data[i - pos] else if i < |bytes| then bytes[i] else 0
  {}

  /** Two writes in a row at consecutive offsets are one write. */
  lemma OverlayConcat(bytes: seq<byte>, pos: nat, a: seq<byte>, b: seq<byte>)
    ensures Overlay(Overlay(bytes, pos, a), pos + |a|, b) == Overlay(bytes, pos, a + b)
  {
    if a == [] {
      assert a + b == b;
    } else if b == [] {
      assert a + b == a;
    } else {
      hide Overlay;
      OverlayAt(bytes, pos, a);
      OverlayAt(Overlay(bytes, pos, a), pos + |a|, b);
      OverlayAt(bytes, pos, a + b);
    }
  }

  // ----- appending -----

  /** off_t is a signed 32-bit long: lseek refuses larger offsets, which arrive negative, and
      leaves the file position where it was. */
  const OFF_LIMIT := 0x8000_0000

  function SeekTo(offset: nat, here: nat): nat { if offset < OFF_LIMIT then offset else here }

  /** A 4-byte read at a position into a word that held `stack`: at the end of the file only
      the bytes that are there replace it. */
  function Patched(bytes: seq<byte>, at: nat, stack: uint32): uint32 {
    var have := if at >= |bytes| then [] else if at + 4 <= |bytes| then bytes[at..at + 4] else bytes[at..];
    Get32(have + Put32(stack)[|have|..], 0)
  }

  /** The data size that append_wav_data works with, and its file position after reading it. */
  function SizeSeen(bytes: seq<byte>, stack: uint32): uint32 { Patched(bytes, DATA_SIZE_OFFSET, stack) }

  function AfterSizeRead(bytes: seq<byte>): nat {
    if |bytes| >= HEADER_SIZE then HEADER_SIZE
    else if |bytes| > DATA_SIZE_OFFSET then |bytes|
    else DATA_SIZE_OFFSET
  }

  /** Where append_wav_data writes: the offset is computed in 32 bits, and the seek may fail. */
  function AppendOffset(bytes: seq<byte>, stack: uint32): nat {
    SeekTo((HEADER_SIZE + SizeSeen(bytes, stack)) % WORD, AfterSizeRead(bytes))
  }

  function WithDataSize(bytes: seq<byte>, size: nat): seq<byte> {
    Overlay(bytes, DATA_SIZE_OFFSET, Put32(size % WORD))
  }

  /** The file after an append whose data loop ends early, with `data` written. */
  function AfterDataSeen(bytes: seq<byte>, stack: uint32, data: seq<byte>): seq<byte> {
    Overlay(bytes, AppendOffset(bytes, stack), data)
  }

  /** The file after an append that reports success. */
  function AfterAppendSeen(bytes: seq<byte>, stack: uint32, data: seq<byte>): seq<byte> {
    WithDataSize(AfterDataSeen(bytes, stack, data), SizeSeen(bytes, stack) + |data|)
  }

  /** With a whole header in the file the stack plays no part. */
  function AfterData(bytes: seq<byte>, data: seq<byte>): seq<byte>
    requires |bytes| >= HEADER_SIZE
  {
    Overlay(bytes, SeekTo((HEADER_SIZE + DataSize(bytes)) % WORD, HEADER_SIZE), data)
  }

  function AfterAppend(bytes: seq<byte>, data: seq<byte>): seq<byte>
    requires |bytes| >= HEADER_SIZE
  {
    WithDataSize(AfterData(bytes, data), DataSize(bytes) + |data|)
  }

  lemma PutOfGet(s: seq<byte>)
    requires |s| == 4
    ensures Put32(Get32(s, 0)) == s
  {}

  /** On a file that ends inside the size field or before it, each byte of the size worked
      with is the file's if it is there and the stack's otherwise. */
  lemma ShortSizeSeen(bytes: seq<byte>, stack: uint32, i: nat)
    requires i < 4
    ensures
      Put32(SizeSeen(bytes, stack))[i]
      == if DATA_SIZE_OFFSET + i < |bytes| then bytes[DATA_SIZE_OFFSET + i] else Put32(stack)[i]
  {
    hide Get32;
    var at := DATA_SIZE_OFFSET;
    var have := if at >= |bytes| then [] else if at + 4 <= |bytes| then bytes[at..at + 4] else bytes[at..];
    PutOfGet(have + Put32(stack)[|have|..]);
  }

  lemma HeaderSeen(bytes: seq<byte>, stack: uint32, data: seq<byte>)
    requires |bytes| >= HEADER_SIZE
    ensures SizeSeen(bytes, stack) == DataSize(bytes)
    ensures AfterDataSeen(bytes, stack, data) == AfterData(bytes, data)
    ensures AfterAppendSeen(bytes, stack, data) == AfterAppend(bytes, data)
  {
    hide Overlay;
    var have := bytes[DATA_SIZE_OFFSET..HEADER_SIZE];
    assert have + Put32(stack)[4..] == have;
    GetSlice(bytes, DATA_SIZE_OFFSET);
  }

  /** The seek to the end of the samples neither wraps nor fails. */
  predicate SeekFits(bytes: seq<byte>)
    requires |bytes| >= HEADER_SIZE
  {
    HEADER_SIZE + DataSize(bytes) < OFF_LIMIT
  }

  lemma SizeFieldWritten(bytes: seq<byte>, size: nat)
    requires |bytes| >= HEADER_SIZE
    ensures
      var after := WithDataSize(bytes, size);
      && |after| == |bytes|
      && after[..DATA_SIZE_OFFSET] == bytes[..DATA_SIZE_OFFSET]
      && after[HEADER_SIZE..] == bytes[HEADER_SIZE..]
      && DataSize(after) == size % WORD
  {}

  /** Data written behind the samples changes neither the header nor the samples. */
  lemma DataWritten(bytes: seq<byte>, data: seq<byte>)
    requires Whole(bytes) && SeekFits(bytes)
    ensures
      var after, end := AfterData(bytes, data), HEADER_SIZE + DataSize(bytes);
      && |after| == (if |bytes| < end + |data| then end + |data| else |bytes|)
      && after[..end] == bytes[..end] && after[end..end + |data|] == data
      && DataSize(after) == DataSize(bytes)
  {}

  /** An append that fails in its data loop leaves the recorded samples as they were. */
  lemma FailedAppendKeepsSamples(bytes: seq<byte>, data: seq<byte>)
    requires Whole(bytes) && SeekFits(bytes)
    ensures Whole(AfterData(bytes, data)) && Samples(AfterData(bytes, data)) == Samples(bytes)
    ensures SeekFits(AfterData(bytes, data)) && AfterData(bytes, data)[..HEADER_SIZE] == bytes[..HEADER_SIZE]
  {
    var after, end := AfterData(bytes, data), HEADER_SIZE + DataSize(bytes);
    DataWritten(bytes, data);
    assert Samples(after) == after[..end][HEADER_SIZE..];
    assert Samples(bytes) == bytes[..end][HEADER_SIZE..];
    assert after[..HEADER_SIZE] == after[..end][..HEADER_SIZE] && bytes[..HEADER_SIZE] == bytes[..end][..HEADER_SIZE];
  }

  /** A successful append adds its data behind the recorded samples ... */
  lemma AppendAddsSamples(bytes: seq<byte>, data: seq<byte>)
    requires Whole(bytes) && SeekFits(bytes) && DataSize(bytes) + |data| < WORD
    ensures Whole(AfterAppend(bytes, data)) && Samples(AfterAppend(bytes, data)) == Samples(bytes) + data
  {
    hide AfterData, DataSize, WithDataSize;
    var ds, mid := DataSize(bytes), AfterData(bytes, data);
    DataWritten(bytes, data);
    FailedAppendKeepsSamples(bytes, data);
    SizeFieldWritten(mid, ds + |data|);
    SplitAt(AfterAppend(bytes, data), mid, HEADER_SIZE, ds, |data|);
  }

  /** ... and keeps the header up to the size field. */
  lemma AppendKeepsHeader(bytes: seq<byte>, data: seq<byte>)
    requires Whole(bytes) && SeekFits(bytes)
    ensures |AfterAppend(bytes, data)| >= HEADER_SIZE
    ensures AfterAppend(bytes, data)[..DATA_SIZE_OFFSET] == bytes[..DATA_SIZE_OFFSET]
  {
    hide AfterData, DataSize, WithDataSize;
    var mid := AfterData(bytes, data);
    FailedAppendKeepsSamples(bytes, data);
    SizeFieldWritten(mid, DataSize(bytes) + |data|);
    assert mid[..DATA_SIZE_OFFSET] == mid[..HEADER_SIZE][..DATA_SIZE_OFFSET];
    assert bytes[..DATA_SIZE_OFFSET] == bytes[..HEADER_SIZE][..DATA_SIZE_OFFSET];
  }

  lemma SplitAt(s: seq<byte>, t: seq<byte>, at: nat, m: nat, n: nat)
    requires at + m + n <= |s| == |t| && s[at..] == t[at..]
    ensures s[at..at + m + n] == t[at..at + m] + t[at + m..at + m + n]
  {}

  /** On a file that ends with its samples, an append of something records it exactly when
      the seek offset is below 2^31 and the new size below 2^32. */
  lemma AppendExact(bytes: seq<byte>, data: seq<byte>)
    requires Whole(bytes) && |bytes| == HEADER_SIZE + DataSize(bytes) && 0 < |data| < WORD
    ensures
      Whole(AfterAppend(bytes, data)) && Samples(AfterAppend(bytes, data)) == Samples(bytes) + data
      <==> SeekFits(bytes) && DataSize(bytes) + |data| < WORD
  {
    var ds := DataSize(bytes);
    if SeekFits(bytes) && ds + |data| < WORD {
      AppendAddsSamples(bytes, data);
    } else {
      SizeFieldWritten(AfterData(bytes, data), ds + |data|);
    }
  }

  /** Behind 2^31 the failed seek goes unnoticed: the oldest samples s are overwritten, while
      the size field counts the new ones as added. */
  lemma AppendOverwrites(h: WavHeader, s: seq<byte>, data: seq<byte>)
    requires |s| == h.dataSize && OFF_LIMIT <= HEADER_SIZE + |s| < WORD && 0 < |data| <= |s|
    ensures DataSize(Encode(h) + s) == |s| && Samples(Encode(h) + s) == s
    ensures AfterData(Encode(h) + s, data) == Encode(h) + data + s[|data|..]
    ensures DataSize(AfterAppend(Encode(h) + s, data)) == (|s| + |data|) % WORD
    ensures AfterAppend(Encode(h) + s, data)[HEADER_SIZE..] == data + s[|data|..]
  {
    hide Encode, Overlay, WithDataSize, Get32, Put32;
    var bytes := Encode(h) + s;
    EncodeLength(h);
    HeaderRoundTrip(h, s);
    Overwritten(Encode(h), s, data);
    SizeFieldWritten(AfterData(bytes, data), |s| + |data|);
  }

  lemma Overwritten(front: seq<byte>, s: seq<byte>, data: seq<byte>)
    requires |data| <= |s|
    ensures (front + s)[|front|..] == s
    ensures Overlay(front + s, |front|, data) == front + data + s[|data|..]
    ensures (front + data + s[|data|..])[|front|..] == data + s[|data|..]
  {}
}
