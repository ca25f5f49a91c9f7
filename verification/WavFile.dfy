/** The WAV reader and writer of audio_utils.c, on a file whose reads and writes may be
    short or fail. */
module WavFile {
  import opened WavFormat
  import opened Words

  /** An open file descriptor and its file. `stalls` bounds how often a write may take
      nothing at all, so that a write loop cannot be starved for ever. `failed` counts the
      calls that returned a negative number, and `cut` those that moved fewer bytes than
      they were asked to. */
  class AudioFile {
    var bytes: seq<byte>
    var pos: nat
    var stalls: nat
    ghost var failed: nat
    ghost var cut: nat

    constructor (content: seq<byte>, patience: nat)
      ensures bytes == content && pos == 0 && stalls == patience && failed == cut == 0
    {
      bytes, pos, stalls, failed, cut := content, 0, patience, 0, 0;
    }

    /** lseek, whose failure the code never looks at. */
    method LSeek(offset: nat)
      modifies `pos
      ensures pos == SeekTo(offset, old(pos))
    {
      pos := SeekTo(offset, pos);
    }

    /** write: fails, or takes any prefix of the data. */
    method Write(data: seq<byte>) returns (ret: int)
      modifies this
      ensures -1 <= ret <= |data|
      ensures ret < 0 ==> bytes == old(bytes) && pos == old(pos)
      ensures ret >= 0 ==> bytes == Overlay(old(bytes), old(pos), data[..ret]) && pos == old(pos) + ret
      ensures stalls == old(stalls) - if ret == 0 && data != [] then 1 else 0
      ensures failed == old(failed) + if ret < 0 then 1 else 0
      ensures cut == old(cut) + if 0 <= ret < |data| then 1 else 0
    {
      ret :| -1 <= ret <= |data| && (ret == 0 && data != [] ==> stalls > 0);
      if ret < 0 {
        failed := failed + 1;
        return;
      }
      bytes := Overlay(bytes, pos, data[..ret]);
      pos := pos + ret;
      if ret < |data| { cut := cut + 1; }
      if ret == 0 && data != [] { stalls := stalls - 1; }
    }

    /** read: fails, or delivers some of the bytes that remain; none only at the end of the
        file or when none are asked for. */
    method Read(count: nat) returns (ret: int, data: seq<byte>)
      modifies `pos, `failed, `cut
      ensures ret == -1 || 0 <= ret <= count
      ensures ret < 0 ==> pos == old(pos) && data == []
      ensures ret > 0 ==> pos == old(pos) + ret <= |bytes| && data == bytes[old(pos)..pos]
      ensures ret == 0 ==> pos == old(pos) && data == [] && (count == 0 || pos >= |bytes|)
      ensures failed == old(failed) + if ret < 0 then 1 else 0
      ensures cut == old(cut) + if 0 <= ret < count then 1 else 0
    {
      var left := if pos < |bytes| then |bytes| - pos else 0;
      ret :| -1 <= ret <= count && ret <= left && (ret == 0 ==> count == 0 || left == 0);
      data := [];
      if ret > 0 {
        data := bytes[pos..pos + ret];
        pos := pos + ret;
      }
      if ret < 0 {
        failed := failed + 1;
      } else if ret < count {
        cut := cut + 1;
      }
    }

    /** read of a 4-byte word into a variable that held `stack`: cut short only by the end of
        the file. */
    method ReadWord(stack: uint32) returns (ret: int, v: uint32)
      modifies `pos, `failed
      ensures failed == old(failed) + if ret < 0 then 1 else 0
      ensures ret >= 0 ==> v == Patched(bytes, old(pos), stack)
      ensures ret >= 0 ==> pos == if old(pos) >= |bytes| then old(pos)
                                  else if old(pos) + 4 <= |bytes| then old(pos) + 4 else |bytes|
    {
      v := Patched(bytes, pos, stack);
      ret := *;
      if ret < 0 {
        failed := failed + 1;
      } else if pos < |bytes| {
        pos := if pos + 4 <= |bytes| then pos + 4 else |bytes|;
      }
    }

    /** write of a whole 4-byte word. */
    method WriteWord(v: uint32) returns (ret: int)
      modifies this
      ensures stalls == old(stalls)
      ensures failed == old(failed) + if ret < 0 then 1 else 0
      ensures bytes == if ret < 0 then old(bytes) else Overlay(old(bytes), old(pos), Put32(v))
    {
      ret := *;
      if ret < 0 {
        failed := failed + 1;
      } else {
        bytes := Overlay(bytes, pos, Put32(v));
        pos := pos + 4;
      }
    }
  }

  /** write_wav_header's header; the code leaves the file size as it finds it on the stack. */
  function FreshHeader(fileSize: uint32): WavHeader {
    WavHeader(WAV_FILE_BLKID, fileSize, WAV_FILE_FMT_ID, WAV_FMT_BLKID, 16, 1, 2, 48000, 192000, 4, 16,
              WAV_DATA_BLKID, 0)
  }

  /** write_wav_header succeeds exactly when its one write neither fails nor is cut short. */
  method WriteHeader(f: AudioFile, fileSize: uint32) returns (ok: bool, writeRet: int)
    modifies f
    ensures ok <==> f.failed == old(f.failed) && f.cut == old(f.cut)
    ensures ok <==> writeRet == 44
    ensures f.failed == old(f.failed) + if writeRet < 0 then 1 else 0
    ensures ok ==> f.bytes == Overlay(old(f.bytes), 0, Encode(FreshHeader(fileSize)))
    ensures ok ==> FreshBytes(old(f.bytes), f.bytes, fileSize)
  {
    hide Encode, Overlay, FreshBytes;
    var header := Encode(FreshHeader(fileSize));
    EncodeLength(FreshHeader(fileSize));
    f.LSeek(0);
    writeRet := f.Write(header);
    if writeRet < 0 { return false, writeRet; }
    if writeRet < HEADER_SIZE { return false, writeRet; }
    assert header[..writeRet] == header;
    FreshHeaderBytes(old(f.bytes), fileSize);
    ok := true;
  }

  /** The file written, byte by byte: "RIFF", an arbitrary size, "WAVE", "fmt ", 16, PCM, two
      channels, 48000 Hz, 192000 bytes a second, 4 bytes a block, 16 bits, "data", and no
      samples; whatever followed is still there. */
  ghost predicate FreshBytes(was: seq<byte>, now: seq<byte>, fileSize: uint32) {
    && |now| >= 44
    && now[0..4] == [0x52, 0x49, 0x46, 0x46]
    && now[4] as int + 0x100 * now[5] as int + 0x1_0000 * now[6] as int + 0x100_0000 * now[7] as int == fileSize
    && now[8..12] == [0x57, 0x41, 0x56, 0x45]
    && now[12..16] == [0x66, 0x6D, 0x74, 0x20]
    && now[16..24] == [16, 0, 0, 0, 1, 0, 2, 0]
    && now[24..32] == [0x80, 0xBB, 0, 0, 0, 0xEE, 2, 0]
    && now[32..36] == [4, 0, 16, 0]
    && now[36..44] == [0x64, 0x61, 0x74, 0x61, 0, 0, 0, 0]
    && now[44..] == if |was| > 44 then was[44..] else []
  }

  lemma IdentifiersPut()
    ensures Put32(WAV_FILE_BLKID) == [0x52, 0x49, 0x46, 0x46] && Put32(WAV_FILE_FMT_ID) == [0x57, 0x41, 0x56, 0x45]
    ensures Put32(WAV_FMT_BLKID) == [0x66, 0x6D, 0x74, 0x20] && Put32(WAV_DATA_BLKID) == [0x64, 0x61, 0x74, 0x61]
  {}

  lemma NumbersPut(fileSize: uint32)
    ensures Put32(16) + Put16(1) + Put16(2) == [16, 0, 0, 0, 1, 0, 2, 0]
    ensures Put32(48000) + Put32(192000) == [0x80, 0xBB, 0, 0, 0, 0xEE, 2, 0]
    ensures Put16(4) + Put16(16) == [4, 0, 16, 0] && Put32(0) == [0, 0, 0, 0]
    ensures
      var b := Put32(fileSize);
      |b| == 4 && b[0] as int + 0x100 * b[1] as int + 0x1_0000 * b[2] as int + 0x100_0000 * b[3] as int == fileSize
  {}

  lemma FreshHeaderBytes(was: seq<byte>, fileSize: uint32)
    ensures FreshBytes(was, Overlay(was, 0, Encode(FreshHeader(fileSize))), fileSize)
  {
    hide Put32, Put16, Overlay;
    var h := Encode(FreshHeader(fileSize));
    IdentifiersPut();
    NumbersPut(fileSize);
    var format := Put32(16) + Put16(1) + Put16(2);
    var rates := Put32(48000) + Put32(192000);
    var block, data := Put16(4) + Put16(16), Put32(WAV_DATA_BLKID) + Put32(0);
    assert h == Put32(WAV_FILE_BLKID) + Put32(fileSize) + Put32(WAV_FILE_FMT_ID) + Put32(WAV_FMT_BLKID) + format
                + rates + block + data;
    hide Encode;
    EncodeLength(FreshHeader(fileSize));
    HeaderInFront(was, h);
    Blocks(Put32(WAV_FILE_BLKID), Put32(fileSize), Put32(WAV_FILE_FMT_ID), Put32(WAV_FMT_BLKID), format, rates, block,
           data, if |was| > HEADER_SIZE then was[HEADER_SIZE..] else []);
  }

  lemma Blocks(a: seq<byte>, b: seq<byte>, c: seq<byte>, d: seq<byte>, e: seq<byte>, f: seq<byte>, g: seq<byte>,
          h: seq<byte>, rest: seq<byte>)
    requires |a| == |b| == |c| == |d| == |g| == 4 && |e| == |f| == |h| == 8
    ensures
      var s := a + b + c + d + e + f + g + h + rest;
      && |s| == 44 + |rest|
      && s[0..4] == a && s[4] == b[0] && s[5] == b[1] && s[6] == b[2] && s[7] == b[3]
      && s[8..12] == c && s[12..16] == d && s[16..24] == e && s[24..32] == f && s[32..36] == g && s[36..44] == h
      && s[44..] == rest
  {}

  lemma HeaderInFront(was: seq<byte>, header: seq<byte>)
    requires |header| == HEADER_SIZE
    ensures Overlay(was, 0, header) == header + if |was| > HEADER_SIZE then was[HEADER_SIZE..] else []
  {}

  /** A freshly written header makes an empty recording, whatever the file held before. */
  lemma FreshHeaderIsEmpty(bytes: seq<byte>, fileSize: uint32)
    ensures
      var after := Overlay(bytes, 0, Encode(FreshHeader(fileSize)));
      && Whole(after) && SeekFits(after) && Samples(after) == []
      && Decode(after) == FreshHeader(fileSize)
      && (bytes == [] ==> |after| == HEADER_SIZE)
  {
    var header := Encode(FreshHeader(fileSize));
    EncodeLength(FreshHeader(fileSize));
    hide Encode;
    HeaderRoundTrip(FreshHeader(fileSize), if |header| < |bytes| then bytes[|header|..] else []);
    assert Overlay(bytes, 0, header) == header + if |header| < |bytes| then bytes[|header|..] else [];
  }

  predicate Recognized(h: WavHeader) {
    h.fileBlkID == WAV_FILE_BLKID && h.fmtBlkID == WAV_FMT_BLKID && h.dataBlkID == WAV_DATA_BLKID
  }

  /** A ssize_t compared with a size_t is converted to unsigned first. */
  function Unsigned(ret: int): int { if ret < 0 then WORD + ret else ret }

  /** parse_wav_header into a header that held wh0. The failed read is not noticed: its -1
      becomes a huge unsigned number, and wh0 is judged instead of the file. */
  method ParseHeader(f: AudioFile, wh0: WavHeader) returns (ok: bool, wh: WavHeader, readRet: int)
    modifies f`pos, f`failed, f`cut
    ensures readRet <= 44 && f.failed == old(f.failed) + if readRet < 0 then 1 else 0
    ensures readRet == 44 <==> f.failed == old(f.failed) && f.cut == old(f.cut)
    ensures readRet == 44 ==>
      && |f.bytes| >= HEADER_SIZE && wh == Decode(f.bytes)
      && (ok <==> f.bytes[0..4] == [0x52, 0x49, 0x46, 0x46] && f.bytes[12..16] == [0x66, 0x6D, 0x74, 0x20]
                  && f.bytes[36..40] == [0x64, 0x61, 0x74, 0x61])
    ensures 0 <= readRet < 44 ==> !ok
    ensures readRet < 0 ==>
      && wh == wh0
      && (ok <==> wh.fileBlkID == 0x46464952 && wh.fmtBlkID == 0x20746D66 && wh.dataBlkID == 0x61746164)
  {
    f.LSeek(0);
    var data;
    readRet, data := f.Read(HEADER_SIZE);
    wh := wh0;
    if readRet == HEADER_SIZE {
      DecodePrefix(f.bytes);
      wh := Decode(data);
      RecognizedBytes(f.bytes);
    }
    ok := Unsigned(readRet) >= HEADER_SIZE && Recognized(wh);
  }

  lemma IdentifierBytes(s: seq<byte>, at: nat)
    requires at + 4 <= |s|
    ensures Get32(s, at) == 0x46464952 <==> s[at..at + 4] == [0x52, 0x49, 0x46, 0x46]
    ensures Get32(s, at) == 0x20746D66 <==> s[at..at + 4] == [0x66, 0x6D, 0x74, 0x20]
    ensures Get32(s, at) == 0x61746164 <==> s[at..at + 4] == [0x64, 0x61, 0x74, 0x61]
  {}

  lemma RecognizedBytes(s: seq<byte>)
    requires |s| >= HEADER_SIZE
    ensures Recognized(Decode(s)) <==>
      && s[0..4] == [0x52, 0x49, 0x46, 0x46] && s[12..16] == [0x66, 0x6D, 0x74, 0x20]
      && s[36..40] == [0x64, 0x61, 0x74, 0x61]
  {
    hide Get32, Get16;
    IdentifierBytes(s, 0);
    IdentifierBytes(s, 12);
    IdentifierBytes(s, 36);
  }

  lemma SameIdentifiers(s: seq<byte>, front: seq<byte>)
    requires |s| >= HEADER_SIZE && s[..DATA_SIZE_OFFSET] == front
    ensures s[0..4] == front[0..4] && s[12..16] == front[12..16] && s[36..40] == front[36..40]
  {}

  lemma DecodePrefix(s: seq<byte>)
    requires |s| >= HEADER_SIZE
    ensures Decode(s[..HEADER_SIZE]) == Decode(s)
  {}

  /** append_wav_data, whose size variable starts out as `stack`. On success the samples stand
      where the seek led and the size field counts them; on failure only a prefix of them has
      been written there. However short the writes are, it fails only when a call fails. */
  method AppendData(f: AudioFile, samples: seq<byte>, stack: uint32) returns (ok: bool, ghost written: nat)
    requires |samples| < WORD
    modifies f
    ensures ok <==> f.failed == old(f.failed)
    ensures !ok ==> f.failed == old(f.failed) + 1
    ensures written <= |samples|
    ensures f.bytes == if ok then AfterAppendSeen(old(f.bytes), stack, samples)
                       else AfterDataSeen(old(f.bytes), stack, samples[..written])
  {
    hide Overlay, Patched, Put32;
    ghost var before, start := f.bytes, AppendOffset(f.bytes, stack);
    OverlayNothing(before, start);
    written := 0;
    ok := false;
    f.LSeek(DATA_SIZE_OFFSET);
    var readRet, dataSize := f.ReadWord(stack);
    if readRet < 0 { return; }

    f.LSeek((HEADER_SIZE + dataSize) % WORD);
    var rest := samples;
    while true
      invariant written <= |samples| && rest == samples[written..]
      invariant f.bytes == Overlay(before, start, samples[..written])
      invariant f.pos == start + written && f.failed == old(f.failed)
      decreases |rest|, f.stalls
    {
      var writeRet := f.Write(rest);
      if writeRet < 0 { return; }
      NextChunk(before, start, samples, written, writeRet);
      rest := rest[writeRet..];
      written := written + writeRet;
      if |rest| == 0 { break; }
    }
    assert samples[..written] == samples;

    dataSize := (dataSize + |samples|) % WORD;
    f.LSeek(DATA_SIZE_OFFSET);
    var writeRet := f.WriteWord(dataSize);
    if writeRet < 0 { return; }
    ok := true;
  }

  lemma NextChunk(before: seq<byte>, start: nat, data: seq<byte>, written: nat, more: nat)
    requires written + more <= |data|
    ensures
      Overlay(Overlay(before, start, data[..written]), start + written, data[written..][..more])
      == Overlay(before, start, data[..written + more])
    ensures data[written..][more..] == data[written + more..]
  {
    hide Overlay;
    OverlayConcat(before, start, data[..written], data[written..][..more]);
    assert data[..written] + data[written..][..more] == data[..written + more];
  }

  /** write_wav_data: the samples at offset 44, or on failure a prefix of them; the size field
      is not touched. It succeeds exactly when no write fails or takes nothing. */
  method WriteData(f: AudioFile, samples: seq<byte>) returns (ok: bool, ghost written: nat)
    modifies f
    ensures ok <==> f.failed == old(f.failed) && f.stalls == old(f.stalls)
    ensures written <= |samples| && (ok ==> written == |samples|)
    ensures f.bytes == Overlay(old(f.bytes), HEADER_SIZE, samples[..written])
  {
    hide Overlay;
    OverlayNothing(f.bytes, HEADER_SIZE);
    ghost var before := f.bytes;
    written := 0;
    ok := false;
    f.LSeek(HEADER_SIZE);
    var rest := samples;
    while true
      invariant written <= |samples| && rest == samples[written..]
      invariant f.bytes == Overlay(before, HEADER_SIZE, samples[..written])
      invariant f.pos == HEADER_SIZE + written && f.failed == old(f.failed) && f.stalls == old(f.stalls)
      decreases |rest|
    {
      var writeRet := f.Write(rest);
      if writeRet < 0 { return; }
      NextChunk(before, HEADER_SIZE, samples, written, writeRet);
      rest := rest[writeRet..];
      written := written + writeRet;
      if writeRet == 0 && |rest| > 0 { return; }
      if |rest| == 0 { break; }
    }
    ok := true;
  }

  /** copy_wav_data: exactly dataSize bytes from offset 44, unless a read fails or the file
      is too short for them. */
  method CopyData(f: AudioFile, dataSize: nat) returns (ok: bool, copied: seq<byte>)
    modifies f`pos, f`failed, f`cut
    ensures ok <==> f.failed == old(f.failed) && (dataSize == 0 || HEADER_SIZE + dataSize <= |f.bytes|)
    ensures ok ==> |copied| == dataSize
    ensures ok && dataSize > 0 ==> copied == f.bytes[HEADER_SIZE..HEADER_SIZE + dataSize]
    ensures ok && Whole(f.bytes) && dataSize == DataSize(f.bytes) ==> copied == Samples(f.bytes)
  {
    f.LSeek(HEADER_SIZE);
    copied := [];
    var toRead: nat := dataSize;
    while true
      invariant toRead + |copied| == dataSize
      invariant f.pos == HEADER_SIZE + |copied| && f.failed == old(f.failed)
      invariant copied != [] ==> f.pos <= |f.bytes| && copied == f.bytes[HEADER_SIZE..f.pos]
      decreases toRead
    {
      var readRet, data := f.Read(toRead);
      if readRet < 0 { return false, copied; }
      if readRet == 0 && toRead > 0 { return false, copied; }
      toRead := toRead - readRet;
      copied := copied + data;
      if toRead == 0 { break; }
    }
    ok := true;
  }

  // ----- whole recordings -----

  /** One call of append_wav_data and how it ended. */
  datatype Attempt = Done(data: seq<byte>) | Cut(written: seq<byte>)

  function AfterAttempts(bytes: seq<byte>, attempts: seq<Attempt>): seq<byte>
    requires |bytes| >= HEADER_SIZE
    decreases |attempts|
  {
    if attempts == [] then bytes
    else
      var next := match attempts[0]
        case Done(data) => AfterAppend(bytes, data)
        case Cut(written) => AfterData(bytes, written);
      if |next| < HEADER_SIZE then next else AfterAttempts(next, attempts[1..])
  }

  function Appended(attempt: Attempt): seq<byte> {
    match attempt
    case Done(data) => data
    case Cut(_) => []
  }

  /** What the successful attempts appended, in order. */
  function Recorded(attempts: seq<Attempt>): seq<byte>
    decreases |attempts|
  {
    if attempts == [] then [] else Appended(attempts[0]) + Recorded(attempts[1..])
  }

  /** No attempt on a recording of `size` bytes meets an offset of 2^31 or makes a size of 2^32. */
  ghost predicate Fits(size: nat, attempts: seq<Attempt>)
    decreases |attempts|
  {
    attempts != [] ==>
      && HEADER_SIZE + size < OFF_LIMIT
      && size + |Appended(attempts[0])| < WORD
      && Fits(size + |Appended(attempts[0])|, attempts[1..])
  }

  /** After any mix of successful and failed appends the recording is what it was followed
      by the data of the successful ones, in order. */
  lemma {:induction false} AttemptsRecorded(bytes: seq<byte>, attempts: seq<Attempt>)
    requires Whole(bytes) && Fits(DataSize(bytes), attempts)
    ensures
      var after := AfterAttempts(bytes, attempts);
      Whole(after) && Samples(after) == Samples(bytes) + Recorded(attempts)
    decreases |attempts|
  {
    hide AfterAppend, AfterData, DataSize, Overlay, Samples;
    if attempts != [] {
      SamplesLength(bytes);
      match attempts[0]
      case Done(data) =>
        AppendAddsSamples(bytes, data);
        SamplesLength(AfterAppend(bytes, data));
        AttemptsRecorded(AfterAppend(bytes, data), attempts[1..]);
      case Cut(written) =>
        FailedAppendKeepsSamples(bytes, written);
        SamplesLength(AfterData(bytes, written));
        AttemptsRecorded(AfterData(bytes, written), attempts[1..]);
    }
  }

  lemma SamplesLength(bytes: seq<byte>)
    requires Whole(bytes)
    ensures |Samples(bytes)| == DataSize(bytes)
  {}

  function Joined(chunks: seq<seq<byte>>): seq<byte> {
    if chunks == [] then [] else Joined(chunks[..|chunks| - 1]) + chunks[|chunks| - 1]
  }

  lemma {:induction false} JoinedGrows(chunks: seq<seq<byte>>, i: nat)
    requires i < |chunks|
    ensures Joined(chunks[..i + 1]) == Joined(chunks[..i]) + chunks[i]
    ensures |Joined(chunks[..i + 1])| <= |Joined(chunks)|
    ensures |Joined(chunks[..i])| <= |Joined(chunks[..|chunks| - 1])|
    decreases |chunks|
  {
    assert chunks[..i + 1][..i] == chunks[..i];
    if i + 1 < |chunks| {
      var most := chunks[..|chunks| - 1];
      JoinedGrows(most, i);
      assert most[..i + 1] == chunks[..i + 1] && most[..i] == chunks[..i];
    } else {
      assert chunks[..i + 1] == chunks;
    }
  }

  /** A whole session: a new header, any number of appends, and the reading back, as long as
      the recording is below 2^31 at every seek. When every call reports success, what was read
      is what was appended, unless the header was judged unread (a failed read over a header
      variable that already held the three identifiers). And they all do, as soon as no call
      fails and the header is neither written nor read in part. */
  method RecordAndRead(f: AudioFile, fileSize: uint32, chunks: seq<seq<byte>>, stack: uint32, wh0: WavHeader)
    returns (ok: bool, copied: seq<byte>, writeRet: int, readRet: int)
    requires chunks != [] ==> HEADER_SIZE + |Joined(chunks[..|chunks| - 1])| < OFF_LIMIT
    requires |Joined(chunks)| < WORD
    modifies f
    ensures ok && !(readRet < 0 && Recognized(wh0)) ==> copied == Joined(chunks)
    ensures !(readRet < 0 && Recognized(wh0)) ==>
      (ok <==> f.failed == old(f.failed) && writeRet == 44 && readRet == 44)
  {
    hide Overlay, Samples, AfterAppend, AfterAppendSeen, AfterDataSeen, Encode, FreshBytes;
    copied, readRet := [], 0;
    ok, writeRet := WriteHeader(f, fileSize);
    if !ok { return; }
    FreshHeaderIsEmpty(old(f.bytes), fileSize);
    ghost var front := f.bytes[..DATA_SIZE_OFFSET];
    SameIdentifiers(f.bytes, front);
    RecognizedBytes(f.bytes);
    for i := 0 to |chunks|
      invariant Whole(f.bytes) && DataSize(f.bytes) == |Joined(chunks[..i])|
      invariant Samples(f.bytes) == Joined(chunks[..i])
      invariant f.failed == old(f.failed) && f.bytes[..DATA_SIZE_OFFSET] == front
    {
      JoinedGrows(chunks, i);
      AppendAddsSamples(f.bytes, chunks[i]);
      AppendKeepsHeader(f.bytes, chunks[i]);
      HeaderSeen(f.bytes, stack, chunks[i]);
      ghost var written;
      ok, written := AppendData(f, chunks[i], stack);
      if !ok { return; }
      SamplesLength(f.bytes);
    }
    assert chunks[..|chunks|] == chunks;
    SameIdentifiers(f.bytes, front);
    var wh;
    ok, wh, readRet := ParseHeader(f, wh0);
    if !ok { return; }
    ok, copied := CopyData(f, wh.dataSize);
  }

  /** write_wav_data, then copy_wav_data of the same length, gives the samples back. */
  lemma WrittenDataReadBack(bytes: seq<byte>, samples: seq<byte>)
    requires |bytes| >= HEADER_SIZE
    ensures
      var after := Overlay(bytes, HEADER_SIZE, samples);
      HEADER_SIZE + |samples| <= |after| && after[HEADER_SIZE..HEADER_SIZE + |samples|] == samples
  {}
}
