/** Write-ahead log records, their frames, and scanning a log. */
module WalCodec {
  import opened Bytes

  type Word = w: int | 0 <= w < 0x1_0000_0000

  /** The checksum is left open: any function from bytes to 32-bit words. */
  type Crc = seq<Byte> -> Word

  datatype RecordKind = Mutate | TxCommit | TxRollback

  datatype WalRecord = WalRecord(lsn: nat, txId: nat, kind: RecordKind, pageId: nat, before: seq<Byte>,
                                 after: seq<Byte>)

  /** Why a frame does not decode: refused as corrupt, or a field that does not unpack. */
  datatype DecodeError = LogCorrupt | BadField

  datatype Decoded = Ok(rec: WalRecord) | Err(error: DecodeError)

  const MAGIC: seq<Byte> := [84, 73, 78, 89, 87, 65, 76, 49]
  const HEADER_SIZE: int := 16
  const FIELDS_SIZE: int := 15
  const CHECKSUM_SIZE: int := 4

  function KindCode(k: RecordKind): Byte {
    match k case Mutate => 1 case TxCommit => 2 case TxRollback => 3
  }

  function KindOf(code: Byte): Option<RecordKind> {
    if code == 1 then Some(Mutate)
    else if code == 2 then Some(TxCommit)
    else if code == 3 then Some(TxRollback)
    else None
  }

  /** The records that the fixed-width fields can hold. */
  predicate Loggable(r: WalRecord) {
    r.lsn < U32_LIMIT && r.txId < U32_LIMIT && r.pageId < U16_LIMIT && |r.before| < U16_LIMIT && |r.after| < U16_LIMIT
  }

  function Fields(r: WalRecord): (b: seq<Byte>)
    requires Loggable(r)
    ensures |b| == FIELDS_SIZE
  {
    U32(r.lsn) + [KindCode(r.kind)] + U32(r.txId) + U16(r.pageId) + U16(|r.before|) + U16(|r.after|)
  }

  function RecordBody(r: WalRecord): (b: seq<Byte>)
    requires Loggable(r)
    ensures |b| == FIELDS_SIZE + |r.before| + |r.after|
  {
    Fields(r) + r.before + r.after
  }

  function EncodeRecord(r: WalRecord, crc: Crc): (frame: seq<Byte>)
    requires Loggable(r)
    ensures |frame| == HEADER_SIZE + FIELDS_SIZE + |r.before| + |r.after| + CHECKSUM_SIZE
  {
    var body := RecordBody(r);
    MAGIC + U32(|body| + CHECKSUM_SIZE) + U32(crc(body)) + body + U32(crc(body))
  }

  function DecodeBody(body: seq<Byte>): Decoded {
    if |body| < FIELDS_SIZE then Err(BadField)
    else
      var beforeLen, afterLen := GetU16(body[11..13]), GetU16(body[13..15]);
      var payload := body[FIELDS_SIZE..];
      match KindOf(body[4])
      case None => Err(BadField)
      case Some(kind) =>
        Ok(WalRecord(GetU32(body[..4]), GetU32(body[5..9]), kind, GetU16(body[9..11]),
                     Slice(payload, 0, beforeLen), Slice(payload, beforeLen, beforeLen + afterLen)))
  }

  function DecodeRecord(raw: seq<Byte>, crc: Crc): Decoded {
    if |raw| < HEADER_SIZE || raw[..8] != MAGIC then Err(LogCorrupt)
    else
      var length, expected := GetU32(raw[8..12]), GetU32(raw[12..16]);
      var end := HEADER_SIZE + length;
      if |raw| < end then Err(LogCorrupt)
      else if length < CHECKSUM_SIZE then Err(BadField)
      else
        var body, stored := raw[HEADER_SIZE..end - CHECKSUM_SIZE], GetU32(raw[end - CHECKSUM_SIZE..end]);
        if crc(body) != expected || crc(body) != stored then Err(LogCorrupt) else DecodeBody(body)
  }

  lemma BodyRoundTrip(r: WalRecord)
    requires Loggable(r)
    ensures DecodeBody(RecordBody(r)) == Ok(r)
  {
    hide U32, U16, GetU32, GetU16;
    var b := RecordBody(r);
    assert b[..4] == U32(r.lsn);
    assert b[5..9] == U32(r.txId);
    assert b[9..11] == U16(r.pageId);
    assert b[11..13] == U16(|r.before|);
    assert b[13..15] == U16(|r.after|);
    assert b[FIELDS_SIZE..] == r.before + r.after;
    assert Slice(r.before + r.after, 0, |r.before|) == r.before;
    assert Slice(r.before + r.after, |r.before|, |r.before| + |r.after|) == r.after;
  }

  lemma FrameParts(r: WalRecord, crc: Crc)
    requires Loggable(r)
    ensures
      var f, body := EncodeRecord(r, crc), RecordBody(r);
      && f[..8] == MAGIC && f[8..12] == U32(|body| + CHECKSUM_SIZE) && f[12..16] == U32(crc(body))
      && f[16..|f| - 4] == body && f[|f| - 4..] == U32(crc(body)) && |f| == HEADER_SIZE + |body| + CHECKSUM_SIZE
  {
    hide RecordBody, U32, MAGIC;
  }

  /** Decoding undoes encoding, whatever the checksum function is. */
  lemma RecordRoundTrip(r: WalRecord, crc: Crc)
    requires Loggable(r)
    ensures DecodeRecord(EncodeRecord(r, crc), crc) == Ok(r)
  {
    hide RecordBody, DecodeBody, EncodeRecord;
    FrameParts(r, crc);
    BodyRoundTrip(r);
    var f := EncodeRecord(r, crc);
    assert f[|f| - 4..|f|] == f[|f| - 4..];
  }

  // ---- scanning

  datatype ScanEnd = Clean | Failed(error: DecodeError)

  datatype Scanned = Scanned(records: seq<WalRecord>, end: ScanEnd)

  /** The length that the header of the first frame announces for the whole frame. */
  function FrameLength(log: seq<Byte>): nat
    requires |log| >= HEADER_SIZE
  {
    HEADER_SIZE + GetU32(log[8..12])
  }

  /**
    * Frame after frame from the start; fewer bytes than a header end the scan quietly, a bad frame ends it with its
    * error.
    */
  function Scan(log: seq<Byte>, crc: Crc): Scanned
    decreases |log|
  {
    if |log| < HEADER_SIZE then Scanned([], Clean)
    else
      var n := FrameLength(log);
      match DecodeRecord(Slice(log, 0, n), crc)
      case Err(e) => Scanned([], Failed(e))
      case Ok(r) =>
        var rest := Scan(Slice(log, n, |log|), crc);
        Scanned([r] + rest.records, rest.end)
  }

  ghost predicate AllLoggable(records: seq<WalRecord>) {
    forall i :: 0 <= i < |records| ==> Loggable(records[i])
  }

  /** The frames of a list of records, one after the other. */
  ghost function Frames(records: seq<WalRecord>, crc: Crc): seq<Byte>
    requires AllLoggable(records)
  {
    if records == [] then [] else EncodeRecord(records[0], crc) + Frames(records[1..], crc)
  }

  /** How many of the frames lie wholly in the first `size` bytes. */
  ghost function Whole(records: seq<WalRecord>, crc: Crc, size: nat): (n: nat)
    requires AllLoggable(records)
    ensures n <= |records|
  {
    if records == [] || size < |EncodeRecord(records[0], crc)| then 0
    else 1 + Whole(records[1..], crc, size - |EncodeRecord(records[0], crc)|)
  }

  /** How many bytes follow the last frame that is there as a whole. */
  ghost function Torn(records: seq<WalRecord>, crc: Crc, size: nat): nat
    requires AllLoggable(records)
  {
    if records == [] || size < |EncodeRecord(records[0], crc)| then size
    else Torn(records[1..], crc, size - |EncodeRecord(records[0], crc)|)
  }

  /** The whole frames and the torn bytes make up the size, and the torn bytes are no whole frame. */
  lemma {:induction false} WholeAndTorn(records: seq<WalRecord>, crc: Crc, size: nat)
    requires AllLoggable(records) && size <= |Frames(records, crc)|
    ensures var n := Whole(records, crc, size);
            && |Frames(records[..n], crc)| + Torn(records, crc, size) == size
            && (n < |records| ==> Torn(records, crc, size) < |EncodeRecord(records[n], crc)|)
    decreases |records|
  {
    hide EncodeRecord;
    if records != [] && size >= |EncodeRecord(records[0], crc)| {
      WholeAndTorn(records[1..], crc, size - |EncodeRecord(records[0], crc)|);
      var n := Whole(records, crc, size);
      assert records[..n][1..] == records[1..][..n - 1];
    }
  }

  /** One step of a scan, over a log that begins with a frame. */
  lemma ScanFrame(r: WalRecord, rest: seq<Byte>, crc: Crc)
    requires Loggable(r)
    ensures Scan(EncodeRecord(r, crc) + rest, crc) == Scanned([r] + Scan(rest, crc).records, Scan(rest, crc).end)
  {
    hide EncodeRecord, DecodeRecord, RecordBody, U32, GetU32;
    var f := EncodeRecord(r, crc);
    FrameParts(r, crc);
    RecordRoundTrip(r, crc);
    var log := f + rest;
    assert log[8..12] == f[8..12];
    assert Slice(log, 0, |f|) == f && Slice(log, |f|, |log|) == rest;
  }

  /** A frame that is cut short but has its header is refused; one without a whole header is not seen at all. */
  lemma ScanTornFrame(r: WalRecord, size: nat, crc: Crc)
    requires Loggable(r) && size < |EncodeRecord(r, crc)|
    ensures Scan(EncodeRecord(r, crc)[..size], crc)
         == Scanned([], if size < HEADER_SIZE then Clean else Failed(LogCorrupt))
  {
    hide EncodeRecord, RecordBody, U32, GetU32;
    var f := EncodeRecord(r, crc);
    FrameParts(r, crc);
    var log := f[..size];
    if size >= HEADER_SIZE {
      assert log[..8] == f[..8] && log[8..12] == f[8..12];
      assert Slice(log, 0, |f|) == log;
    }
  }

  /**
    * Scanning what a crash left of a log: exactly the records whose frames are there as a whole. The scan
    * ends quietly if and only if fewer bytes than a frame header follow them, and with an error otherwise.
    */
  lemma {:induction false} ScanPrefix(records: seq<WalRecord>, crc: Crc, size: nat)
    requires AllLoggable(records) && size <= |Frames(records, crc)|
    ensures Scan(Frames(records, crc)[..size], crc)
         == Scanned(records[..Whole(records, crc, size)],
                    if Torn(records, crc, size) < HEADER_SIZE then Clean else Failed(LogCorrupt))
    decreases |records|
  {
    hide EncodeRecord, Scan;
    var log := Frames(records, crc);
    if records == [] {
      ScanNothing(log[..size], crc);
    } else {
      var f, rest := EncodeRecord(records[0], crc), Frames(records[1..], crc);
      if size < |f| {
        assert log[..size] == f[..size];
        ScanTornFrame(records[0], size, crc);
      } else {
        assert log[..size] == f + rest[..size - |f|];
        ScanFrame(records[0], rest[..size - |f|], crc);
        ScanPrefix(records[1..], crc, size - |f|);
        var n := Whole(records[1..], crc, size - |f|);
        assert [records[0]] + records[1..][..n] == records[..n + 1];
      }
    }
  }

  lemma ScanNothing(log: seq<Byte>, crc: Crc)
    requires |log| < HEADER_SIZE
    ensures Scan(log, crc) == Scanned([], Clean)
  {
  }

  lemma {:induction false} WholeAll(records: seq<WalRecord>, crc: Crc)
    requires AllLoggable(records)
    ensures Whole(records, crc, |Frames(records, crc)|) == |records| && Torn(records, crc, |Frames(records, crc)|) == 0
    decreases |records|
  {
    if records != [] {
      hide EncodeRecord;
      WholeAll(records[1..], crc);
    }
  }

  /** Scanning an intact log gives exactly its records. */
  lemma ScanFrames(records: seq<WalRecord>, crc: Crc)
    requires AllLoggable(records)
    ensures Scan(Frames(records, crc), crc) == Scanned(records, Clean)
  {
    hide Scan, Frames, EncodeRecord;
    ScanPrefix(records, crc, |Frames(records, crc)|);
    WholeAll(records, crc);
    assert Frames(records, crc)[..|Frames(records, crc)|] == Frames(records, crc);
    assert records[..|records|] == records;
  }

  lemma {:induction false} FramesConcat(a: seq<WalRecord>, b: seq<WalRecord>, crc: Crc)
    requires AllLoggable(a) && AllLoggable(b)
    ensures AllLoggable(a + b) && Frames(a + b, crc) == Frames(a, crc) + Frames(b, crc)
    decreases |a|
  {
    hide EncodeRecord;
    if a == [] {
      assert a + b == b;
    } else {
      assert (a + b)[1..] == a[1..] + b;
      FramesConcat(a[1..], b, crc);
    }
  }

  // ---- what a scan accepts

  /** A frame that is there whole: its name, its length, and between two copies of its checksum the body. */
  ghost predicate Sound(frame: seq<Byte>, crc: Crc) {
    && |frame| >= 20 && frame[..8] == [84, 73, 78, 89, 87, 65, 76, 49]
    && GetU32(frame[8..12]) == |frame| - 16
    && frame[12..16] == frame[|frame| - 4..] == U32(crc(frame[16..|frame| - 4]))
  }

  /** The log begins with sound frames, one behind the other, whose bodies are the records. */
  ghost predicate SoundFrames(log: seq<Byte>, records: seq<WalRecord>, crc: Crc)
    decreases |records|
  {
    records == [] ||
    exists n: nat ::
      && 20 <= n <= |log| && Sound(log[..n], crc)
      && DecodeBody(log[16..n - 4]) == Ok(records[0]) && SoundFrames(log[n..], records[1..], crc)
  }

  lemma SameHalf(b: seq<Byte>, w: nat)
    requires |b| == 2 && w < U16_LIMIT
    ensures GetU16(b) == w <==> b == U16(w)
  {
  }

  lemma SameWord(b: seq<Byte>, w: Word)
    requires |b| == 4
    ensures GetU32(b) == w <==> b == U32(w)
  {
    hide GetU16, U16;
    var lo, hi := GetU16(b[..2]), GetU16(b[2..]);
    assert b == b[..2] + b[2..];
    SameHalf(b[..2], w % U16_LIMIT);
    SameHalf(b[2..], w / U16_LIMIT);
    assert GetU32(b) == w <==> lo == w % U16_LIMIT && hi == w / U16_LIMIT;
  }

  /** What decodes is a sound frame. */
  lemma DecodedIsSound(log: seq<Byte>, crc: Crc)
    requires |log| >= HEADER_SIZE
    ensures
      var n := FrameLength(log);
      DecodeRecord(Slice(log, 0, n), crc).Ok? ==>
        && 20 <= n <= |log| && Sound(log[..n], crc) && DecodeBody(log[16..n - 4]) == DecodeRecord(Slice(log, 0, n), crc)
  {
    hide GetU32, U32, DecodeBody;
    var n := FrameLength(log);
    var raw := Slice(log, 0, n);
    if DecodeRecord(raw, crc).Ok? {
      assert raw[8..12] == log[8..12];
      assert raw == log[..n];
      assert raw[n - 4..n] == raw[n - 4..] && raw[16..n - 4] == log[16..n - 4];
      SameWord(raw[12..16], crc(raw[16..n - 4]));
      SameWord(raw[n - 4..], crc(raw[16..n - 4]));
    }
  }

  /** Every record that a scan gives comes from a sound frame, whatever the log is. */
  lemma {:induction false} ScannedIsSound(log: seq<Byte>, crc: Crc)
    ensures SoundFrames(log, Scan(log, crc).records, crc)
    decreases |log|
  {
    hide DecodeRecord, Sound, DecodeBody, FrameLength;
    if |log| >= HEADER_SIZE {
      var n := FrameLength(log);
      DecodedIsSound(log, crc);
      if DecodeRecord(Slice(log, 0, n), crc).Ok? {
        assert Slice(log, n, |log|) == log[n..];
        ScannedIsSound(log[n..], crc);
        assert Scan(log, crc).records[1..] == Scan(log[n..], crc).records;
      }
    }
  }

  /** Bytes that announce a frame of their own length, and are no sound one, are refused as corrupt. */
  lemma UnsoundRefused(frame: seq<Byte>, rest: seq<Byte>, crc: Crc)
    requires |frame| >= 20 && GetU32(frame[8..12]) == |frame| - 16 && !Sound(frame, crc)
    ensures Scan(frame + rest, crc) == Scanned([], Failed(LogCorrupt))
  {
    hide GetU32, U32, DecodeBody;
    var log, n := frame + rest, |frame|;
    assert log[8..12] == frame[8..12] && Slice(log, 0, n) == frame;
    assert frame[n - 4..n] == frame[n - 4..];
    SameWord(frame[12..16], crc(frame[16..n - 4]));
    SameWord(frame[n - 4..], crc(frame[16..n - 4]));
  }

  /**
    * Behind whole frames, a frame with a changed name, body or checksum ends the scan as corrupt, with the records
    * before it.
    */
  lemma {:induction false} ScanUnsound(records: seq<WalRecord>, frame: seq<Byte>, rest: seq<Byte>, crc: Crc)
    requires AllLoggable(records)
    requires |frame| >= 20 && GetU32(frame[8..12]) == |frame| - 16 && !Sound(frame, crc)
    ensures Scan(Frames(records, crc) + frame + rest, crc) == Scanned(records, Failed(LogCorrupt))
    decreases |records|
  {
    hide Sound, Scan, EncodeRecord, GetU32;
    if records == [] {
      assert Frames(records, crc) + frame + rest == frame + rest;
      UnsoundRefused(frame, rest, crc);
    } else {
      var f, behind := EncodeRecord(records[0], crc), Frames(records[1..], crc) + frame + rest;
      assert Frames(records, crc) + frame + rest == f + behind;
      ScanFrame(records[0], behind, crc);
      ScanUnsound(records[1..], frame, rest, crc);
      assert [records[0]] + records[1..] == records;
    }
  }

  /** The frame of a record with other bytes of the same length in the place of its body. */
  ghost function WithBody(r: WalRecord, body: seq<Byte>, crc: Crc): (frame: seq<Byte>)
    requires Loggable(r) && |body| == |RecordBody(r)|
    ensures |frame| == |EncodeRecord(r, crc)| && frame[16..|frame| - 4] == body
    ensures forall i :: 0 <= i < |frame| && !(16 <= i < |frame| - 4) ==> frame[i] == EncodeRecord(r, crc)[i]
  {
    var f := EncodeRecord(r, crc);
    f[..16] + body + f[|f| - 4..]
  }

  /** A record whose body was changed, under another checksum, is refused wherever it stands in the log. */
  lemma ScanChangedBody(records: seq<WalRecord>, r: WalRecord, body: seq<Byte>, rest: seq<Byte>, crc: Crc)
    requires AllLoggable(records) && Loggable(r) && |body| == |RecordBody(r)| && crc(body) != crc(RecordBody(r))
    ensures Scan(Frames(records, crc) + WithBody(r, body, crc) + rest, crc) == Scanned(records, Failed(LogCorrupt))
  {
    hide EncodeRecord, RecordBody, GetU32, U32, Scan, Frames;
    var f, g := EncodeRecord(r, crc), WithBody(r, body, crc);
    FrameParts(r, crc);
    assert g[8..12] == f[8..12] && g[12..16] == f[12..16];
    SameWord(U32(crc(body)), crc(RecordBody(r)));
    SameWord(U32(crc(body)), crc(body));
    ScanUnsound(records, g, rest, crc);
  }

  /** A sound frame is scanned as the record in its body, or ends the scan with what is wrong in the body. */
  lemma SoundIsScanned(frame: seq<Byte>, rest: seq<Byte>, crc: Crc)
    requires Sound(frame, crc)
    ensures
      Scan(frame + rest, crc)
      == match DecodeBody(frame[16..|frame| - 4])
         case Err(e) => Scanned([], Failed(e))
         case Ok(r) => Scanned([r] + Scan(rest, crc).records, Scan(rest, crc).end)
  {
    hide GetU32, U32, DecodeBody;
    var log, n := frame + rest, |frame|;
    assert log[8..12] == frame[8..12] && Slice(log, 0, n) == frame && Slice(log, n, |log|) == rest;
    assert frame[n - 4..n] == frame[n - 4..];
    SameWord(frame[12..16], crc(frame[16..n - 4]));
  }

  /** Which bodies decode, and that one as long as its fields say is the body of the record that it decodes to. */
  lemma BodyDecodes(b: seq<Byte>)
    ensures DecodeBody(b).Ok? <==> |b| >= 15 && b[4] in {1, 2, 3}
    ensures DecodeBody(b).Ok? && |b| == 15 + GetU16(b[11..13]) + GetU16(b[13..15]) ==>
              Loggable(DecodeBody(b).rec) && RecordBody(DecodeBody(b).rec) == b
  {
    hide GetU32, U32, GetU16, U16;
    if |b| >= 15 && b[4] in {1, 2, 3} && |b| == 15 + GetU16(b[11..13]) + GetU16(b[13..15]) {
      var r := DecodeBody(b).rec;
      SameWord(b[..4], r.lsn);
      SameWord(b[5..9], r.txId);
      SameHalf(b[9..11], r.pageId);
      SameHalf(b[11..13], |r.before|);
      SameHalf(b[13..15], |r.after|);
      assert r.before + r.after == b[15..];
      assert Fields(r) == b[..4] + [b[4]] + b[5..9] + b[9..11] + b[11..13] + b[13..15];
      assert b == b[..15] + b[15..];
    }
  }
}
