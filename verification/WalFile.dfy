/** The log file: appending at the descriptor's position, scanning, truncating. */
module WalFile {
  import opened Bytes
  import opened WalCodec

  /** What writing `raw` at offset `pos` makes of a file. */
  function Overwrite(file: seq<Byte>, pos: nat, raw: seq<Byte>): seq<Byte>
    requires pos <= |file|
  {
    file[..pos] + raw + file[Min(pos + |raw|, |file|)..]
  }

  ghost function MaxLsn(records: seq<WalRecord>): nat {
    if records == [] then 0 else Max(MaxLsn(records[..|records| - 1]), records[|records| - 1].lsn)
  }

  lemma {:induction false} MaxLsnBounds(records: seq<WalRecord>, i: nat)
    requires i < |records|
    ensures records[i].lsn <= MaxLsn(records)
    decreases |records|
  {
    if i < |records| - 1 {
      MaxLsnBounds(records[..|records| - 1], i);
    }
  }

  /** What `_recover_next_lsn` makes of a log: one more than the largest lsn, or 1 when the scan fails. */
  ghost function RecoveredLsn(file: seq<Byte>, crc: Crc): nat {
    var s := Scan(file, crc);
    if s.end.Clean? then MaxLsn(s.records) + 1 else 1
  }

  /** A log of whole frames is taken up behind its records: the next lsn is above all of theirs. */
  lemma LsnsGoOn(records: seq<WalRecord>, crc: Crc)
    requires AllLoggable(records)
    ensures 1 <= RecoveredLsn(Frames(records, crc), crc)
    ensures forall i :: 0 <= i < |records| ==> records[i].lsn < RecoveredLsn(Frames(records, crc), crc)
    ensures records != [] ==>
              exists i :: 0 <= i < |records| && records[i].lsn + 1 == RecoveredLsn(Frames(records, crc), crc)
    ensures records == [] ==> RecoveredLsn(Frames(records, crc), crc) == 1
  {
    hide Scan, Frames;
    ScanFrames(records, crc);
    forall i | 0 <= i < |records|
      ensures records[i].lsn <= MaxLsn(records)
    {
      MaxLsnBounds(records, i);
    }
    MaxLsnReached(records);
  }

  lemma {:induction false} MaxLsnReached(records: seq<WalRecord>)
    ensures records != [] ==> exists i :: 0 <= i < |records| && records[i].lsn == MaxLsn(records)
    decreases |records|
  {
    if records != [] {
      var n := |records| - 1;
      MaxLsnReached(records[..n]);
      if MaxLsn(records) != records[n].lsn {
        var i :| 0 <= i < n && records[..n][i].lsn == MaxLsn(records[..n]);
        assert records[i].lsn == MaxLsn(records);
      }
    }
  }

  lemma ScanStep(log: seq<Byte>, crc: Crc)
    requires |log| >= HEADER_SIZE
    ensures
      var n := FrameLength(log);
      match DecodeRecord(Slice(log, 0, n), crc)
      case Err(e) => Scan(log, crc) == Scanned([], Failed(e))
      case Ok(r) => var rest := Scan(Slice(log, n, |log|), crc); Scan(log, crc) == Scanned([r] + rest.records, rest.end)
  {
  }

  /** A frame that decodes is as long as its header says, so the log goes on right behind it. */
  lemma FrameIsThere(log: seq<Byte>, r: WalRecord, crc: Crc)
    requires |log| >= HEADER_SIZE && DecodeRecord(Slice(log, 0, FrameLength(log)), crc) == Ok(r)
    ensures FrameLength(log) <= |log| && Slice(log, FrameLength(log), |log|) == log[FrameLength(log)..]
  {
    hide GetU32, GetU16, DecodeBody;
    var frame := Slice(log, 0, FrameLength(log));
    assert frame[8..12] == log[8..12];
    assert FrameLength(log) <= |log|;
  }

  /** The loop over the frames of a log. */
  method ScanLog(file: seq<Byte>, crc: Crc) returns (s: Scanned)
    ensures s == Scan(file, crc)
  {
    hide DecodeRecord, Scan;
    var records, at := [], 0;
    assert file[0..] == file;
    while at < |file|
      invariant at <= |file|
      invariant Scan(file, crc) == Scanned(records + Scan(file[at..], crc).records, Scan(file[at..], crc).end)
      decreases |file| - at
    {
      ghost var log := file[at..];
      var raw := Slice(file, at, at + HEADER_SIZE);
      if |raw| < HEADER_SIZE {
        break;
      }
      assert raw == log[..HEADER_SIZE] && raw[8..12] == log[8..12];
      var n := HEADER_SIZE + GetU32(raw[8..12]);
      var frame := Slice(file, at, at + n);
      assert frame == Slice(log, 0, n);
      var decoded := DecodeRecord(frame, crc);
      ScanStep(log, crc);
      if decoded.Err? {
        assert records + [] == records;
        return Scanned(records, Failed(decoded.error));
      }
      FrameIsThere(log, decoded.rec, crc);
      assert log[n..] == file[at + n..];
      ghost var rest := Scan(file[at + n..], crc);
      assert records + ([decoded.rec] + rest.records) == records + [decoded.rec] + rest.records;
      records, at := records + [decoded.rec], at + n;
    }
    ScanNothing(file[at..], crc);
    assert records + [] == records;
    s := Scanned(records, Clean);
  }

  class Wal {
    const crc: Crc
    var file: seq<Byte>
    /** The position of the file descriptor: appends write here. */
    var pos: nat
    var nextLsn: nat

    ghost predicate Valid()
      reads this
    {
      pos <= |file|
    }

    /** The log is the frames of `records`, and lsns go on above theirs. */
    ghost predicate Holds(records: seq<WalRecord>)
      reads this
    {
      && Valid() && AllLoggable(records) && file == Frames(records, crc)
      && 1 <= nextLsn && forall i :: 0 <= i < |records| ==> records[i].lsn < nextLsn
    }

    /** Opening scans the whole file for the next lsn, which leaves the position at the start. */
    constructor (file: seq<Byte>, crc: Crc)
      ensures Valid() && this.file == file && this.crc == crc && pos == 0 && nextLsn == RecoveredLsn(file, crc)
      ensures forall records :: AllLoggable(records) && file == Frames(records, crc) ==> Holds(records)
    {
      this.file, this.crc, pos, nextLsn := file, crc, 0, 1;
      new;
      var s := IterRecords();
      if s.end.Clean? {
        var maxLsn := 0;
        for i := 0 to |s.records|
          invariant maxLsn == MaxLsn(s.records[..i])
          invariant this.file == file && pos == 0 && nextLsn == 1
        {
          assert s.records[..i + 1][..i] == s.records[..i];
          maxLsn := Max(maxLsn, s.records[i].lsn);
        }
        assert s.records[..|s.records|] == s.records;
        nextLsn := if maxLsn > 0 then maxLsn + 1 else 1;
      }
      forall records | AllLoggable(records) && file == Frames(records, crc)
        ensures Holds(records)
      {
        LsnsGoOn(records, crc);
      }
    }

    /** All records from the start of the file, with the position rewound to it. */
    method IterRecords() returns (s: Scanned)
      requires Valid()
      modifies this`pos
      ensures Valid() && pos == 0 && s == Scan(file, crc)
    {
      pos := 0;
      s := ScanLog(file, crc);
    }

    method AppendRec(rec: WalRecord) returns (lsn: nat)
      requires Valid() && Loggable(rec)
      modifies this
      ensures Valid() && lsn == rec.lsn
      ensures file == Overwrite(old(file), old(pos), EncodeRecord(rec, crc))
      ensures pos == old(pos) + |EncodeRecord(rec, crc)| && nextLsn == Max(old(nextLsn), rec.lsn + 1)
    {
      var raw := EncodeRecord(rec, crc);
      file := Overwrite(file, pos, raw);
      pos := pos + |raw|;
      nextLsn := Max(nextLsn, rec.lsn + 1);
      lsn := rec.lsn;
    }

    /** Appends a record under the next lsn; to a log of whole frames that adds it exactly at the end. */
    method Append(kind: RecordKind, txId: nat, pageId: nat, before: seq<Byte>, after: seq<Byte>,
                  ghost records: seq<WalRecord>)
      returns (lsn: nat)
      requires Valid() && Loggable(WalRecord(nextLsn, txId, kind, pageId, before, after))
      modifies this
      ensures Valid() && lsn == old(nextLsn) && nextLsn == lsn + 1
      ensures file
           == Overwrite(old(file), old(pos), EncodeRecord(WalRecord(lsn, txId, kind, pageId, before, after), crc))
      ensures pos == old(pos) + |EncodeRecord(WalRecord(lsn, txId, kind, pageId, before, after), crc)|
      ensures old(Holds(records)) ==>
                (Holds(records + [WalRecord(lsn, txId, kind, pageId, before, after)]) <==> old(pos) == |old(file)|)
      ensures old(pos) == |old(file)| ==> pos == |file|
    {
      hide EncodeRecord;
      var rec := WalRecord(nextLsn, txId, kind, pageId, before, after);
      FramesOfOne(rec, crc);
      if Holds(records) {
        FramesConcat(records, [rec], crc);
      }
      lsn := AppendRec(rec);
      assert old(file)[..|old(file)|] == old(file) && old(file)[|old(file)|..] == [];
    }

    /** Empties the file and starts lsns again. */
    method Truncate()
      requires Valid()
      modifies this
      ensures Holds([]) && file == [] && pos == 0 && nextLsn == 1
    {
      file, pos, nextLsn := [], 0, 1;
    }
  }

  lemma FramesOfOne(rec: WalRecord, crc: Crc)
    requires Loggable(rec)
    ensures AllLoggable([rec]) && Frames([rec], crc) == EncodeRecord(rec, crc)
  {
    assert [rec][1..] == [];
    assert Frames([rec], crc) == EncodeRecord(rec, crc) + [];
  }

  /** A record that was decoded takes no more bytes than it was decoded from. */
  lemma DecodedFits(raw: seq<Byte>, crc: Crc)
    requires DecodeRecord(raw, crc).Ok?
    ensures Loggable(DecodeRecord(raw, crc).rec)
    ensures |EncodeRecord(DecodeRecord(raw, crc).rec, crc)| <= FrameLength(raw) <= |raw|
  {
    hide GetU32, GetU16, EncodeRecord, MAGIC, KindOf;
  }

  /** The records that a scan gives take no more bytes than the log has. */
  lemma {:induction false} ScannedFits(log: seq<Byte>, crc: Crc)
    ensures AllLoggable(Scan(log, crc).records) && |Frames(Scan(log, crc).records, crc)| <= |log|
    decreases |log|
  {
    hide DecodeRecord, EncodeRecord, FrameLength, Scan, Loggable;
    if |log| < HEADER_SIZE {
      ScanNothing(log, crc);
    } else {
      ScanStep(log, crc);
      var n := FrameLength(log);
      var decoded := DecodeRecord(Slice(log, 0, n), crc);
      if decoded.Ok? {
        FrameIsThere(log, decoded.rec, crc);
        DecodedFits(Slice(log, 0, n), crc);
        HeaderIsLong(log);
        ScannedFits(log[n..], crc);
        assert ([decoded.rec] + Scan(log[n..], crc).records)[1..] == Scan(log[n..], crc).records;
      }
    }
  }

  lemma HeaderIsLong(log: seq<Byte>)
    requires |log| >= HEADER_SIZE
    ensures FrameLength(log) >= HEADER_SIZE
  {
  }

  /**
    * An append keeps every earlier record if and only if the position is at the end of the log. After a
    * scan it is at the start, and an append from there leaves it somewhere inside the log.
    */
  lemma AppendKeepsRecords(records: seq<WalRecord>, pos: nat, rec: WalRecord, crc: Crc)
    requires AllLoggable(records) && Loggable(rec) && pos <= |Frames(records, crc)|
    ensures Scan(Overwrite(Frames(records, crc), pos, EncodeRecord(rec, crc)), crc) == Scanned(records + [rec], Clean)
       <==> pos == |Frames(records, crc)|
  {
    hide EncodeRecord, Scan, Loggable;
    var file, raw := Frames(records, crc), EncodeRecord(rec, crc);
    FramesConcat(records, [rec], crc);
    FramesOfOne(rec, crc);
    if pos == |file| {
      assert Overwrite(file, pos, raw) == Frames(records + [rec], crc);
      ScanFrames(records + [rec], crc);
    } else {
      ScannedFits(Overwrite(file, pos, raw), crc);
      assert |Overwrite(file, pos, raw)| < |Frames(records + [rec], crc)|;
    }
  }

  /** Such a loss: a log of one record is opened again, and the next append leaves only the new record. */
  lemma ReopenedLogLosesRecord(crc: Crc)
    ensures
      var first, second := WalRecord(1, 1, TxCommit, 0, [], []), WalRecord(2, 2, TxCommit, 0, [], []);
      Scan(Overwrite(Frames([first], crc), 0, EncodeRecord(second, crc)), crc) == Scanned([second], Clean)
  {
    hide EncodeRecord, Scan;
    var first, second := WalRecord(1, 1, TxCommit, 0, [], []), WalRecord(2, 2, TxCommit, 0, [], []);
    FramesOfOne(first, crc);
    FramesOfOne(second, crc);
    var file, raw := Frames([first], crc), EncodeRecord(second, crc);
    assert Overwrite(file, 0, raw) == raw;
    ScanFrames([second], crc);
  }

  datatype Entry = Entry(kind: RecordKind, txId: nat, pageId: nat, before: seq<Byte>, after: seq<Byte>)

  /** Entries appended to a log that was opened empty, and then read back: they get the lsns 1, 2, 3, … */
  method AppendAll(entries: seq<Entry>, crc: Crc) returns (s: Scanned)
    requires |entries| < U32_LIMIT - 1
    requires forall i :: 0 <= i < |entries| ==>
      Loggable(WalRecord(i + 1, entries[i].txId, entries[i].kind, entries[i].pageId,
                         entries[i].before, entries[i].after))
    ensures s.end.Clean? && |s.records| == |entries|
    ensures forall i :: 0 <= i < |entries| ==>
      s.records[i] == WalRecord(i + 1, entries[i].txId, entries[i].kind, entries[i].pageId, entries[i].before,
                                entries[i].after)
  {
    hide EncodeRecord, Scan;
    var wal := new Wal([], crc);
    ScanNothing([], crc);
    ghost var records := [];
    for i := 0 to |entries|
      invariant fresh(wal) && wal.Holds(records) && wal.pos == |wal.file| && wal.nextLsn == i + 1 && |records| == i
      invariant wal.crc == crc
      invariant forall j :: 0 <= j < i ==>
        records[j] == WalRecord(j + 1, entries[j].txId, entries[j].kind, entries[j].pageId, entries[j].before,
                                entries[j].after)
    {
      var e := entries[i];
      var lsn := wal.Append(e.kind, e.txId, e.pageId, e.before, e.after, records);
      records := records + [WalRecord(i + 1, e.txId, e.kind, e.pageId, e.before, e.after)];
    }
    ScanFrames(records, crc);
    s := wal.IterRecords();
  }
}
