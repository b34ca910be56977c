/** Replaying a log over a crashed database: which pages come back to their committed content. */
module Recovery {
  import opened Bytes
  import opened WalCodec
  import opened WalFile

  /** The bodies of the pages, by page number. */
  type Bodies = map<nat, seq<Byte>>

  type Log = seq<WalRecord>

  // ---- replay

  function Winners(log: Log): set<nat> {
    if log == [] then {} else Winners(Front(log)) + if Last(log).kind.TxCommit? then {Last(log).txId} else {}
  }

  /** What replay writes for a record: the after-image of a committed transaction, the before-image of any other. */
  function Image(r: WalRecord, winners: set<nat>): seq<Byte> {
    if r.txId in winners then r.after else r.before
  }

  function Write(disk: Bodies, r: WalRecord, winners: set<nat>): Bodies {
    if r.kind.Mutate? then disk[r.pageId := Image(r, winners)] else disk
  }

  /** The records are applied in the order of the log, undo included. */
  function Redo(disk: Bodies, log: Log, winners: set<nat>): Bodies {
    if log == [] then disk else Write(Redo(disk, Front(log), winners), Last(log), winners)
  }

  /** Every page that the log names is there. */
  ghost predicate PagesThere(log: Log, disk: Bodies) {
    forall i :: 0 <= i < |log| && log[i].kind.Mutate? ==> log[i].pageId in disk
  }

  /** A replay over `disk` up to its end, or up to the first record on a page that is not there. */
  ghost predicate Replayed(disk: Bodies, log: Log, winners: set<nat>, disk': Bodies, missing: Option<nat>) {
    match missing
    case None => PagesThere(log, disk) && disk' == Redo(disk, log, winners)
    case Some(k) =>
      && k < |log| && log[k].kind.Mutate? && log[k].pageId !in disk
      && PagesThere(log[..k], disk) && disk' == Redo(disk, log[..k], winners)
  }

  class PageStore {
    var bodies: Bodies

    /**
      * Recovery at startup: nothing is written when the log does not scan. A record on a page that the file
      * does not have ends the replay at that record, with the records before it replayed.
      */
    method ReplayWal(log: seq<Byte>, crc: Crc) returns (error: ScanEnd, missing: Option<nat>)
      modifies this
      ensures error == Scan(log, crc).end
      ensures
        var records := Scan(log, crc).records;
        if error.Failed? then missing == None && bodies == old(bodies)
        else Replayed(old(bodies), records, Winners(records), bodies, missing)
    {
      hide Scan;
      var s := ScanLog(log, crc);
      error, missing := s.end, None;
      if error.Failed? {
        return;
      }
      var records, winners := s.records, {};
      for i := 0 to |records|
        invariant winners == Winners(records[..i]) && bodies == old(bodies)
      {
        assert Front(records[..i + 1]) == records[..i];
        if records[i].kind.TxCommit? {
          winners := winners + {records[i].txId};
        }
      }
      assert records[..|records|] == records;
      missing := WriteImages(records, winners);
    }

    /** The second loop: each record's image goes to its page. */
    method WriteImages(records: Log, winners: set<nat>) returns (missing: Option<nat>)
      modifies this
      ensures Replayed(old(bodies), records, winners, bodies, missing)
    {
      for i := 0 to |records|
        invariant bodies == Redo(old(bodies), records[..i], winners) && bodies.Keys == old(bodies).Keys
        invariant PagesThere(records[..i], old(bodies))
      {
        assert Front(records[..i + 1]) == records[..i];
        var rec := records[i];
        if rec.kind.Mutate? {
          if rec.pageId !in bodies {
            return Some(i);
          }
          bodies := bodies[rec.pageId := if rec.txId in winners then rec.after else rec.before];
        }
      }
      assert records[..|records|] == records;
      missing := None;
    }
  }

  // ---- serial logs

  /** Page contents along a run: as they are now, and as of the last commit. */
  datatype LogState = LogState(current: Bodies, committed: Bodies, active: Option<nat>, used: set<nat>)

  /** One transaction at a time, no id twice, and before-images that are true. */
  ghost predicate Legal(s: LogState, r: WalRecord) {
    && (s.active == Some(r.txId) || (s.active == None && r.txId !in s.used))
    && (r.kind.Mutate? ==> r.pageId in s.current && r.before == s.current[r.pageId])
  }

  ghost function Next(s: LogState, r: WalRecord): LogState {
    match r.kind
    case Mutate => LogState(s.current[r.pageId := r.after], s.committed, Some(r.txId), s.used + {r.txId})
    case TxCommit => LogState(s.current, s.current, None, s.used + {r.txId})
    case TxRollback => LogState(s.committed, s.committed, None, s.used + {r.txId})
  }

  ghost function Run(init: Bodies, log: Log): LogState {
    if log == [] then LogState(init, init, None, {}) else Next(Run(init, Front(log)), Last(log))
  }

  ghost predicate Serial(init: Bodies, log: Log) {
    log == [] || (Serial(init, Front(log)) && Legal(Run(init, Front(log)), Last(log)))
  }

  // ---- what the log says about one page

  ghost function LastOn(log: Log, p: nat): Option<WalRecord> {
    if log == [] then None
    else if Last(log).kind.Mutate? && Last(log).pageId == p then Some(Last(log))
    else LastOn(Front(log), p)
  }

  /** The before-image of the first record of transaction `tx` on page `p`. */
  ghost function FirstImage(log: Log, tx: nat, p: nat): Option<seq<Byte>> {
    if log == [] then None
    else if FirstImage(Front(log), tx, p).Some? then FirstImage(Front(log), tx, p)
    else if Last(log).kind.Mutate? && Last(log).pageId == p && Last(log).txId == tx then Some(Last(log).before)
    else None
  }

  /**
    * The last record on the page is a winner's, or it has the same before-image as its transaction's first one there.
    */
  ghost predicate Undoable(log: Log, p: nat) {
    match LastOn(log, p)
    case None => true
    case Some(r) => r.txId in Winners(log) || FirstImage(log, r.txId, p) == Some(r.before)
  }

  /** Replay leaves on a page the image of the last record there, and pages without records as they are. */
  lemma {:induction false} RedoPage(disk: Bodies, log: Log, winners: set<nat>, p: nat)
    ensures LastOn(log, p).Some? ==>
              p in Redo(disk, log, winners) && Redo(disk, log, winners)[p] == Image(LastOn(log, p).value, winners)
    ensures LastOn(log, p).None? ==> (p in Redo(disk, log, winners) <==> p in disk)
                                     && (p in disk ==> Redo(disk, log, winners)[p] == disk[p])
    decreases |log|
  {
    if log != [] {
      RedoPage(disk, Front(log), winners, p);
    }
  }

  /** Where a page stands in a serial run, told from the last record on it. */
  ghost predicate PageStory(init: Bodies, log: Log, p: nat)
    requires p in init
  {
    var s := Run(init, log);
    && p in s.current && p in s.committed
    && Winners(log) <= s.used
    && (s.active.Some? ==> s.active.value in s.used && s.active.value !in Winners(log))
    && match LastOn(log, p)
       case None => s.current[p] == s.committed[p] == init[p]
       case Some(r) =>
         && r.txId in s.used && FirstImage(log, r.txId, p).Some?
         && if s.active == Some(r.txId) then
              s.current[p] == r.after && FirstImage(log, r.txId, p) == Some(s.committed[p])
            else
              && s.current[p] == s.committed[p]
              && (s.active.Some? ==> FirstImage(log, s.active.value, p) == None)
              && (if r.txId in Winners(log) then s.committed[p] == r.after
                  else FirstImage(log, r.txId, p) == Some(s.committed[p]))
  }

  lemma {:induction false} UnusedWroteNothing(init: Bodies, log: Log, tx: nat, p: nat)
    requires Serial(init, log) && tx !in Run(init, log).used
    ensures FirstImage(log, tx, p) == None
    decreases |log|
  {
    if log != [] {
      UnusedWroteNothing(init, Front(log), tx, p);
    }
  }

  lemma {:induction false} NoRecordNoImage(log: Log, tx: nat, p: nat)
    requires LastOn(log, p) == None
    ensures FirstImage(log, tx, p) == None
    decreases |log|
  {
    if log != [] {
      NoRecordNoImage(Front(log), tx, p);
    }
  }

  lemma {:induction false} PageStoryHolds(init: Bodies, log: Log, p: nat)
    requires Serial(init, log) && p in init
    ensures PageStory(init, log, p)
    decreases |log|
  {
    if log != [] {
      PageStoryHolds(init, Front(log), p);
      var r := Last(log);
      if LastOn(Front(log), p) == None {
        NoRecordNoImage(Front(log), r.txId, p);
      }
      if r.txId !in Run(init, Front(log)).used {
        UnusedWroteNothing(init, Front(log), r.txId, p);
      }
    }
  }

  /** A disk after any crash: the pages that the log names hold anything, all others what they held at first. */
  ghost predicate Crashed(init: Bodies, disk: Bodies, log: Log) {
    forall p :: p in init && LastOn(log, p).None? ==> p in disk && disk[p] == init[p]
  }

  /**
    * Recovery of one page: after a replay of a serial log it holds its committed content if and only if
    * its last record is a winner's, or has the before-image that the loser found there at first.
    */
  lemma RecoveredPage(init: Bodies, disk: Bodies, log: Log, p: nat)
    requires Serial(init, log) && p in init && Crashed(init, disk, log)
    ensures p in Redo(disk, log, Winners(log)) && p in Run(init, log).committed
    ensures Redo(disk, log, Winners(log))[p] == Run(init, log).committed[p] <==> Undoable(log, p)
  {
    PageStoryHolds(init, log, p);
    RedoPage(disk, log, Winners(log), p);
  }

  /** How often a transaction has written a page. */
  ghost function Writes(log: Log, tx: nat, p: nat): nat {
    if log == [] then 0
    else
      Writes(Front(log), tx, p)
      + if Last(log).kind.Mutate? && Last(log).pageId == p && Last(log).txId == tx then 1 else 0
  }

  lemma {:induction false} NoWriteNoImage(log: Log, tx: nat, p: nat)
    ensures Writes(log, tx, p) == 0 <==> FirstImage(log, tx, p) == None
    decreases |log|
  {
    if log != [] {
      NoWriteNoImage(Front(log), tx, p);
    }
  }

  /** A loser that wrote the page once can be undone. */
  lemma SingleWriteUndoable(log: Log, p: nat)
    requires LastOn(log, p).Some? ==>
              LastOn(log, p).value.txId in Winners(log) || Writes(log, LastOn(log, p).value.txId, p) == 1
    ensures Undoable(log, p)
  {
    if LastOn(log, p).Some? && LastOn(log, p).value.txId !in Winners(log) {
      SingleWriteImage(log, LastOn(log, p).value.txId, p);
    }
  }

  lemma {:induction false} SingleWriteImage(log: Log, tx: nat, p: nat)
    requires Writes(log, tx, p) == 1 && LastOn(log, p).Some? && LastOn(log, p).value.txId == tx
    ensures FirstImage(log, tx, p) == Some(LastOn(log, p).value.before)
    decreases |log|
  {
    NoWriteNoImage(Front(log), tx, p);
    if !(Last(log).kind.Mutate? && Last(log).pageId == p) {
      SingleWriteImage(Front(log), tx, p);
    }
  }

  // ---- interrupted recoveries

  /** A replay that was cut off after `n` records, and of whose page writes only those in `kept` reached the disk. */
  datatype Attempt = Attempt(n: nat, kept: set<nat>)

  ghost function PartialRedo(disk: Bodies, log: Log, winners: set<nat>, n: nat, kept: set<nat>): Bodies
    requires n <= |log|
  {
    if n == 0 then disk
    else
      var d := PartialRedo(disk, log, winners, n - 1, kept);
      if n - 1 in kept then Write(d, log[n - 1], winners) else d
  }

  ghost function AfterAttempts(disk: Bodies, log: Log, attempts: seq<Attempt>): Bodies {
    if attempts == [] then disk
    else
      var a := attempts[|attempts| - 1];
      PartialRedo(AfterAttempts(disk, log, attempts[..|attempts| - 1]), log, Winners(log), Min(a.n, |log|), a.kept)
  }

  lemma {:induction false} LastOnNamed(log: Log, i: nat)
    requires i < |log| && log[i].kind.Mutate?
    ensures LastOn(log, log[i].pageId).Some?
    decreases |log|
  {
    if i < |log| - 1 {
      assert Front(log)[i] == log[i];
      LastOnNamed(Front(log), i);
    }
  }

  lemma {:induction false} PartialKeepsOthers(disk: Bodies, log: Log, winners: set<nat>, n: nat, kept: set<nat>, p: nat)
    requires n <= |log| && LastOn(log, p).None?
    ensures
      var d := PartialRedo(disk, log, winners, n, kept);
      (p in d <==> p in disk) && (p in disk ==> d[p] == disk[p])
    decreases n
  {
    if n > 0 {
      PartialKeepsOthers(disk, log, winners, n - 1, kept, p);
      if log[n - 1].kind.Mutate? {
        LastOnNamed(log, n - 1);
      }
    }
  }

  lemma {:induction false} AttemptsKeepOthers(disk: Bodies, log: Log, attempts: seq<Attempt>, p: nat)
    requires LastOn(log, p).None?
    ensures var d := AfterAttempts(disk, log, attempts); (p in d <==> p in disk) && (p in disk ==> d[p] == disk[p])
    decreases |attempts|
  {
    if attempts != [] {
      var a, before := attempts[|attempts| - 1], attempts[..|attempts| - 1];
      AttemptsKeepOthers(disk, log, before, p);
      PartialKeepsOthers(AfterAttempts(disk, log, before), log, Winners(log), Min(a.n, |log|), a.kept, p);
    }
  }

  /**
    * Crash recovery: whatever part of the page writes had reached the disk, and however often a replay was
    * interrupted and begun again, one complete replay brings a page back to its committed content
    * if and only if the page can be undone. Pages that the log does not name are never changed.
    */
  lemma CrashRecovery(init: Bodies, disk: Bodies, log: Log, attempts: seq<Attempt>)
    requires Serial(init, log) && Crashed(init, disk, log)
    ensures
      var final := Redo(AfterAttempts(disk, log, attempts), log, Winners(log));
      var committed := Run(init, log).committed;
      && (forall p :: p in init ==> p in final && p in committed)
      && (forall p :: p in init ==> (final[p] == committed[p] <==> Undoable(log, p)))
      && (forall p :: p in init && LastOn(log, p).None? ==> final[p] == init[p])
  {
    var tried := AfterAttempts(disk, log, attempts);
    forall p | p in init && LastOn(log, p).None?
      ensures p in tried && tried[p] == init[p]
    {
      AttemptsKeepOthers(disk, log, attempts, p);
    }
    forall p | p in init
      ensures p in Redo(tried, log, Winners(log)) && p in Run(init, log).committed
      ensures Redo(tried, log, Winners(log))[p] == Run(init, log).committed[p] <==> Undoable(log, p)
      ensures LastOn(log, p).None? ==> Redo(tried, log, Winners(log))[p] == init[p]
    {
      RecoveredPage(init, tried, log, p);
      RedoPage(tried, log, Winners(log), p);
    }
  }

  /** A loser that wrote a page twice is left at its own first image: the page is not recovered. */
  lemma TwiceWrittenLoserStays()
    ensures
      var init := map[7 := [1]];
      var log := [WalRecord(1, 1, Mutate, 7, [1], [2]), WalRecord(2, 1, Mutate, 7, [2], [3])];
      && Serial(init, log) && Run(init, log).committed[7] == [1]
      && Redo(init, log, Winners(log))[7] == [2]
  {
    var init := map[7 := [1]];
    var first, second := WalRecord(1, 1, Mutate, 7, [1], [2]), WalRecord(2, 1, Mutate, 7, [2], [3]);
    var log := [first, second];
    assert Front(log) == [first] && Front([first]) == [];
    assert Run(init, [first]) == LogState(map[7 := [2]], init, Some(1), {1});
  }

  lemma {:induction false} SerialPrefix(init: Bodies, log: Log, n: nat)
    requires Serial(init, log) && n <= |log|
    ensures Serial(init, log[..n])
    decreases |log|
  {
    if n == |log| {
      assert log[..n] == log;
    } else {
      SerialPrefix(init, Front(log), n);
      assert Front(log)[..n] == log[..n];
    }
  }

  /**
    * A crash that also tears the log, and again any interrupted replays of what is left of it: with fewer bytes
    * than a frame header behind the last whole frame, startup recovers what was committed by then, on exactly the
    * pages that can be undone; with more, it fails and leaves the disk as it was.
    */
  lemma TornLogRecovery(init: Bodies, disk: Bodies, log: Log, crc: Crc, size: nat, attempts: seq<Attempt>)
    requires Serial(init, log) && AllLoggable(log) && size <= |Frames(log, crc)|
    requires Crashed(init, disk, log[..Whole(log, crc, size)])
    ensures
      var s, seen := Scan(Frames(log, crc)[..size], crc), log[..Whole(log, crc, size)];
      var final := Redo(AfterAttempts(disk, s.records, attempts), s.records, Winners(s.records));
      var committed := Run(init, seen).committed;
      && (s.end.Clean? <==> Torn(log, crc, size) < HEADER_SIZE)
      && s.records == seen
      && (forall p :: p in init ==> p in final && p in committed)
      && (forall p :: p in init ==> (final[p] == committed[p] <==> Undoable(seen, p)))
      && (forall p :: p in init && LastOn(seen, p).None? ==> final[p] == init[p])
  {
    hide Scan, Serial, Crashed, Redo, AfterAttempts, Run, Undoable, LastOn;
    var seen := log[..Whole(log, crc, size)];
    ScanPrefix(log, crc, size);
    SerialPrefix(init, log, |seen|);
    CrashRecovery(init, disk, seen, attempts);
  }
}
