/** The transaction manager, and why its log is serial. */
module Transactions {
  import opened Bytes
  import opened WalCodec
  import opened WalFile
  import opened Recovery

  class TxManager {
    const wal: Wal
    /** The transactions begun and not yet ended. */
    var txs: set<nat>
    var nextTxId: nat
    /** The records since the last checkpoint, and the page contents then. */
    ghost var log: Log
    ghost var init: Bodies

    ghost function State(): LogState
      reads this
    {
      Run(init, log)
    }

    ghost predicate Valid()
      reads this, wal
    {
      && wal.Holds(log) && wal.pos == |wal.file| && Serial(init, log)
      && |txs| <= 1 && (forall t :: t in txs ==> t < nextTxId) && (forall t :: t in State().used ==> t < nextTxId)
      && (State().active.Some? ==> State().active.value in txs)
      && (forall t :: t in txs && t in State().used ==> State().active == Some(t))
      && State().current.Keys == State().committed.Keys == init.Keys
    }

    constructor (wal: Wal, ghost init: Bodies)
      requires wal.Holds([]) && wal.pos == |wal.file|
      ensures Valid() && this.wal == wal && this.init == init && log == [] && txs == {}
    {
      this.wal, txs, nextTxId := wal, {}, 1;
      this.init, log := init, [];
    }

    /** Begins a transaction under a new id; refused while another one is active. */
    method Begin() returns (txId: Option<nat>)
      requires Valid()
      modifies this`txs, this`nextTxId
      ensures Valid() && (txId.None? <==> old(txs) != {})
      ensures txId.Some? ==> txId.value !in State().used && txs == {txId.value}
      ensures txId.None? ==> txs == old(txs)
    {
      if txs != {} {
        return None;
      }
      txId := Some(nextTxId);
      txs := {nextTxId};
      nextTxId := nextTxId + 1;
    }

    /** A member of a set with at most one member is the only one. */
    lemma OnlyOne(t: nat)
      requires t in txs && |txs| <= 1
      ensures txs == {t}
    {
      assert |txs - {t}| == 0;
    }

    /** One more record of the active transaction at the end of the log. */
    method LogRecord(kind: RecordKind, txId: nat, pageId: nat, before: seq<Byte>, after: seq<Byte>)
      requires Valid() && txId in txs && Loggable(WalRecord(wal.nextLsn, txId, kind, pageId, before, after))
      requires kind.Mutate? ==> pageId in State().current && before == State().current[pageId]
      modifies wal, this`log
      ensures wal.Holds(log) && wal.pos == |wal.file| && Serial(init, log)
      ensures log == old(log) + [WalRecord(old(wal.nextLsn), txId, kind, pageId, before, after)]
      ensures State() == Next(old(State()), WalRecord(old(wal.nextLsn), txId, kind, pageId, before, after))
    {
      hide Frames, EncodeRecord, Loggable;
      ghost var rec := WalRecord(wal.nextLsn, txId, kind, pageId, before, after);
      OnlyOne(txId);
      var lsn := wal.Append(kind, txId, pageId, before, after, log);
      log := log + [rec];
      assert Front(log) == old(log) && Last(log) == rec;
    }

    /** A client's change of a page: the log gets the content found there and the content left there. */
    method Change(txId: nat, pageId: nat, before: seq<Byte>, after: seq<Byte>)
      requires Valid() && txId in txs && pageId in State().current && before == State().current[pageId]
      requires Loggable(WalRecord(wal.nextLsn, txId, Mutate, pageId, before, after))
      modifies wal, this`log
      ensures Valid() && State().committed == old(State()).committed
      ensures State().current == old(State()).current[pageId := after]
    {
      hide Frames, EncodeRecord, Loggable, Run, Serial, Legal, Front, Last;
      OnlyOne(txId);
      LogRecord(Mutate, txId, pageId, before, after);
    }

    /** Makes the transaction's changes the committed content; refused for any but the active transaction. */
    method Commit(txId: nat) returns (ok: bool)
      requires Valid() && Loggable(WalRecord(wal.nextLsn, txId, TxCommit, 0, [], []))
      modifies wal, this`log, this`txs
      ensures Valid() && ok == (txId in old(txs))
      ensures ok ==> State().committed == State().current == old(State()).current && txs == {}
      ensures !ok ==> State() == old(State()) && txs == old(txs)
    {
      hide Frames, EncodeRecord, Loggable, Run, Serial, Legal, Front, Last;
      if txId !in txs {
        return false;
      }
      OnlyOne(txId);
      LogRecord(TxCommit, txId, 0, [], []);
      txs := txs - {txId};
      ok := true;
    }

    /** Marks the transaction as rolled back; the pages are back at their committed content. */
    method Rollback(txId: nat) returns (ok: bool)
      requires Valid() && Loggable(WalRecord(wal.nextLsn, txId, TxRollback, 0, [], []))
      modifies wal, this`log, this`txs
      ensures Valid() && ok == (txId in old(txs))
      ensures ok ==> State().current == State().committed == old(State()).committed && txs == {}
      ensures !ok ==> State() == old(State()) && txs == old(txs)
    {
      hide Frames, EncodeRecord, Loggable, Run, Serial, Legal, Front, Last;
      if txId !in txs {
        return false;
      }
      OnlyOne(txId);
      LogRecord(TxRollback, txId, 0, [], []);
      txs := txs - {txId};
      ok := true;
    }

    /** All pages are flushed as they are now, and the log starts anew. An active transaction is not looked for. */
    method Checkpoint()
      requires Valid()
      modifies wal, this`log, this`init
      ensures Valid() && log == [] && wal.file == [] && init == old(State()).current
      ensures State().current == State().committed == old(State()).current
    {
      hide Frames, EncodeRecord, Loggable;
      init := State().current;
      wal.Truncate();
      log := [];
    }

    /**
      * What a crash at any moment leaves can be recovered to the committed content, page by page, exactly as far as the
      * log undoes it.
      */
    lemma CrashNow(disk: Bodies, attempts: seq<Attempt>)
      requires Valid() && Crashed(init, disk, log)
      ensures
        var final := Redo(AfterAttempts(disk, log, attempts), log, Winners(log));
        (forall p :: p in init ==> p in final) && (forall p :: p in init ==> p in State().committed)
        && ((forall p :: p in init ==> final[p] == State().committed[p])
            <==> (forall p :: p in init ==> Undoable(log, p)))
    {
      hide Frames;
      CrashRecovery(init, disk, log, attempts);
    }
  }
}
