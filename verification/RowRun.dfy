/** When every record keeps its NAR row through a whole run. */
module RowRuns {
  import opened Prelude
  import Cryptos
  import Disks
  import Fingerprints
  import IndexTables
  import Ingests
  import Maintain
  import NarInfos
  import StorePaths
  import UploadStates
  import opened Protocols
  import opened Safety

  /** No other record names the NAR of the one to be deleted. */
  ghost predicate Unshared(tables: IndexTables.Tables, hash: StorePaths.Hash) {
    hash in tables.narinfo ==>
      forall other <- tables.narinfo :: other != hash ==> tables.narinfo[other].narHash != tables.narinfo[hash].narHash
  }

  /** Every record has its row, and so will those a publish or a rotation has yet to write. */
  ghost predicate RowsThere(s: State) {
    && IndexTables.EveryRecordHasRow(s.tables)
    && (s.mode.Serving? ==> forall id <- s.mode.publishes :: s.mode.publishes[id].narHash in s.tables.nar)
    && (s.mode.Rotating? ==> forall row <- s.mode.todo :: row.narHash in s.tables.nar)
  }

  lemma {:induction false} RepublishKeepsRows(tables: IndexTables.Tables, rows: seq<NarInfos.NarInfo>)
    requires IndexTables.EveryRecordHasRow(tables) && forall row <- rows :: row.narHash in tables.nar
    ensures IndexTables.EveryRecordHasRow(IndexTables.Republish(tables, rows))
    ensures IndexTables.Republish(tables, rows).nar == tables.nar
    decreases |rows|
  {
    if rows != [] {
      RepublishKeepsRows(tables, rows[..|rows| - 1]);
    }
  }

  lemma MovesKeepRows(c: Cryptos.Crypto, s: State, id: nat, move: Move)
    requires Cryptos.LawfulEncoder(c) && s.mode.Serving? && id in s.mode.uploads && MoveEnabled(c, s, id, move)
    requires RowsThere(s)
    ensures RowsThere(Moved(c, s, id, move))
  {
    hide Cryptos.LawfulEncoder, UploadStates.Fed, UploadStates.Flushed, UploadStates.Tail, UploadStates.Gate, NameOf;
  }

  lemma ListedHaveRows(
      c: Cryptos.Crypto, dir: StorePaths.Dir, key: Cryptos.SecretKey, tables: IndexTables.Tables,
      keys: seq<StorePaths.Hash>, rows: seq<NarInfos.NarInfo>)
    requires IndexTables.EveryRecordHasRow(tables) && IndexTables.Lists(tables, keys, rows)
    ensures forall row <- IndexTables.ResignAll(c, rows, dir, key) :: row.narHash in tables.nar
  {
    hide Fingerprints.Fingerprint, IndexTables.Distinct;
    forall row | row in IndexTables.ResignAll(c, rows, dir, key)
      ensures row.narHash in tables.nar
    {
      var i :| 0 <= i < |rows| && row == IndexTables.ResignAll(c, rows, dir, key)[i];
      assert rows[i] == tables.narinfo[keys[i]];
    }
  }

  lemma PreparedHasRow(
      c: Cryptos.Crypto, dir: StorePaths.Dir, key: Cryptos.SecretKey, tables: IndexTables.Tables, body: string)
    requires Ingests.Prepared(c, dir, key, tables, body).Ok?
    ensures Ingests.Prepared(c, dir, key, tables, body).value.narHash in tables.nar
  {
  }

  lemma BatchKeepsRows(s: State)
    requires s.mode.Rotating? && s.mode.todo != [] && RowsThere(s)
    ensures RowsThere(Batched(s))
  {
    var end := Maintain.BatchEnd(0, |s.mode.todo|);
    RepublishKeepsRows(s.tables, s.mode.todo[..end]);
    hide IndexTables.Republish, SignedOver;
  }

  /** A step keeps them unless it deletes a record that shares its NAR. */
  lemma StepKeepsRows(c: Cryptos.Crypto, dir: StorePaths.Dir, s: State, step: Step)
    requires Cryptos.LawfulEncoder(c) && Enabled(c, dir, s, step) && RowsThere(s)
    requires step.Delete? ==> Unshared(s.tables, step.hash)
    ensures RowsThere(After(c, dir, s, step))
  {
    hide Cryptos.LawfulEncoder, Moved, MoveEnabled, Batched, Ingests.Prepared, IndexTables.Lists, IndexTables.ResignAll,
         Disks.Created, Disks.Opens, NameFree, NameOf;
    match step {
      case Upload(id, move) => MovesKeepRows(c, s, id, move);
      case ReadRow(_, body) => PreparedHasRow(c, dir, s.mode.key, s.tables, body);
      case Delete(hash) =>
        if hash in s.tables.narinfo {
          IndexTables.DeleteStrandsSiblings(s.tables, hash);
        }
      case Rotate(key, keys, rows) => ListedHaveRows(c, dir, key, s.tables, keys, rows);
      case Batch => BatchKeepsRows(s);
      case _ =>
    }
  }

  lemma {:induction false} RowsThereUpTo(
      c: Cryptos.Crypto, dir: StorePaths.Dir, states: seq<State>, steps: seq<Step>, i: nat)
    requires Cryptos.LawfulEncoder(c) && Run(c, dir, states, steps) && i < |states|
    requires forall k :: 0 <= k < |steps| && steps[k].Delete? ==> Unshared(states[k].tables, steps[k].hash)
    ensures RowsThere(states[i])
  {
    hide Cryptos.LawfulEncoder, Enabled, After, Unshared;
    if i > 0 {
      RowsThereUpTo(c, dir, states, steps, i - 1);
      StepKeepsRows(c, dir, states[i - 1], steps[i - 1]);
    }
  }

  /**
   Every record has its NAR row in every state of a run exactly when no delete of the run removed a
   record that shared its NAR with another.
   */
  lemma RowsKeptExactly(c: Cryptos.Crypto, dir: StorePaths.Dir, states: seq<State>, steps: seq<Step>)
    requires Cryptos.LawfulEncoder(c) && Run(c, dir, states, steps)
    ensures (forall i :: 0 <= i < |states| ==> IndexTables.EveryRecordHasRow(states[i].tables))
        <==> (forall i :: 0 <= i < |steps| && steps[i].Delete? ==> Unshared(states[i].tables, steps[i].hash))
  {
    if forall i :: 0 <= i < |steps| && steps[i].Delete? ==> Unshared(states[i].tables, steps[i].hash) {
      forall i | 0 <= i < |states|
        ensures IndexTables.EveryRecordHasRow(states[i].tables)
      {
        RowsThereUpTo(c, dir, states, steps, i);
      }
    }
    if forall i :: 0 <= i < |states| ==> IndexTables.EveryRecordHasRow(states[i].tables) {
      forall i | 0 <= i < |steps| && steps[i].Delete?
        ensures Unshared(states[i].tables, steps[i].hash)
      {
        DeletedUnshared(c, dir, states[i], steps[i]);
        assert states[i + 1] == After(c, dir, states[i], steps[i]);
      }
    }
  }

  lemma DeletedUnshared(c: Cryptos.Crypto, dir: StorePaths.Dir, s: State, step: Step)
    requires Cryptos.LawfulEncoder(c) && Enabled(c, dir, s, step) && step.Delete?
    requires IndexTables.EveryRecordHasRow(s.tables)
    ensures IndexTables.EveryRecordHasRow(After(c, dir, s, step).tables) ==> Unshared(s.tables, step.hash)
  {
    hide Cryptos.LawfulEncoder;
    if step.hash in s.tables.narinfo {
      IndexTables.DeleteStrandsSiblings(s.tables, step.hash);
    }
  }
}
