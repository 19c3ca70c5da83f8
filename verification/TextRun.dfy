/** Every record a run stores is one that a client of the cache reads back as it was stored. */
module TextRuns {
  import opened Prelude
  import opened Text
  import Cryptos
  import Disks
  import Fingerprints
  import Http
  import IndexTables
  import Ingests
  import Maintain
  import NarInfoParsing
  import NarInfoReadings
  import NarInfoRoundTrip
  import NarInfos
  import Servings
  import Signatures
  import StorePaths
  import UploadStates
  import opened Protocols
  import opened Safety

  /** A key whose name a signature line can carry. */
  ghost predicate UsableKey(key: Cryptos.SecretKey) {
    Signatures.ValidName(key.name) && '\n' !in key.name && OctetText(key.name)
  }

  ghost predicate RowsServable(tables: IndexTables.Tables, dir: StorePaths.Dir) {
    forall hash <- tables.narinfo :: Servings.Servable(tables.narinfo[hash], dir)
  }

  // ----- An accepted body is text throughout -----

  lemma {:induction false} LinesText(body: string)
    requires OctetText(body)
    ensures forall i :: 0 <= i < |Lines(body)| ==> OctetText(Lines(body)[i])
    decreases |body|
  {
    if body != "" && SplitOnce(body, "\n").Some? {
      var parts := SplitOnce(body, "\n").value;
      assert body == parts.0 + ("\n" + parts.1);
      hide OctetText, SplitOnce;
      Servings.JoinedText(parts.0, "\n" + parts.1);
      Servings.JoinedText("\n", parts.1);
      FrontText(parts.0);
      LinesText(parts.1);
    }
  }

  lemma FrontText(line: string)
    requires OctetText(line)
    ensures OctetText(StripCr(line))
  {
  }

  lemma {:induction false} ValuesText(lines: seq<string>, field: NarInfos.Field)
    requires forall i :: 0 <= i < |lines| ==> OctetText(lines[i])
    ensures forall i :: 0 <= i < |NarInfoReadings.Values(lines, field)| ==> OctetText(NarInfoReadings.Values(lines, field)[i])
    decreases |lines|
  {
    if lines != [] {
      var last := |lines| - 1;
      ValuesText(lines[..last], field);
      if NarInfoReadings.ValueOf(lines[last], field).Some? {
        ValueText(lines[last], field);
      }
    }
  }

  lemma ValueText(line: string, field: NarInfos.Field)
    requires OctetText(line) && NarInfoReadings.ValueOf(line, field).Some?
    ensures OctetText(NarInfoReadings.ValueOf(line, field).value)
  {
  }

  lemma DirText(dir: StorePaths.Dir, value: string)
    requires OctetText(value) && StorePaths.ParseIn(dir, value).Ok?
    ensures OctetText(dir)
  {
    assert value == dir + value[|dir|..];
    Servings.JoinedText(dir, value[|dir|..]);
  }

  lemma PathIsText(values: seq<string>, record: NarInfos.NarInfo, dir: StorePaths.Dir)
    requires NarInfoReadings.Says(NarInfos.StorePath, values, record, dir)
    requires forall i :: 0 <= i < |values| ==> OctetText(values[i])
    ensures OctetText(dir)
  {
    hide StorePaths.ParseIn, OctetText;
    DirText(dir, values[|values| - 1]);
  }

  lemma CaIsText(values: seq<string>, record: NarInfos.NarInfo, dir: StorePaths.Dir)
    requires NarInfoReadings.Says(NarInfos.Ca, values, record, dir)
    requires forall i :: 0 <= i < |values| ==> OctetText(values[i])
    ensures record.ca.Some? ==> OctetText(record.ca.value)
  {
    hide OctetText;
  }

  lemma AcceptedIsText(body: string, dir: StorePaths.Dir)
    requires OctetText(body) && NarInfoParsing.Parsed(body, dir).Ok?
    ensures OctetText(dir)
    ensures var record := NarInfoParsing.Parsed(body, dir).value;
            record.ca.Some? ==> OctetText(record.ca.value)
  {
    hide OctetText, Lines, NarInfoReadings.Values, NarInfoReadings.Says, NarInfoReadings.Readable, NarInfoParsing.Parsed;
    var record, lines := NarInfoParsing.Parsed(body, dir).value, Lines(body);
    LinesText(body);
    NarInfoReadings.ParsedExactly(body, dir, record);
    ValuesText(lines, NarInfos.StorePath);
    ValuesText(lines, NarInfos.Ca);
    PathIsText(NarInfoReadings.Values(lines, NarInfos.StorePath), record, dir);
    CaIsText(NarInfoReadings.Values(lines, NarInfos.Ca), record, dir);
  }

  /** What a publish stores is servable when its body came off the wire and its key is usable. */
  lemma PreparedIsServable(
      c: Cryptos.Crypto, dir: StorePaths.Dir, key: Cryptos.SecretKey, tables: IndexTables.Tables, body: string)
    requires Ingests.Prepared(c, dir, key, tables, body).Ok? && OctetText(body) && UsableKey(key)
    ensures Servings.Servable(Ingests.Prepared(c, dir, key, tables, body).value, dir)
  {
    hide NarInfoParsing.Parsed, Fingerprints.Fingerprint, OctetText;
    AcceptedIsText(body, dir);
    NarInfoParsing.AcceptedIsRenderable(body, dir);
  }

  lemma ResignedIsServable(
      c: Cryptos.Crypto, dir: StorePaths.Dir, key: Cryptos.SecretKey, record: NarInfos.NarInfo)
    requires Servings.Servable(record, dir) && UsableKey(key)
    ensures Servings.Servable(Fingerprints.Resigned(c, record, dir, key), dir)
  {
    hide Fingerprints.Fingerprint, OctetText;
  }

  /** Nothing but a newline in a key's name keeps what it signs from being read back. */
  lemma ResignedReadsBackExactly(
      c: Cryptos.Crypto, dir: StorePaths.Dir, key: Cryptos.SecretKey, record: NarInfos.NarInfo)
    requires Servings.Servable(record, dir) && Signatures.ValidName(key.name) && OctetText(key.name)
    ensures var signed := Fingerprints.Resigned(c, record, dir, key);
            var sent := Http.Octets(NarInfos.Rendered(signed, dir));
            NarInfoParsing.Parsed(Http.AsText(sent), dir) == Ok(NarInfoRoundTrip.CaStripped(signed))
            <==> '\n' !in key.name
  {
    hide NarInfoParsing.Parsed, NarInfos.Rendered, Servings.Servable, Fingerprints.Fingerprint, Http.Octets,
         Http.AsText, OctetText;
    var signed := Fingerprints.Resigned(c, record, dir, key);
    var read := Http.AsText(Http.Octets(NarInfos.Rendered(signed, dir)));
    if '\n' !in key.name {
      ResignedIsServable(c, dir, key, record);
      Servings.ServedReadsBack(signed, dir);
    } else if NarInfoParsing.Parsed(read, dir).Ok? {
      NarInfoParsing.AcceptedIsRenderable(read, dir);
      OnlySignature(signed);
    }
  }

  lemma OnlySignature(record: NarInfos.NarInfo)
    requires |record.sigs| == 1
    ensures record.sigs[0] in NarInfoRoundTrip.CaStripped(record).sigs
  {
  }

  // ----- Over runs -----

  /** Every record stored, or about to be, is servable. */
  ghost predicate AllServable(s: State, dir: StorePaths.Dir) {
    && RowsServable(s.tables, dir)
    && (s.mode.Booting? ==> UsableKey(s.mode.key))
    && (s.mode.Serving? ==>
          UsableKey(s.mode.key) && forall id <- s.mode.publishes :: Servings.Servable(s.mode.publishes[id], dir))
    && (s.mode.Rotating? ==> forall i :: 0 <= i < |s.mode.todo| ==> Servings.Servable(s.mode.todo[i], dir))
  }

  /** Keys have usable names, and bodies arrive as octets. */
  ghost predicate Proper(step: Step) {
    match step
    case Boot(_, key) => UsableKey(key)
    case Rotate(key, _, _) => UsableKey(key)
    case ReadRow(_, body) => OctetText(body)
    case _ => true
  }

  lemma {:induction false} RepublishServable(tables: IndexTables.Tables, rows: seq<NarInfos.NarInfo>, dir: StorePaths.Dir)
    requires RowsServable(tables, dir) && forall i :: 0 <= i < |rows| ==> Servings.Servable(rows[i], dir)
    ensures RowsServable(IndexTables.Republish(tables, rows), dir)
    decreases |rows|
  {
    hide Servings.Servable;
    if rows != [] {
      RepublishServable(tables, rows[..|rows| - 1], dir);
    }
  }

  lemma MovesServable(c: Cryptos.Crypto, dir: StorePaths.Dir, s: State, id: nat, move: Move)
    requires Cryptos.LawfulEncoder(c) && s.mode.Serving? && id in s.mode.uploads && MoveEnabled(c, s, id, move)
    requires AllServable(s, dir)
    ensures AllServable(Moved(c, s, id, move), dir)
  {
    hide Cryptos.LawfulEncoder, UploadStates.Fed, UploadStates.Flushed, UploadStates.Tail, UploadStates.Gate, NameOf,
         Servings.Servable, UsableKey;
  }

  lemma ListedServable(
      c: Cryptos.Crypto, dir: StorePaths.Dir, key: Cryptos.SecretKey, tables: IndexTables.Tables,
      keys: seq<StorePaths.Hash>, rows: seq<NarInfos.NarInfo>)
    requires RowsServable(tables, dir) && UsableKey(key) && IndexTables.Lists(tables, keys, rows)
    ensures forall i :: 0 <= i < |rows| ==> Servings.Servable(IndexTables.ResignAll(c, rows, dir, key)[i], dir)
  {
    hide Fingerprints.Resigned, IndexTables.Distinct, Servings.Servable, UsableKey;
    forall i | 0 <= i < |rows|
      ensures Servings.Servable(IndexTables.ResignAll(c, rows, dir, key)[i], dir)
    {
      assert rows[i] == tables.narinfo[keys[i]];
      ResignedIsServable(c, dir, key, rows[i]);
    }
  }

  lemma BatchServable(s: State, dir: StorePaths.Dir)
    requires s.mode.Rotating? && s.mode.todo != [] && AllServable(s, dir)
    ensures AllServable(Batched(s), dir)
  {
    hide Servings.Servable, IndexTables.Republish, SignedOver, RowsServable;
    var end := Maintain.BatchEnd(0, |s.mode.todo|);
    RepublishServable(s.tables, s.mode.todo[..end], dir);
  }

  lemma StepServable(c: Cryptos.Crypto, dir: StorePaths.Dir, s: State, step: Step)
    requires Cryptos.LawfulEncoder(c) && Enabled(c, dir, s, step) && AllServable(s, dir) && Proper(step)
    ensures AllServable(After(c, dir, s, step), dir)
  {
    hide Cryptos.LawfulEncoder, Moved, MoveEnabled, Batched, Ingests.Prepared, IndexTables.Lists, IndexTables.ResignAll,
         Disks.Created, Disks.Opens, NameFree, NameOf, Servings.Servable, UsableKey, OctetText;
    match step {
      case Upload(id, move) => MovesServable(c, dir, s, id, move);
      case ReadRow(_, body) => PreparedIsServable(c, dir, s.mode.key, s.tables, body);
      case Rotate(key, keys, rows) => ListedServable(c, dir, key, s.tables, keys, rows);
      case Batch => BatchServable(s, dir);
      case _ =>
    }
  }

  lemma {:induction false} ServableUpTo(
      c: Cryptos.Crypto, dir: StorePaths.Dir, states: seq<State>, steps: seq<Step>, i: nat)
    requires Cryptos.LawfulEncoder(c) && Run(c, dir, states, steps) && i < |states|
    requires forall k :: 0 <= k < |steps| ==> Proper(steps[k])
    ensures AllServable(states[i], dir)
  {
    hide Cryptos.LawfulEncoder, Enabled, After, Proper;
    if i > 0 {
      ServableUpTo(c, dir, states, steps, i - 1);
      StepServable(c, dir, states[i - 1], steps[i - 1]);
    }
  }

  /**
   In every state of every run whose keys have usable names, a client that parses what is sent for a stored
   record gets that record, less a carriage return at the end of its CA.
   */
  lemma StoredReadsBack(
      c: Cryptos.Crypto, dir: StorePaths.Dir, states: seq<State>, steps: seq<Step>, i: nat, hash: StorePaths.Hash)
    requires Cryptos.LawfulEncoder(c) && Run(c, dir, states, steps) && i < |states|
    requires forall k :: 0 <= k < |steps| ==> Proper(steps[k])
    requires hash in states[i].tables.narinfo
    ensures var record := states[i].tables.narinfo[hash];
            var sent := Http.Octets(NarInfos.Rendered(record, dir));
            NarInfoParsing.Parsed(Http.AsText(sent), dir) == Ok(NarInfoRoundTrip.CaStripped(record))
  {
    hide Run, Servings.Servable, NarInfoParsing.Parsed, NarInfos.Rendered, Proper;
    ServableUpTo(c, dir, states, steps, i);
    Servings.ServedReadsBack(states[i].tables.narinfo[hash], dir);
  }
}
