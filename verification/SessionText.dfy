/** What clients of one connection read in the narinfos they are sent. */
module SessionTexts {
  import opened Prelude
  import opened Text
  import opened Http
  import opened Outcomes
  import Cryptos
  import Disks
  import Fingerprints
  import Handlers
  import IndexTables
  import Ingests
  import NarInfoParsing
  import NarInfoRoundTrip
  import NarInfos
  import Routes
  import Servings
  import StorePaths
  import TextRuns
  import opened Sessions

  /** What one request changes keeps the records servable. */
  lemma EffectServable(cache: Handlers.Cache, rest: seq<byte>, handled: Handled)
    requires Arises(cache, rest, handled)
    requires TextRuns.RowsServable(handled.before.tables, cache.ingest.dir) && TextRuns.UsableKey(cache.ingest.key)
    ensures TextRuns.RowsServable(handled.after.tables, cache.ingest.dir)
  {
    hide Possible, Handlers.Determined, Routes.Resolve, Ingests.Prepared, Servings.Servable, TextRuns.UsableKey,
         Handlers.Cache.Settled, Handlers.Cache.PushVerdict, Handlers.Cache.ReadReply, Handlers.Cache.Wired,
         Disks.Artifact, OctetText;
    var body := Handlers.Front(rest, BodyLen(handled.request));
    TextIsOctets(body);
    var before := handled.before.tables;
    if handled.after.tables.narinfo != before.narinfo {
      TextRuns.PreparedIsServable(cache.ingest.crypto, cache.ingest.dir, cache.ingest.key, before, AsText(body));
    }
  }

  lemma {:induction false} RowsStayServable(
      cache: Handlers.Cache, stream: seq<byte>, log: seq<Handled>, start: View)
    requires Trace(cache, stream, log) && Chained(start, log)
    requires TextRuns.RowsServable(start.tables, cache.ingest.dir) && TextRuns.UsableKey(cache.ingest.key)
    ensures forall handled <- log :: TextRuns.RowsServable(handled.before.tables, cache.ingest.dir)
    ensures TextRuns.RowsServable(Latest(start, log).tables, cache.ingest.dir)
    decreases |log|
  {
    hide TextRuns.RowsServable, TextRuns.UsableKey, Arises, HeadLen, Parsed, Rest, Following, Width;
    if log != [] {
      var front, last := log[..|log| - 1], log[|log| - 1];
      ChainedFront(start, log);
      RowsStayServable(cache, stream, front, start);
      EffectServable(cache, Following(Rest(stream, front), last), last);
      Snoc(log);
    }
  }

  lemma ChainedFront(start: View, log: seq<Handled>)
    requires log != [] && Chained(start, log)
    ensures Chained(start, log[..|log| - 1]) && log[|log| - 1].before == Latest(start, log[..|log| - 1])
  {
    var front := log[..|log| - 1];
    forall i | 0 <= i < |front|
      ensures front[i].before == Latest(start, front[..i])
    {
      assert front[..i] == log[..i];
    }
  }

  /** A request to read the narinfo under a key. */
  ghost predicate AsksFor(request: Request, key: StorePaths.Hash) {
    !request.framing.Chunked? && !request.verb.Put? && Routes.Resolve(request.target) == Ok(Routes.Narinfo(key))
  }

  /** What is written back for it, when the record is there. */
  lemma AnsweredByRecord(cache: Handlers.Cache, rest: seq<byte>, handled: Handled, key: StorePaths.Hash)
    requires Arises(cache, rest, handled) && AsksFor(handled.request, key)
    requires key in handled.before.tables.narinfo
    ensures var record := handled.before.tables.narinfo[key];
            handled.reply == cache.Wired(Handlers.FullReply(
              handled.request, Octets(NarInfos.Rendered(record, cache.ingest.dir))))
  {
    hide Possible, Routes.Resolve, NarInfos.Rendered, Octets, Handlers.Cache.Pushed, Handlers.Cache.Settled,
         Handlers.Cache.PushVerdict, Handlers.Cache.Wired, Handlers.ArtifactReply, Disks.Artifact,
         Disks.WithinLimits, Handlers.FullReply, Handlers.ProbedLength;
  }

  /**
   On a connection to a cache whose records are servable and whose key is usable, every narinfo sent reads
   back as the record the tables held when it was asked for, whatever was pushed on the way.
   */
  lemma NarinfosReadBack(
      cache: Handlers.Cache, stream: seq<byte>, log: seq<Handled>, start: View, i: nat, key: StorePaths.Hash)
    requires Trace(cache, stream, log) && Chained(start, log) && i < |log|
    requires TextRuns.RowsServable(start.tables, cache.ingest.dir) && TextRuns.UsableKey(cache.ingest.key)
    requires AsksFor(log[i].request, key) && key in log[i].before.tables.narinfo
    ensures var record := log[i].before.tables.narinfo[key];
            var body := Octets(NarInfos.Rendered(record, cache.ingest.dir));
            && log[i].reply == cache.Wired(Handlers.FullReply(log[i].request, body))
            && NarInfoParsing.Parsed(AsText(body), cache.ingest.dir) == Ok(NarInfoRoundTrip.CaStripped(record))
  {
    hide Trace, Arises, Parsed, HeadLen, Rest, Following, Width, NarInfos.Rendered, NarInfoParsing.Parsed, AsksFor,
         TextRuns.UsableKey, Servings.Servable, Octets, AsText;
    RowsStayServable(cache, stream, log, start);
    TraceAt(cache, stream, log, i);
    AnsweredByRecord(cache, Following(Rest(stream, log[..i]), log[i]), log[i], key);
    Servings.ServedReadsBack(log[i].before.tables.narinfo[key], cache.ingest.dir);
  }

  /** The narinfo push at `i` was carried out: what it became is in the tables the next request meets. */
  lemma PushedRecord(cache: Handlers.Cache, rest: seq<byte>, handled: Handled, key: StorePaths.Hash)
    requires Arises(cache, rest, handled) && handled.outcome.status.Created?
    requires Handlers.Determined(handled.request, handled.before.tables, handled.before.disk).None?
    requires Routes.Resolve(handled.request.target) == Ok(Routes.Narinfo(key))
    ensures var ingest, body := cache.ingest, Handlers.Front(rest, BodyLen(handled.request));
            var prepared := Ingests.Prepared(ingest.crypto, ingest.dir, ingest.key, handled.before.tables, AsText(body));
            && prepared.Ok?
            && handled.after.tables == IndexTables.Publish(handled.before.tables, prepared.value)
  {
    hide Possible, Routes.Resolve, Handlers.Cache.Settled, Handlers.Cache.PushVerdict, Handlers.Cache.ReadReply,
         Handlers.Cache.Wired, Handlers.Determined, Ingests.Prepared, IndexTables.Publish;
  }

  ghost predicate PutsRecord(request: Request) {
    !request.framing.Chunked? && request.verb.Put?
    && exists key :: Routes.Resolve(request.target) == Ok(Routes.Narinfo(key))
  }

  /**
   A record that was pushed is what the next request for it gets: it agrees with what the client declared,
   and carries one signature, which verifies under this server's key.
   */
  lemma PushedIsServed(
      cache: Handlers.Cache, stream: seq<byte>, log: seq<Handled>, start: View, i: nat, key: StorePaths.Hash)
    requires Cryptos.LawfulSigner(cache.ingest.crypto)
    requires Trace(cache, stream, log) && Chained(start, log) && i + 1 < |log|
    requires TextRuns.RowsServable(start.tables, cache.ingest.dir) && TextRuns.UsableKey(cache.ingest.key)
    requires PutsRecord(log[i].request) && log[i].outcome.status.Created?
    requires var body := AsText(Payload(Rest(stream, log[..i]), log[i]));
             NarInfoParsing.Parsed(body, cache.ingest.dir).Ok? ==>
               key == NarInfoParsing.Parsed(body, cache.ingest.dir).value.storePath.hash
    requires AsksFor(log[i + 1].request, key)
    ensures var pushed := AsText(Payload(Rest(stream, log[..i]), log[i]));
            && NarInfoParsing.Parsed(pushed, cache.ingest.dir).Ok?
            && exists record: NarInfos.NarInfo, body: seq<byte> ::
                 && Ingests.Declared(record, NarInfoParsing.Parsed(pushed, cache.ingest.dir).value)
                 && Fingerprints.SignedBy(cache.ingest.crypto, record, cache.ingest.dir, cache.ingest.key)
                 && log[i + 1].reply == cache.Wired(Handlers.FullReply(log[i + 1].request, body))
                 && NarInfoParsing.Parsed(AsText(body), cache.ingest.dir) == Ok(NarInfoRoundTrip.CaStripped(record))
  {
    hide Trace, Arises, Parsed, HeadLen, Rest, Following, Width, NarInfos.Rendered, NarInfoParsing.Parsed, AsksFor,
         TextRuns.UsableKey, Servings.Servable, Octets, AsText, Ingests.Declared, Fingerprints.SignedBy,
         Handlers.FullReply, Handlers.Cache.Wired, TextRuns.RowsServable;
    var ingest, body := cache.ingest, Payload(Rest(stream, log[..i]), log[i]);
    TraceAt(cache, stream, log, i);
    var rest := Following(Rest(stream, log[..i]), log[i]);
    assert body == Handlers.Front(rest, BodyLen(log[i].request));
    ArisesWithin(cache, rest, log[i]);
    PutIsPush(log[i]);
    var own :| Routes.Resolve(log[i].request.target) == Ok(Routes.Narinfo(own));
    PushedRecord(cache, rest, log[i], own);
    var record := Ingests.Prepared(ingest.crypto, ingest.dir, ingest.key, log[i].before.tables, AsText(body)).value;
    PreparedParses(cache, log[i].before.tables, AsText(body));
    Ingests.PreparedFromRow(ingest.crypto, ingest.dir, ingest.key, log[i].before.tables, AsText(body));
    assert log[..i + 1][i] == log[i];
    assert log[i + 1].before == log[i].after;
    assert record.storePath.hash == key;
    NarinfosReadBack(cache, stream, log, start, i + 1, key);
  }

  lemma ArisesWithin(cache: Handlers.Cache, rest: seq<byte>, handled: Handled)
    requires Arises(cache, rest, handled)
    ensures Disks.WithinLimits(handled.before.disk)
  {
  }

  lemma PutIsPush(handled: Handled)
    requires PutsRecord(handled.request) && Disks.WithinLimits(handled.before.disk)
    ensures Handlers.Determined(handled.request, handled.before.tables, handled.before.disk).None?
  {
    hide Routes.Resolve, Disks.WithinLimits;
  }

  lemma PreparedParses(cache: Handlers.Cache, tables: IndexTables.Tables, body: string)
    requires Ingests.Prepared(cache.ingest.crypto, cache.ingest.dir, cache.ingest.key, tables, body).Ok?
    ensures NarInfoParsing.Parsed(body, cache.ingest.dir).Ok?
    ensures Ingests.Prepared(cache.ingest.crypto, cache.ingest.dir, cache.ingest.key, tables, body).value.storePath
         == NarInfoParsing.Parsed(body, cache.ingest.dir).value.storePath
  {
    hide NarInfoParsing.Parsed, Fingerprints.Fingerprint;
  }
}
