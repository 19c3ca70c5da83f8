/** The keep-alive loop, and where on the stream it finds request heads. */
module Sessions {
  import opened Prelude
  import opened Http
  import opened Outcomes
  import Connections
  import Cryptos
  import Disks
  import Handlers
  import IndexTables
  import Protocols
  import Safety
  import Stepwise
  import StorePaths

  datatype View = View(tables: IndexTables.Tables, disk: Disks.Disk)

  /**
   One head taken off the connection, what it said, the tables and the disk before and after it was
   handled, what came of it, the octets written back, and whether anything failed underneath.
   */
  datatype Handled = Handled(
    head: seq<byte>,
    request: Request,
    before: View,
    after: View,
    outcome: Outcome,
    reply: seq<byte>,
    faulted: bool)

  function Width(handled: Handled): nat {
    |handled.head| + Taken(handled.request, handled.outcome)
  }

  /** What is left of a stream after a log of handled requests. */
  function Rest(stream: seq<byte>, log: seq<Handled>): seq<byte>
    decreases |log|
  {
    if log == [] then stream
    else
      var before := Rest(stream, log[..|log| - 1]);
      var width := Width(log[|log| - 1]);
      if width <= |before| then before[width..] else []
  }

  /** What of the stream comes after the head. */
  function Following(stream: seq<byte>, handled: Handled): seq<byte> {
    stream[Min(|handled.head|, |stream|)..]
  }

  /** What of that the request declares to be its body. */
  function Payload(stream: seq<byte>, handled: Handled): seq<byte> {
    Handlers.Front(Following(stream, handled), BodyLen(handled.request))
  }

  /**
   An outcome the request can have. Unless it is a push, the outcome and the reply are the very ones the
   cache decides and nothing changes; a push gets the reply its verdict says, or a bare server error if
   something failed, and has its effect exactly when it is answered `Created`.
   */
  ghost predicate Arises(cache: Handlers.Cache, rest: seq<byte>, handled: Handled) {
    var request, before, after := handled.request, handled.before, handled.after;
    && Possible(cache.admits(request.authorization), request, handled.outcome)
    && Disks.WithinLimits(before.disk)
    && (|| cache.Looked(request, before.tables, before.disk, after.tables, after.disk, Ok(handled.outcome), handled.reply)
        || cache.Dealt(request, rest, before.tables, before.disk, after.tables, after.disk, handled.faulted,
                       Ok(handled.outcome), handled.reply))
  }

  /** `handled` is the next head of `before`, parsed, and what came of it arises. */
  ghost predicate Next(cache: Handlers.Cache, before: seq<byte>, handled: Handled) {
    && HeadLen(before) == Some(|handled.head|)
    && handled.head == before[..|handled.head|]
    && Parsed(handled.head) == Ok(handled.request)
    && Arises(cache, Following(before, handled), handled)
    && Width(handled) <= |before|
  }

  ghost predicate KeptOpen(log: seq<Handled>) {
    forall i :: 0 <= i < |log| ==> log[i].outcome.keepAlive.Keep?
  }

  /** A log the session can have made of a stream: each head follows on, and only a `Keep` goes on. */
  ghost predicate Trace(cache: Handlers.Cache, stream: seq<byte>, log: seq<Handled>)
    decreases |log|
  {
    log == []
    || (var front := log[..|log| - 1];
        Trace(cache, stream, front) && KeptOpen(front) && Next(cache, Rest(stream, front), log[|log| - 1]))
  }

  lemma TraceSnoc(cache: Handlers.Cache, stream: seq<byte>, log: seq<Handled>, handled: Handled)
    requires Trace(cache, stream, log) && KeptOpen(log) && Next(cache, Rest(stream, log), handled)
    ensures Trace(cache, stream, log + [handled])
    ensures Rest(stream, log + [handled]) == Rest(stream, log)[Width(handled)..]
  {
    assert (log + [handled])[..|log|] == log;
  }

  function Latest(start: View, log: seq<Handled>): View {
    if log == [] then start else log[|log| - 1].after
  }

  /** Each request is handled in what the one before it left. */
  ghost predicate Chained(start: View, log: seq<Handled>) {
    forall i :: 0 <= i < |log| ==> log[i].before == Latest(start, log[..i])
  }

  function Replies(log: seq<Handled>): seq<byte>
    decreases |log|
  {
    if log == [] then [] else Replies(log[..|log| - 1]) + log[|log| - 1].reply
  }

  ghost predicate Faulted(log: seq<Handled>) {
    exists handled :: handled in log && handled.faulted
  }

  lemma LogSnoc(start: View, log: seq<Handled>, handled: Handled)
    requires Chained(start, log) && handled.before == Latest(start, log)
    ensures Chained(start, log + [handled]) && Latest(start, log + [handled]) == handled.after
    ensures Replies(log + [handled]) == Replies(log) + handled.reply
    ensures Faulted(log + [handled]) <==> Faulted(log) || handled.faulted
  {
    var longer := log + [handled];
    assert longer[..|log|] == log && longer[|log|] == handled;
    forall i | 0 <= i < |longer|
      ensures longer[i].before == Latest(start, longer[..i])
    {
      if i < |log| {
        assert longer[i] == log[i] && longer[..i] == log[..i];
      }
    }
    if Faulted(log) {
      var other :| other in log && other.faulted;
      assert other in longer;
    }
  }

  /** What follows the replies: a bare refusal of a head that does not read, and otherwise nothing. */
  ghost function Farewell(cache: Handlers.Cache, stream: seq<byte>, log: seq<Handled>): seq<byte> {
    if KeptOpen(log) && Rest(stream, log) != [] then
      cache.Wired(Handlers.BareReply(Outcome(BadRequest, Close, Unread)))
    else []
  }

  /** The stream does not go on with a whole message, or with one whose head is within the limit. */
  ghost predicate CutShort(rest: seq<byte>) {
    rest != []
    && match HeadLen(rest)
       case None => true
       case Some(n) =>
         n > HEAD_LEN_MAX
         || (n <= |rest| && Parsed(rest[..n]).Ok? && |rest[n..]| < BodyLen(Parsed(rest[..n]).value))
  }

  /** How a session that saw no connection failure can end. */
  ghost predicate Ended(stream: seq<byte>, log: seq<Handled>) {
    || !KeptOpen(log)
    || Rest(stream, log) == []
    || (HeadLen(Rest(stream, log)).Some?
        && Parsed(Rest(stream, log)[..HeadLen(Rest(stream, log)).value]).Err?)
  }

  /** The tables and the disk a request was handled against are those of a state on the way from `s` to `t`. */
  ghost predicate OnTheWay(
      c: Cryptos.Crypto, dir: StorePaths.Dir, s: Protocols.State, handled: Handled, t: Protocols.State)
    requires Cryptos.LawfulEncoder(c)
  {
    exists m: Protocols.State ::
      && Stepwise.Reaches(c, dir, s, m) && Stepwise.Reaches(c, dir, m, t)
      && handled.before == View(m.tables, m.disk)
  }

  ghost predicate AllOnTheWay(
      c: Cryptos.Crypto, dir: StorePaths.Dir, s: Protocols.State, log: seq<Handled>, t: Protocols.State)
    requires Cryptos.LawfulEncoder(c)
  {
    forall handled <- log :: OnTheWay(c, dir, s, handled, t)
  }

  lemma OneMoreOnTheWay(
      c: Cryptos.Crypto, dir: StorePaths.Dir, s: Protocols.State, log: seq<Handled>, m: Protocols.State,
      handled: Handled, t: Protocols.State)
    requires Cryptos.LawfulEncoder(c) && AllOnTheWay(c, dir, s, log, m)
    requires Stepwise.Reaches(c, dir, s, m) && Stepwise.Reaches(c, dir, m, t)
    requires handled.before == View(m.tables, m.disk)
    ensures AllOnTheWay(c, dir, s, log + [handled], t) && Stepwise.Reaches(c, dir, s, t)
    ensures AllOnTheWay(c, dir, s, log, t)
  {
    hide Cryptos.LawfulEncoder, Stepwise.Reaches;
    Stepwise.ReachesThrough(c, dir, s, m, t);
    assert OnTheWay(c, dir, s, handled, t);
    forall before | before in log
      ensures OnTheWay(c, dir, s, before, t)
    {
      assert OnTheWay(c, dir, s, before, m);
      var n: Protocols.State :|
        && Stepwise.Reaches(c, dir, s, n) && Stepwise.Reaches(c, dir, n, m)
        && before.before == View(n.tables, n.disk);
      Stepwise.ReachesThrough(c, dir, n, m, t);
    }
  }

  lemma NothingOnTheWay(c: Cryptos.Crypto, dir: StorePaths.Dir, s: Protocols.State)
    requires Cryptos.LawfulEncoder(c)
    ensures AllOnTheWay(c, dir, s, [], s)
  {
  }

  /** What a session starts from. */
  datatype Start = Start(stream: seq<byte>, sent: seq<byte>, faults: nat, state: Protocols.State)

  ghost function ViewOf(s: Protocols.State): View {
    View(s.tables, s.disk)
  }

  /** Between two requests: the log is the session so far. */
  ghost predicate SoFar(
      cache: Handlers.Cache, connection: Connections.Connection, start: Start, log: seq<Handled>, t: Protocols.State)
    reads connection, cache.ingest.store, cache.ingest.index
  {
    && Behind(cache, start, log, t) && Latest(ViewOf(start.state), log) == ViewOf(t)
    && KeptOpen(log)
    && connection.Pending() == Rest(start.stream, log)
    && connection.sent == start.sent + Replies(log)
    && Counted(start.faults, cache.Faults(connection), Faulted(log))
  }

  /** What holds of a log however the session goes on. */
  ghost predicate Behind(cache: Handlers.Cache, start: Start, log: seq<Handled>, t: Protocols.State)
    reads cache.ingest.store, cache.ingest.index
  {
    && cache.Valid() && cache.Shows(t)
    && Stepwise.Reaches(cache.ingest.crypto, cache.ingest.dir, start.state, t)
    && AllOnTheWay(cache.ingest.crypto, cache.ingest.dir, start.state, log, t)
    && Trace(cache, start.stream, log)
    && Chained(ViewOf(start.state), log)
  }

  /** After the last one. */
  ghost predicate Over(
      cache: Handlers.Cache, connection: Connections.Connection, start: Start, r: Result<(), Handlers.Error>,
      log: seq<Handled>, t: Protocols.State)
    reads connection, cache.ingest.store, cache.ingest.index
  {
    && Behind(cache, start, log, t)
    && (r.Ok? ==>
          && Ended(start.stream, log) && Latest(ViewOf(start.state), log) == ViewOf(t)
          && connection.sent == start.sent + Replies(log) + Farewell(cache, start.stream, log))
    && (r.Err? ==> KeptOpen(log) && start.sent + Replies(log) <= connection.sent)
    && Counted(start.faults, cache.Faults(connection),
               Faulted(log) || (r.Err? && !CutShort(Rest(start.stream, log))))
  }

  /**
   Serves a connection to its end, logging each head it took. What is written back is the replies of the
   log in order, and a refusal of the head that does not read, if that is how it ends. Without a failure
   underneath, only a stream that breaks off stops it early. Whatever octets arrive, what happens to the
   store and the index is a sequence of protocol steps, and every request is handled in a state on the way.
   */
  method Session(cache: Handlers.Cache, connection: Connections.Connection, ghost s: Protocols.State)
      returns (r: Result<(), Handlers.Error>, ghost log: seq<Handled>, ghost t: Protocols.State)
    requires cache.Valid() && cache.Shows(s)
    modifies connection, cache.ingest.store, cache.ingest.index
    ensures Trace(cache, old(connection.Pending()), log)
    ensures r.Ok? ==>
      && Ended(old(connection.Pending()), log)
      && connection.sent == old(connection.sent) + Replies(log) + Farewell(cache, old(connection.Pending()), log)
    ensures r.Err? ==> KeptOpen(log) && old(connection.sent) + Replies(log) <= connection.sent
    ensures Counted(old(cache.Faults(connection)), cache.Faults(connection),
                    Faulted(log) || (r.Err? && !CutShort(Rest(old(connection.Pending()), log))))
    ensures Chained(View(old(cache.ingest.index.tables), old(cache.ingest.store.disk)), log)
    ensures r.Ok? ==>
      Latest(View(old(cache.ingest.index.tables), old(cache.ingest.store.disk)), log)
      == View(cache.ingest.index.tables, cache.ingest.store.disk)
    ensures cache.Valid() && cache.Shows(t)
    ensures Stepwise.Reaches(cache.ingest.crypto, cache.ingest.dir, s, t)
    ensures AllOnTheWay(cache.ingest.crypto, cache.ingest.dir, s, log, t)
  {
    hide Trace, Rest, Replies, Chained, Latest, Faulted, CutShort, KeptOpen, AllOnTheWay, Stepwise.Reaches,
         Cryptos.LawfulEncoder, Handlers.Cache.Valid, Handlers.Cache.Shows, Handlers.Cache.Faults, Ended, Farewell,
         Counted, SoFar, Connections.Connection.Pending;
    ghost var start := Start(connection.Pending(), connection.sent, cache.Faults(connection), s);
    ShownParts(cache, s);
    Stepwise.ReachesItself(cache.ingest.crypto, cache.ingest.dir, s);
    NothingOnTheWay(cache.ingest.crypto, cache.ingest.dir, s);
    SessionStarts(cache, connection, start);
    r, log, t := Ok(()), [], s;
    var going := true;
    while going
      invariant if going then SoFar(cache, connection, start, log, t) else Over(cache, connection, start, r, log, t)
      decreases going, |connection.Pending()|
    {
      r, going, log, t := Turn(cache, connection, start, log, t);
    }
    ShownParts(cache, t);
  }

  /** The next head, and the request in it, if there is one; the session goes on unless told otherwise. */
  method Turn(
      cache: Handlers.Cache, connection: Connections.Connection, ghost start: Start, ghost before: seq<Handled>,
      ghost s: Protocols.State)
      returns (r: Result<(), Handlers.Error>, going: bool, ghost log: seq<Handled>, ghost t: Protocols.State)
    requires SoFar(cache, connection, start, before, s)
    modifies connection, cache.ingest.store, cache.ingest.index
    ensures if going then
              SoFar(cache, connection, start, log, t) && |connection.Pending()| < |old(connection.Pending())|
            else Over(cache, connection, start, r, log, t)
  {
    hide Trace, Rest, Replies, Chained, Latest, Faulted, CutShort, KeptOpen, AllOnTheWay, OnTheWay, Stepwise.Reaches,
         Cryptos.LawfulEncoder, Handlers.Cache.Valid, Handlers.Cache.Shows, Handlers.Cache.Wired,
         Handlers.Cache.Faults, Ended, Farewell, Next, Width, HeadLen, Parsed, Counted;
    ghost var rest, faults := connection.Pending(), cache.Faults(connection);
    r, going, log, t := Ok(()), false, before, s;
    var head := TakeHead(cache, connection);
    if head.Err? {
      r := Err(Handlers.Connection(head.error));
      CountedOn(start.faults, faults, cache.Faults(connection), Faulted(log), !CutShort(rest));
      return;
    }
    CountedOn(start.faults, faults, cache.Faults(connection), Faulted(log), false);
    if head.value.None? {
      EndsQuietly(cache, start.stream, log);
      return;
    }
    faults := cache.Faults(connection);
    var parsed := Parse(head.value.value);
    if parsed.Err? {
      EndsRefused(cache, start.stream, log, |head.value.value|);
      r := RefuseHead(cache, connection, Handlers.BareReply(Outcome(BadRequest, Close, Unread)));
      CountedOn(start.faults, faults, cache.Faults(connection), Faulted(log), r.Err? && !CutShort(rest));
      return;
    }
    r, going, log, t := Serve(cache, connection, start, before, head.value.value, parsed.value, rest, s);
  }

  /** A request that was read, from its handling to what it adds to the log. */
  method Serve(
      cache: Handlers.Cache, connection: Connections.Connection, ghost start: Start, ghost before: seq<Handled>,
      head: seq<byte>, request: Request, ghost rest: seq<byte>, ghost s: Protocols.State)
      returns (r: Result<(), Handlers.Error>, going: bool, ghost log: seq<Handled>, ghost t: Protocols.State)
    requires Behind(cache, start, before, s) && Latest(ViewOf(start.state), before) == ViewOf(s)
    requires KeptOpen(before) && rest == Rest(start.stream, before)
    requires connection.sent == start.sent + Replies(before)
    requires Counted(start.faults, cache.Faults(connection), Faulted(before))
    requires HeadLen(rest) == Some(|head|) && |head| <= |rest| && head == rest[..|head|]
    requires Parsed(head) == Ok(request) && connection.Pending() == rest[|head|..]
    modifies connection, cache.ingest.store, cache.ingest.index
    ensures if going then SoFar(cache, connection, start, log, t) && |connection.Pending()| < |rest|
            else Over(cache, connection, start, r, log, t)
  {
    hide Trace, Rest, Replies, Chained, Latest, Faulted, CutShort, KeptOpen, AllOnTheWay, OnTheWay, Stepwise.Reaches,
         Cryptos.LawfulEncoder, Handlers.Cache.Valid, Handlers.Cache.Shows, Handlers.Cache.Wired,
         Handlers.Cache.Faults, Ended, Farewell, Next, Width, HeadLen, Parsed, Counted;
    ghost var c, dir, faults := cache.ingest.crypto, cache.ingest.dir, cache.Faults(connection);
    ShownParts(cache, s);
    ghost var handled;
    var outcome;
    outcome, handled, t := HandleHead(cache, connection, head, request, rest, s);
    OneMoreOnTheWay(c, dir, start.state, before, s, handled, t);
    CountedOn(start.faults, faults, cache.Faults(connection), Faulted(before),
              handled.faulted || (outcome.Err? && !CutShort(rest)));
    if outcome.Err? {
      CountedLess(start.faults, cache.Faults(connection),
                  Faulted(before) || handled.faulted || !CutShort(rest), Faulted(before) || !CutShort(rest));
      return Err(outcome.error), false, before, t;
    }
    TraceSnoc(cache, start.stream, before, handled);
    LogSnoc(ViewOf(start.state), before, handled);
    KeptOpenSnoc(before, handled);
    log := before + [handled];
    going := outcome.value.keepAlive.Keep?;
    r := Ok(());
    if !going {
      EndsQuietly(cache, start.stream, log);
    }
  }

  lemma CountedLess(before: nat, after: nat, failed: bool, less: bool)
    requires Counted(before, after, failed) && (less ==> failed)
    ensures Counted(before, after, less)
  {
  }

  lemma SessionStarts(cache: Handlers.Cache, connection: Connections.Connection, start: Start)
    requires cache.Valid() && cache.Shows(start.state)
    requires start == Start(connection.Pending(), connection.sent, cache.Faults(connection), start.state)
    requires Stepwise.Reaches(cache.ingest.crypto, cache.ingest.dir, start.state, start.state)
    requires AllOnTheWay(cache.ingest.crypto, cache.ingest.dir, start.state, [], start.state)
    ensures SoFar(cache, connection, start, [], start.state)
  {
    hide Handlers.Cache.Valid, Handlers.Cache.Shows, Stepwise.Reaches, AllOnTheWay, Rest, Trace, Replies, Faulted,
         Chained, Latest, KeptOpen;
    StartOfTrace(cache, start.stream);
    StartOfLog(ViewOf(start.state));
    assert start.sent + [] == start.sent;
  }

  lemma CountedOn(before: nat, between: nat, after: nat, failed: bool, fails: bool)
    requires Counted(before, between, failed) && (Counted(between, after, fails) || Counted(between, after, true))
    ensures Counted(before, after, failed || fails)
  {
  }

  /** A session that was told to close, or got to the end of the stream, is over without more ado. */
  lemma EndsQuietly(cache: Handlers.Cache, stream: seq<byte>, log: seq<Handled>)
    requires !KeptOpen(log) || Rest(stream, log) == []
    ensures Ended(stream, log) && Farewell(cache, stream, log) == []
    ensures forall sent: seq<byte> :: sent + Farewell(cache, stream, log) == sent
  {
    hide KeptOpen, Rest;
  }

  /** One that met a head that does not read says so. */
  lemma EndsRefused(cache: Handlers.Cache, stream: seq<byte>, log: seq<Handled>, n: nat)
    requires KeptOpen(log) && HeadLen(Rest(stream, log)) == Some(n)
    requires n <= |Rest(stream, log)| && Parsed(Rest(stream, log)[..n]).Err?
    ensures Ended(stream, log)
    ensures Farewell(cache, stream, log) == cache.Wired(Handlers.BareReply(Outcome(BadRequest, Close, Unread)))
  {
    hide KeptOpen, Rest, HeadLen, Parsed;
    HeadFits(Rest(stream, log), n);
  }

  /** The next head, with what a failure to get one says about the stream. */
  method TakeHead(cache: Handlers.Cache, connection: Connections.Connection)
      returns (r: Result<Option<seq<byte>>, Connections.Error>)
    modifies connection`buffer, connection`stream, connection`faults
    ensures match r
            case Ok(Some(head)) =>
              && HeadLen(old(connection.Pending())) == Some(|head|) && |head| <= |old(connection.Pending())|
              && head == old(connection.Pending())[..|head|]
              && connection.Pending() == old(connection.Pending())[|head|..]
            case Ok(None) => old(connection.Pending()) == [] && connection.Pending() == []
            case Err(_) => true
    ensures Counted(old(cache.Faults(connection)), cache.Faults(connection),
                    r.Err? && !CutShort(old(connection.Pending())))
  {
    hide HeadLen, Parsed;
    r := connection.Head();
  }

  method RefuseHead(cache: Handlers.Cache, connection: Connections.Connection, bare: Handlers.Reply)
      returns (r: Result<(), Handlers.Error>)
    modifies connection`sent, connection`faults
    ensures r.Ok? ==> connection.sent == old(connection.sent) + cache.Wired(bare)
    ensures old(connection.sent) <= connection.sent
    ensures Counted(old(cache.Faults(connection)), cache.Faults(connection), r.Err?)
    ensures r.Ok? || Counted(old(cache.Faults(connection)), cache.Faults(connection), true)
  {
    r := cache.Respond(connection, bare);
  }

  /** One head that was taken and read, from there to where its outcome leaves the stream. */
  method HandleHead(
      cache: Handlers.Cache, connection: Connections.Connection, head: seq<byte>, request: Request,
      ghost before: seq<byte>, ghost s: Protocols.State)
      returns (r: Result<Outcome, Handlers.Error>, ghost handled: Handled, ghost t: Protocols.State)
    requires cache.Valid() && cache.Shows(s)
    requires HeadLen(before) == Some(|head|) && |head| <= |before| && head == before[..|head|]
    requires Parsed(head) == Ok(request) && connection.Pending() == before[|head|..]
    modifies connection, cache.ingest.store, cache.ingest.index
    ensures r.Ok? ==>
      && handled.outcome == r.value && Next(cache, before, handled)
      && connection.Pending() == before[Width(handled)..] && |connection.Pending()| < |before|
      && connection.sent == old(connection.sent) + handled.reply
    ensures old(connection.sent) <= connection.sent
    ensures handled.before == View(s.tables, s.disk) && handled.after == View(t.tables, t.disk)
    ensures Counted(old(cache.Faults(connection)), cache.Faults(connection),
                    handled.faulted || (r.Err? && !CutShort(before)))
    ensures s.tables == old(cache.ingest.index.tables) && s.disk == old(cache.ingest.store.disk)
    ensures cache.Valid() && cache.Shows(t)
    ensures Stepwise.Reaches(cache.ingest.crypto, cache.ingest.dir, s, t)
  {
    hide Possible, Parsed, HeadLen, Cryptos.LawfulEncoder, Stepwise.Reaches, Stepwise.Serves, Disks.WithinLimits,
         Handlers.Cache.Looked, Handlers.Cache.Dealt, Handlers.Cache.Faults, Taken, Next;
    ShownParts(cache, s);
    var outcome;
    outcome, t := cache.Handle(connection, request, s);
    ShownParts(cache, t);
    ghost var reply := connection.sent[|old(connection.sent)|..];
    handled := Handled(
      head, request, View(s.tables, s.disk), View(t.tables, t.disk),
      if outcome.Ok? then outcome.value else Outcome(ServerError, Close, Unread),
      reply, old(cache.Faults(connection)) < cache.Faults(connection));
    HeadFits(before, |head|);
    if outcome.Ok? {
      assert Following(before, handled) == old(connection.Pending());
      HeadHandled(cache, before, handled, connection.Pending());
    }
    r := outcome;
  }

  lemma ShownParts(cache: Handlers.Cache, s: Protocols.State)
    requires cache.Valid() && cache.Shows(s)
    ensures s.tables == cache.ingest.index.tables && s.disk == cache.ingest.store.disk
    ensures Cryptos.LawfulEncoder(cache.ingest.crypto) && Disks.WithinLimits(s.disk)
  {
  }

  /**
   So whatever a client sends, every request it gets answered is answered from tables that are true of
   the disk, and that is how the session leaves them.
   */
  lemma AnswersAreTrue(
      c: Cryptos.Crypto, dir: StorePaths.Dir, s: Protocols.State, log: seq<Handled>, t: Protocols.State)
    requires Protocols.Lawful(c) && Protocols.Inv(c, dir, s) && Cryptos.CollisionFree(c, t.ledger)
    requires Stepwise.Reaches(c, dir, s, t) && AllOnTheWay(c, dir, s, log, t)
    ensures Safety.TablesTrue(c, dir, t.disk, t.tables) && Protocols.Inv(c, dir, t)
    ensures forall handled <- log :: Safety.TablesTrue(c, dir, handled.before.disk, handled.before.tables)
  {
    hide Stepwise.Reaches, Protocols.Inv, Safety.TablesTrue, Cryptos.CollisionFree, Safety.RowTrue, Safety.RecordTrue;
    Stepwise.CallsStayTrue(c, dir, s, t);
    Safety.InvMeansTrue(c, dir, t);
    forall handled | handled in log
      ensures Safety.TablesTrue(c, dir, handled.before.disk, handled.before.tables)
    {
      assert OnTheWay(c, dir, s, handled, t);
      var m: Protocols.State :|
        && Stepwise.Reaches(c, dir, s, m) && Stepwise.Reaches(c, dir, m, t)
        && handled.before == View(m.tables, m.disk);
      Stepwise.NoCollisionBefore(c, dir, m, t);
      Stepwise.CallsStayTrue(c, dir, s, m);
      Safety.InvMeansTrue(c, dir, m);
    }
  }

  lemma StartOfTrace(cache: Handlers.Cache, stream: seq<byte>)
    ensures Trace(cache, stream, []) && Rest(stream, []) == stream && KeptOpen([])
  {
  }

  lemma StartOfLog(start: View)
    ensures Chained(start, []) && Latest(start, []) == start && Replies([]) == [] && !Faulted([])
  {
  }

  lemma HeadHandled(cache: Handlers.Cache, before: seq<byte>, handled: Handled, after: seq<byte>)
    requires HeadLen(before) == Some(|handled.head|) && handled.head == before[..|handled.head|]
    requires Parsed(handled.head) == Ok(handled.request)
    requires Arises(cache, Following(before, handled), handled)
    requires Taken(handled.request, handled.outcome) <= |before[|handled.head|..]|
    requires after == before[|handled.head|..][Taken(handled.request, handled.outcome)..]
    ensures Next(cache, before, handled) && after == before[Width(handled)..] && |after| < |before|
  {
    hide HeadLen, Parsed, Arises, Taken;
    HeadFits(before, |handled.head|);
    var body := before[|handled.head|..];
    var taken := Taken(handled.request, handled.outcome);
    assert body[taken..] == before[|handled.head| + taken..];
  }

  lemma HeadFits(stream: seq<byte>, n: nat)
    requires HeadLen(stream) == Some(n)
    ensures 4 <= n <= |stream|
  {
    assert EndsHead(stream, n);
  }

  // ----- Messages -----

  datatype Message = Message(head: seq<byte>, body: seq<byte>)

  function Flat(messages: seq<Message>): seq<byte> {
    if messages == [] then [] else messages[0].head + messages[0].body + Flat(messages[1..])
  }

  function RequestOf(message: Message): Request
    requires Parsed(message.head).Ok?
  {
    Parsed(message.head).value
  }

  /** A head that ends once, at its end, and parses, followed by the body its framing declares. */
  ghost predicate WellFormed(message: Message) {
    && HeadLen(message.head) == Some(|message.head|)
    && Parsed(message.head).Ok?
    && (RequestOf(message).framing.Chunked? || |message.body| == BodyLen(RequestOf(message)))
  }

  /** Well formed, and its body, if any, rides where the server reads it or closes over it. */
  ghost predicate Safe(message: Message) {
    WellFormed(message) && BodySafe(RequestOf(message))
  }

  /** The heads handled so far are the first messages' own, and the stream stands at the next message. */
  ghost predicate InStep(stream: seq<byte>, messages: seq<Message>, log: seq<Handled>) {
    && |log| <= |messages|
    && (forall i :: 0 <= i < |log| ==> log[i].head == messages[i].head)
    && (KeptOpen(log) ==> Rest(stream, log) == Flat(messages[|log|..]))
  }

  lemma FirstHead(message: Message, more: seq<byte>)
    requires WellFormed(message)
    ensures HeadLen(message.head + message.body + more) == Some(|message.head|)
    ensures (message.head + message.body + more)[..|message.head|] == message.head
  {
    hide Parsed, HeadLen;
    HeadLenStable(message.head, message.body + more);
    assert message.head + (message.body + more) == message.head + message.body + more;
  }

  lemma AfterMessage(
      cache: Handlers.Cache, message: Message, more: seq<byte>, handled: Handled)
    requires Safe(message) && Next(cache, message.head + message.body + more, handled)
    ensures handled.head == message.head
    ensures handled.outcome.keepAlive.Keep?
            ==> (message.head + message.body + more)[Width(handled)..] == more
  {
    hide Parsed, HeadLen, Possible, Handlers.Determined, BodySafe;
    FirstHead(message, more);
    BodySafeExactly(RequestOf(message));
    assert KeepsBoundary(handled.request, handled.outcome);
    ChunkedCloses(cache.admits(handled.request.authorization), handled.request, handled.outcome);
    if handled.outcome.keepAlive.Keep? {
      assert Width(handled) == |message.head + message.body|;
    }
  }

  lemma ChunkedCloses(admitted: bool, request: Request, o: Outcome)
    requires Possible(admitted, request, o)
    ensures request.framing.Chunked? ==> o.keepAlive.Close?
  {
  }

  /**
   Section 9.3 of RFC 9112: on a stream of well-formed messages whose bodies ride where they are expected,
   the heads handled are the messages' own, in order, and the connection either stands at a message
   boundary or closes.
   */
  lemma {:induction false} HeadsAreTheMessages(
      cache: Handlers.Cache, stream: seq<byte>, messages: seq<Message>, log: seq<Handled>)
    requires stream == Flat(messages) && forall message <- messages :: Safe(message)
    requires Trace(cache, stream, log)
    ensures InStep(stream, messages, log)
    decreases |log|
  {
    hide Safe, Next;
    if log == [] {
      assert messages[0..] == messages;
    } else {
      var front, last := log[..|log| - 1], log[|log| - 1];
      HeadsAreTheMessages(cache, stream, messages, front);
      var before := Rest(stream, front);
      if |front| == |messages| {
        NoHeadInNothing(cache, last);
      } else {
        var message := messages[|front|];
        var more := messages[|front| + 1..];
        assert messages[|front|..][1..] == more;
        assert before == message.head + message.body + Flat(more);
        AfterMessage(cache, message, Flat(more), last);
        KeptOpenSnoc(front, last);
        Snoc(log);
        TraceSnoc(cache, stream, front, last);
      }
    }
  }

  lemma NoHeadInNothing(cache: Handlers.Cache, handled: Handled)
    ensures !Next(cache, [], handled)
  {
  }

  lemma KeptOpenSnoc(log: seq<Handled>, handled: Handled)
    ensures KeptOpen(log + [handled]) <==> KeptOpen(log) && handled.outcome.keepAlive.Keep?
  {
    if KeptOpen(log + [handled]) {
      forall i | 0 <= i < |log|
        ensures log[i].outcome.keepAlive.Keep?
      {
        assert (log + [handled])[i] == log[i];
      }
      assert (log + [handled])[|log|] == handled;
    }
  }

  /** A session that ends without a connection failure, and was never told to close, handled them all. */
  lemma AllMessagesHandled(
      cache: Handlers.Cache, stream: seq<byte>, messages: seq<Message>, log: seq<Handled>)
    requires stream == Flat(messages) && forall message <- messages :: Safe(message)
    requires Trace(cache, stream, log) && Ended(stream, log) && KeptOpen(log)
    ensures |log| == |messages|
  {
    hide Trace, Parsed, HeadLen, Safe;
    HeadsAreTheMessages(cache, stream, messages, log);
    NextIsReadable(messages, |log|);
  }

  /**
   Nor does such a stream break off on the way, if its heads are within the limit: then only a failure
   underneath ends the session in an error.
   */
  lemma WholeMessagesNotCut(
      cache: Handlers.Cache, stream: seq<byte>, messages: seq<Message>, log: seq<Handled>)
    requires stream == Flat(messages) && forall message <- messages :: Safe(message) && |message.head| <= HEAD_LEN_MAX
    requires Trace(cache, stream, log) && KeptOpen(log)
    ensures !CutShort(Rest(stream, log))
  {
    hide Trace, Parsed, HeadLen, Safe, CutShort;
    HeadsAreTheMessages(cache, stream, messages, log);
    NextNotCut(messages, |log|);
  }

  lemma NextNotCut(messages: seq<Message>, n: nat)
    requires n <= |messages| && forall message <- messages :: Safe(message) && |message.head| <= HEAD_LEN_MAX
    ensures !CutShort(Flat(messages[n..]))
  {
    hide Parsed, HeadLen, BodySafe;
    if n < |messages| {
      var message := messages[n];
      assert Safe(message) && |message.head| <= HEAD_LEN_MAX;
      var more := Flat(messages[n..][1..]);
      assert Flat(messages[n..]) == message.head + message.body + more;
      FirstHead(message, more);
    }
  }

  lemma NextIsReadable(messages: seq<Message>, n: nat)
    requires n <= |messages| && forall message <- messages :: Safe(message)
    ensures n < |messages| ==>
      var rest := Flat(messages[n..]);
      rest != [] && HeadLen(rest).Some? && Parsed(rest[..HeadLen(rest).value]).Ok?
  {
    hide Parsed, HeadLen, BodySafe;
    if n < |messages| {
      var message := messages[n];
      assert Safe(message);
      var more := Flat(messages[n..][1..]);
      assert Flat(messages[n..]) == message.head + message.body + more;
      FirstHead(message, more);
      HeadIsNotEmpty(message);
    }
  }

  lemma HeadIsNotEmpty(message: Message)
    requires WellFormed(message)
    ensures |message.head| >= 4
  {
    HeadFits(message.head, |message.head|);
  }

  // ----- A body where none is expected -----

  lemma {:induction false} TraceAt(cache: Handlers.Cache, stream: seq<byte>, log: seq<Handled>, i: nat)
    requires Trace(cache, stream, log) && i < |log|
    ensures KeptOpen(log[..i]) && Next(cache, Rest(stream, log[..i]), log[i])
    decreases |log|
  {
    hide Next, Rest;
    var front := log[..|log| - 1];
    if i < |log| - 1 {
      TraceAt(cache, stream, front, i);
      assert front[..i] == log[..i];
    }
  }

  /** An unsafe request that has an answer hands the connection back with its whole body unread. */
  lemma FirstLeavesBody(
      cache: Handlers.Cache, message: Message, more: seq<byte>, first: Handled)
    requires WellFormed(message) && Next(cache, message.head + message.body + more, first)
    requires !BodySafe(RequestOf(message))
    requires Handlers.HasAnswer(RequestOf(message), first.before.tables, first.before.disk)
    ensures first.outcome.keepAlive.Keep? && Width(first) == |message.head|
  {
    FirstHead(message, more);
    UnsafeIsDetermined(RequestOf(message), first.before.tables, first.before.disk);
    hide Parsed, HeadLen, Possible, Handlers.Determined, Handlers.HasAnswer, BodySafe;
    Handlers.LeavesBodyExactly(RequestOf(message), first.before.tables, first.before.disk);
  }

  lemma UnsafeIsDetermined(request: Request, tables: IndexTables.Tables, disk: Disks.Disk)
    requires Disks.WithinLimits(disk) && !BodySafe(request)
    ensures Handlers.Determined(request, tables, disk).Some?
    ensures CarriesBody(request) && request.keepAlive.Keep? && !request.framing.Chunked?
  {
    hide Handlers.ArtifactReply, Handlers.ProbedLength;
  }

  /**
   Where no body is expected, one that starts with something that reads as a head is served as a request:
   in every session on such a stream whose first request has an answer in the cache at that time, the
   second head handled is the one the first one's body starts with. A session without failures does get
   to it.
   */
  lemma BodyServedAsHead(
      cache: Handlers.Cache, message: Message, inner: Message, more: seq<byte>, log: seq<Handled>)
    requires WellFormed(message) && !BodySafe(RequestOf(message))
    requires WellFormed(inner) && inner.head <= message.body
    requires Trace(cache, message.head + message.body + more, log)
    requires log != [] && Handlers.HasAnswer(RequestOf(message), log[0].before.tables, log[0].before.disk)
    ensures log[0].outcome.keepAlive.Keep? && Rest(message.head + message.body + more, log[..1]) == message.body + more
    ensures |log| > 1 ==> log[1].head == inner.head
    ensures Ended(message.head + message.body + more, log) ==> |log| > 1
  {
    hide Parsed, HeadLen, BodySafe, Trace, Handlers.HasAnswer, Arises;
    var stream := message.head + message.body + more;
    TraceAt(cache, stream, log, 0);
    assert log[..0] == [] && log[..1] == [log[0]];
    StartOfTrace(cache, stream);
    FirstLeavesBody(cache, message, more, log[0]);
    assert log[..1][..0] == [];
    assert stream[|message.head|..] == message.body + more;
    var rest := message.body[|inner.head|..] + more;
    HeadLenStable(inner.head, rest);
    HeadIsNotEmpty(inner);
    assert message.body == inner.head + message.body[|inner.head|..];
    assert message.body + more == inner.head + rest;
    assert (message.body + more)[..|inner.head|] == inner.head;
    if |log| > 1 {
      TraceAt(cache, stream, log, 1);
    } else {
      assert log == log[..1];
    }
  }
}
