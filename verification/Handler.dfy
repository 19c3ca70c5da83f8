/** What can come out of handling one request, as far as the connection is concerned. */
module Outcomes {
  import opened Prelude
  import opened Http
  import Compressions
  import Routes

  datatype Status =
    | Success | Created | PartialContent | BadRequest | Unauthorized | NotFound | LengthRequired
    | ContentTooLarge | RangeNotSatisfiable | ServerError | NotImplemented

  /** Where an outcome leaves the stream: past the request's body, or still before it. */
  datatype Drained = Consumed | Unread

  datatype Outcome = Outcome(status: Status, keepAlive: KeepAlive, drained: Drained)

  /** A bodyless answer closes exactly when it leaves a body behind. */
  function Answered(request: Request, status: Status, drained: Drained): Outcome {
    Outcome(status, if drained.Unread? && CarriesBody(request) then Close else request.keepAlive, drained)
  }

  /** A full answer hands back the request's own choice and reads nothing. */
  function Sent(request: Request, status: Status): Outcome {
    Outcome(status, request.keepAlive, Unread)
  }

  ghost predicate PublishPossible(admitted: bool, request: Request, o: Outcome) {
    if !admitted then o == Answered(request, Unauthorized, Unread)
    else if !request.framing.Length? then o == Answered(request, LengthRequired, Unread)
    else if BodyLen(request) > METADATA_BODY_MAX then o == Answered(request, ContentTooLarge, Unread)
    else o.status in {Created, BadRequest, ServerError} && o == Answered(request, o.status, Consumed)
  }

  ghost predicate ReceivePossible(admitted: bool, request: Request, compressed: bool, o: Outcome) {
    if !admitted then o == Answered(request, Unauthorized, Unread)
    else if !request.framing.Length? then o == Answered(request, LengthRequired, Unread)
    else if compressed then o == Answered(request, BadRequest, Unread)
    else o == Answered(request, ServerError, Unread)
         || (o.status in {Created, BadRequest} && o == Answered(request, o.status, Consumed))
  }

  ghost predicate StreamPossible(request: Request, o: Outcome) {
    || o == Answered(request, NotFound, Unread) || o == Answered(request, ServerError, Unread)
    || o == Sent(request, Success) || o == Sent(request, PartialContent)
    || o == Sent(request, RangeNotSatisfiable)
  }

  /** The outcomes the branches of the handlers allow for a request, over every state of the cache. */
  ghost predicate Possible(admitted: bool, request: Request, o: Outcome) {
    if request.framing.Chunked? then o == Answered(request, NotImplemented, Unread)
    else match Routes.Resolve(request.target)
      case Err(error) => o == Answered(request, if error.Unknown? then NotFound else BadRequest, Unread)
      case Ok(CacheInfo) => o == Sent(request, Success)
      case Ok(Metrics) => o == Sent(request, Success)
      case Ok(Narinfo(_)) =>
        if request.verb.Put? then PublishPossible(admitted, request, o)
        else o == Sent(request, Success) || o == Answered(request, NotFound, Unread)
      case Ok(Nar(url)) =>
        match request.verb
        case Put => ReceivePossible(admitted, request, url.compression != Compressions.None_, o)
        case Head => o == Sent(request, Success) || o == Answered(request, NotFound, Unread)
        case Get => StreamPossible(request, o)
  }

  /** An answer that has what the request asked for, or says what part of it there is. */
  ghost predicate FullAnswer(o: Outcome) {
    o.status in {Success, PartialContent, RangeNotSatisfiable}
  }

  /**
   Whatever comes of a request, the connection is kept exactly when the request asks for it and either the
   body was read, or there was none, or the answer was a full one.
   */
  lemma KeptExactly(admitted: bool, request: Request, o: Outcome)
    requires Possible(admitted, request, o)
    ensures o.keepAlive.Keep?
        <==> request.keepAlive.Keep? && (o.drained.Consumed? || !CarriesBody(request) || FullAnswer(o))
  {
    hide Routes.Resolve;
  }

  /** Body octets an outcome takes off the connection. */
  function Taken(request: Request, o: Outcome): nat {
    if o.drained.Consumed? then BodyLen(request) else 0
  }

  // ----- When a request keeps the stream at a message boundary -----

  ghost predicate KeepsBoundary(request: Request, o: Outcome) {
    o.keepAlive.Close? || o.drained.Consumed? || !CarriesBody(request)
  }

  /** What a client can check before it sends a body. */
  predicate BodySafe(request: Request) {
    || !CarriesBody(request)
    || request.keepAlive.Close?
    || request.framing.Chunked?
    || match Routes.Resolve(request.target)
       case Err(_) => true
       case Ok(Narinfo(_)) => request.verb.Put?
       case Ok(Nar(_)) => request.verb.Put?
       case _ => false
  }

  /** A request is sure to leave the next one readable exactly when its body rides where one is expected. */
  lemma BodySafeExactly(request: Request)
    ensures BodySafe(request)
        <==> forall admitted: bool, o: Outcome | Possible(admitted, request, o) :: KeepsBoundary(request, o)
  {
    hide Routes.Resolve;
    if !BodySafe(request) {
      assert Possible(true, request, Sent(request, Success));
      assert !KeepsBoundary(request, Sent(request, Success));
    }
  }
}

/** What each route does with the request, the index, the store and the connection. */
module Handlers {
  import opened Prelude
  import opened Http
  import opened Outcomes
  import Compressions
  import Connections
  import Cryptos
  import Digests
  import opened Disks
  import IndexTables
  import Indexes
  import Ingests
  import NarInfoParsing
  import NarInfoRoundTrip
  import NarInfos
  import NarUrls
  import Protocols
  import Ranges
  import Routes
  import Servings
  import Stepwise
  import StorePaths
  import Stores
  import Streams
  import UploadStates
  import Uploads

  datatype Error =
    | Connection(connection: Connections.Error)
    | Index(index: Indexes.Error)
    | Store(store: Stores.Error)
    | Upload(upload: UploadStates.Error)

  datatype ContentRange = Absent | Part(span: Ranges.Span, size: nat) | Unsatisfied(size: nat)

  /** The parts of a response head that depend on the exchange. */
  datatype ResponseHead = ResponseHead(status: Status, keepAlive: KeepAlive, length: nat, range: ContentRange)

  datatype Reply = Reply(head: ResponseHead, body: seq<byte>)

  /** What a push comes to when nothing fails underneath, and what the client is told about it. */
  datatype Verdict = Verdict(outcome: Outcome, message: seq<byte>)

  ghost predicate IsPush(request: Request) {
    !request.framing.Chunked? && request.verb.Put?
    && match Routes.Resolve(request.target)
       case Ok(Nar(_)) => true
       case Ok(Narinfo(_)) => true
       case _ => false
  }

  /** The first `n` octets of what is pending, or all there is. */
  function Front(pending: seq<byte>, n: nat): seq<byte> {
    pending[..Min(n, |pending|)]
  }

  /** The reply to a `GET` of an artifact that is on disk. */
  function ArtifactReply(request: Request, content: seq<byte>): Reply
    requires |content| < U64_LIMIT
  {
    if content == [] then
      Reply(ResponseHead(ServerError, Answered(request, ServerError, Unread).keepAlive, 0, Absent), [])
    else if Ranges.Resolve(request.range, |content|).Unsatisfiable? then
      Reply(ResponseHead(RangeNotSatisfiable, request.keepAlive, 0, Unsatisfied(|content|)), [])
    else
      var owed := Streams.Answer(content, request.range);
      Reply(
        ResponseHead(
          if owed.partial then PartialContent else Success, request.keepAlive, owed.length,
          if owed.partial then Part(owed.range.value, |content|) else Absent),
        owed.body)
  }

  function FullReply(request: Request, body: seq<byte>): Reply {
    Reply(ResponseHead(Success, request.keepAlive, |body|, Absent), if request.verb == Method.Head then [] else body)
  }

  function RefusalReply(o: Outcome, message: seq<byte>): Reply {
    Reply(ResponseHead(o.status, o.keepAlive, |message|, Absent), message)
  }

  function BareReply(o: Outcome): Reply {
    Reply(ResponseHead(o.status, o.keepAlive, 0, Absent), [])
  }

  /** The cache has what the request asks for, so the answer is a full one. */
  ghost predicate HasAnswer(request: Request, tables: IndexTables.Tables, disk: Disk) {
    match Routes.Resolve(request.target)
    case Err(_) => false
    case Ok(CacheInfo) => true
    case Ok(Metrics) => true
    case Ok(Narinfo(key)) => key in tables.narinfo
    case Ok(Nar(url)) =>
      if request.verb == Method.Head then ProbedLength(tables, disk, url).Some?
      else Artifact(disk, url).Some? && Artifact(disk, url).value != []
  }

  /** What the tables and the disk decide the outcome of a request to be, unless it is a push. */
  ghost function Determined(request: Request, tables: IndexTables.Tables, disk: Disk): Option<Outcome>
    requires WithinLimits(disk)
  {
    if request.framing.Chunked? then Some(Answered(request, NotImplemented, Unread))
    else match Routes.Resolve(request.target)
      case Err(error) => Some(Answered(request, if error.Unknown? then NotFound else BadRequest, Unread))
      case Ok(CacheInfo) => Some(Sent(request, Success))
      case Ok(Metrics) => Some(Sent(request, Success))
      case Ok(Narinfo(key)) =>
        if request.verb.Put? then None
        else if key in tables.narinfo then Some(Sent(request, Success))
        else Some(Answered(request, NotFound, Unread))
      case Ok(Nar(url)) =>
        match request.verb
        case Put => None
        case Head =>
          if ProbedLength(tables, disk, url).Some? then Some(Sent(request, Success))
          else Some(Answered(request, NotFound, Unread))
        case Get =>
          match Artifact(disk, url)
          case None => Some(Answered(request, NotFound, Unread))
          case Some(content) =>
            var head := ArtifactReply(request, content).head;
            Some(Outcome(head.status, head.keepAlive, Unread))
  }

  /**
   Which requests leave their body on the stream, told from the request and the cache: those that carry
   one, keep the connection, and get a full answer.
   */
  lemma LeavesBodyExactly(request: Request, tables: IndexTables.Tables, disk: Disk)
    requires WithinLimits(disk) && Determined(request, tables, disk).Some?
    ensures !KeepsBoundary(request, Determined(request, tables, disk).value)
        <==> CarriesBody(request) && request.keepAlive.Keep? && !request.framing.Chunked?
             && HasAnswer(request, tables, disk)
  {
    hide Routes.Resolve, Streams.Answer, Ranges.Resolve;
  }

  /** What a stored upload leaves behind: a true row for the body, and its artifact. */
  ghost predicate Recorded(
      c: Cryptos.Crypto, disk: Disk, before: IndexTables.Tables, after: IndexTables.Tables,
      narHash: Digests.Digest, body: seq<byte>)
  {
    && c.sha(body) == narHash && body != []
    && narHash in after.nar
    && after == IndexTables.PutNar(before, narHash, after.nar[narHash])
    && after.nar[narHash].narSize == |body|
    && Artifact(disk, IndexTables.Url(after.nar[narHash])).Some?
    && var content := Artifact(disk, IndexTables.Url(after.nar[narHash])).value;
       UploadStates.Describes(c, content, narHash, after.nar[narHash]) && c.inflate(content) == Some(body)
  }

  class Cache {
    const ingest: Ingests.Ingest
    /** Which authorization headers carry a known push token. */
    const admits: Option<string> -> bool
    const info: seq<byte>
    /** Response formatting: how a head, the interim head, a refusal and the counters read on the wire. */
    const wire: ResponseHead -> seq<byte>
    const proceedHead: seq<byte>
    const explain: Ingests.Error -> seq<byte>
    const counters: nat -> seq<byte>

    constructor (
        ingest: Ingests.Ingest, admits: Option<string> -> bool, info: seq<byte>, wire: ResponseHead -> seq<byte>,
        proceedHead: seq<byte>, explain: Ingests.Error -> seq<byte>, counters: nat -> seq<byte>)
      ensures this.ingest == ingest && this.admits == admits
    {
      this.ingest := ingest;
      this.admits := admits;
      this.info := info;
      this.wire := wire;
      this.proceedHead := proceedHead;
      this.explain := explain;
      this.counters := counters;
    }

    ghost predicate Valid()
      reads ingest.store`disk
    {
      Cryptos.LawfulEncoder(ingest.crypto) && WithinLimits(ingest.store.disk)
    }

    /** The store and the index are those of this process in state `s`, with nothing in flight. */
    ghost predicate Shows(s: Protocols.State)
      reads ingest.store`disk, ingest.store`sequence, ingest.index`tables
    {
      && Stepwise.Serves(s, ingest.store, ingest.index) && s.mode.Serving?
      && s.mode.key == ingest.key && s.mode.uploads == map[] && s.mode.publishes == map[]
    }

    /** What a push that was carried out did: a true row for the body, or the record it declares. */
    ghost predicate Pushed(
        request: Request, body: seq<byte>, before: IndexTables.Tables, after: IndexTables.Tables, disk: Disk)
    {
      match Routes.Resolve(request.target)
      case Ok(Nar(url)) => Recorded(ingest.crypto, disk, before, after, url.fileHash, body)
      case Ok(Narinfo(_)) =>
        var prepared := Ingests.Prepared(ingest.crypto, ingest.dir, ingest.key, before, AsText(body));
        prepared.Ok? && after == IndexTables.Publish(before, prepared.value)
      case _ => false
    }

    /** The reply to a request that is no push. */
    ghost function ReadReply(request: Request, tables: IndexTables.Tables, disk: Disk): Reply
      requires WithinLimits(disk) && Determined(request, tables, disk).Some?
    {
      var bare := BareReply(Determined(request, tables, disk).value);
      if request.framing.Chunked? then bare
      else match Routes.Resolve(request.target)
        case Err(_) => bare
        case Ok(CacheInfo) => FullReply(request, info)
        case Ok(Metrics) => FullReply(request, counters(|tables.narinfo|))
        case Ok(Narinfo(key)) =>
          if key in tables.narinfo
          then FullReply(request, Octets(NarInfos.Rendered(tables.narinfo[key], ingest.dir)))
          else bare
        case Ok(Nar(url)) =>
          if request.verb == Method.Head then
            match ProbedLength(tables, disk, url)
            case None => bare
            case Some(length) => Reply(ResponseHead(Success, request.keepAlive, length, Absent), [])
          else
            match Artifact(disk, url)
            case None => bare
            case Some(content) => ArtifactReply(request, content)
    }

    /** The head of a reply says what the outcome is, and how long the body is that a `GET` gets. */
    lemma ReadReplyMatches(request: Request, tables: IndexTables.Tables, disk: Disk)
      requires WithinLimits(disk) && Determined(request, tables, disk).Some?
      ensures var o, reply := Determined(request, tables, disk).value, ReadReply(request, tables, disk);
              && reply.head.status == o.status && reply.head.keepAlive == o.keepAlive
              && (request.verb != Method.Head ==> reply.head.length == |reply.body|)
              && (request.verb == Method.Head ==> reply.body == [])
              && (reply.head.range != Absent ==> o.status in {PartialContent, RangeNotSatisfiable})
    {
      hide Routes.Resolve, Ranges.Resolve, Streams.Answer, NarInfos.Rendered, Octets, ProbedLength, Artifact, WithinLimits;
    }

    /**
     A `HEAD` gets the head its `GET` would, length included, and no body; of an artifact, when it is asked
     for under the name it is stored by, whole, and is not empty.
     */
    lemma HeadMatchesGet(request: Request, tables: IndexTables.Tables, disk: Disk)
      requires WithinLimits(disk) && !request.framing.Chunked? && Routes.Resolve(request.target).Ok?
      requires match Routes.Resolve(request.target).value
               case Nar(url) =>
                 url.compression != Compressions.None_ && request.range.None?
                 && Artifact(disk, url).Some? && Artifact(disk, url).value != []
               case _ => true
      ensures var head, get := request.(verb := Method.Head), request.(verb := Method.Get);
              && Determined(head, tables, disk).Some? && Determined(get, tables, disk).Some?
              && ReadReply(head, tables, disk).head == ReadReply(get, tables, disk).head
              && ReadReply(head, tables, disk).body == []
              && ReadReply(get, tables, disk).head.length == |ReadReply(get, tables, disk).body|
    {
      hide Routes.Resolve, NarInfos.Rendered, Octets, WithinLimits;
    }

    lemma RefusalMatches(o: Outcome, message: seq<byte>)
      ensures var reply := RefusalReply(o, message);
              && reply.head.status == o.status && reply.head.keepAlive == o.keepAlive
              && reply.body == message && reply.head.length == |message| && reply.head.range == Absent
      ensures RefusalReply(o, []) == BareReply(o)
    {
    }

    // ----- What a push comes to -----

    /** A NAR is recorded exactly when it is let in, uncompressed, not empty, and what its name says. */
    ghost function UploadVerdict(request: Request, url: NarUrls.NarUrl, body: seq<byte>): Verdict {
      if !admits(request.authorization) then Verdict(Answered(request, Unauthorized, Unread), [])
      else if !request.framing.Length? then Verdict(Answered(request, LengthRequired, Unread), [])
      else if url.compression != Compressions.None_ then
        Verdict(Answered(request, BadRequest, Unread), explain(Ingests.PreCompressed(url.compression)))
      else BodyVerdict(request, url, body)
    }

    ghost function BodyVerdict(request: Request, url: NarUrls.NarUrl, body: seq<byte>): Verdict {
      var found := ingest.crypto.sha(body);
      if found != url.fileHash then
        Verdict(Answered(request, BadRequest, Consumed),
                explain(Ingests.Upload(UploadStates.HashMismatch(url.fileHash, found))))
      else if body == [] then
        Verdict(Answered(request, BadRequest, Consumed), explain(Ingests.Upload(UploadStates.Empty)))
      else Verdict(Answered(request, Created, Consumed), [])
    }

    /** A record is published exactly when it is let in, not too long, text, and the tables have its NAR. */
    ghost function RecordVerdict(request: Request, tables: IndexTables.Tables, body: seq<byte>): Verdict {
      if !admits(request.authorization) then Verdict(Answered(request, Unauthorized, Unread), [])
      else if !request.framing.Length? then Verdict(Answered(request, LengthRequired, Unread), [])
      else if BodyLen(request) > METADATA_BODY_MAX then Verdict(Answered(request, ContentTooLarge, Unread), [])
      else if !Utf8(body) then Verdict(Answered(request, BadRequest, Consumed), [])
      else match Ingests.Prepared(ingest.crypto, ingest.dir, ingest.key, tables, AsText(body))
        case Err(error) => Verdict(Answered(request, BadRequest, Consumed), explain(error))
        case Ok(_) => Verdict(Answered(request, Created, Consumed), [])
    }

    ghost function PushVerdict(request: Request, tables: IndexTables.Tables, body: seq<byte>): Verdict
      requires IsPush(request)
    {
      match Routes.Resolve(request.target)
      case Ok(Nar(url)) => UploadVerdict(request, url, body)
      case Ok(Narinfo(_)) => RecordVerdict(request, tables, body)
    }

    /**
     How a push was answered: as its verdict says, after the interim head if its body was asked for; or,
     if something failed underneath, by a bare server error.
     */
    ghost predicate Settled(verdict: Verdict, request: Request, faulted: bool, o: Outcome, reply: seq<byte>) {
      || (o == verdict.outcome && reply == Interim(request, o) + Wired(RefusalReply(o, verdict.message)))
      || (faulted && o.status.ServerError? && reply == Interim(request, o) + Wired(BareReply(o)))
    }

    lemma SettledAtOnce(verdict: Verdict, request: Request, faulted: bool, o: Outcome, before: seq<byte>, after: seq<byte>)
      requires o.drained.Unread?
      requires
        || (o == verdict.outcome && after == before + Wired(RefusalReply(o, verdict.message)))
        || (faulted && o.status.ServerError? && after == before + Wired(BareReply(o)))
      ensures before <= after && Settled(verdict, request, faulted, o, after[|before|..])
    {
    }

    lemma SettledAfter(
        verdict: Verdict, request: Request, faulted: bool, o: Outcome, before: seq<byte>, after: seq<byte>)
      requires
        || (o == verdict.outcome && after == before + Interim(request, o) + Wired(RefusalReply(o, verdict.message)))
        || (faulted && o.status.ServerError? && after == before + Interim(request, o) + Wired(BareReply(o)))
      ensures before <= after && Settled(verdict, request, faulted, o, after[|before|..])
    {
      var interim, refusal, bare := Interim(request, o), Wired(RefusalReply(o, verdict.message)), Wired(BareReply(o));
      assert before + interim + refusal == before + (interim + refusal);
      assert before + interim + bare == before + (interim + bare);
    }

    lemma SettledMore(
        verdict: Verdict, request: Request, faulted: bool, more: bool, o: Outcome, reply: seq<byte>)
      requires Settled(verdict, request, faulted, o, reply) && (faulted ==> more)
      ensures Settled(verdict, request, more, o, reply)
    {
    }

    /** Everything that has failed so far on the way to and from this cache. */
    ghost function Faults(connection: Connections.Connection): nat
      reads connection`faults, ingest.store`faults, ingest.index`faults
    {
      connection.faults + ingest.store.faults + ingest.index.faults
    }

    ghost function Interim(request: Request, o: Outcome): seq<byte> {
      if o.drained.Consumed? && request.expectation.Continue? then proceedHead else []
    }

    function Wired(reply: Reply): seq<byte> {
      wire(reply.head) + reply.body
    }

    method Respond(connection: Connections.Connection, reply: Reply) returns (r: Result<(), Error>)
      modifies connection`sent, connection`faults
      ensures r.Ok? ==> connection.sent == old(connection.sent) + Wired(reply)
      ensures old(connection.sent) <= connection.sent && Counted(old(connection.faults), connection.faults, r.Err?)
    {
      var written := connection.Write(Wired(reply));
      if written.Err? {
        return Err(Connection(written.error));
      }
      return Ok(());
    }

    method Answer(connection: Connections.Connection, request: Request, status: Status, drained: Drained)
        returns (r: Result<Outcome, Error>)
      modifies connection`sent, connection`faults
      ensures r.Ok? ==>
        && r.value == Answered(request, status, drained)
        && connection.sent == old(connection.sent) + Wired(BareReply(r.value))
      ensures old(connection.sent) <= connection.sent && Counted(old(connection.faults), connection.faults, r.Err?)
    {
      var outcome := Answered(request, status, drained);
      var responded := Respond(connection, BareReply(outcome));
      if responded.Err? {
        return Err(responded.error);
      }
      return Ok(outcome);
    }

    /** A client fault is explained in the reply's body; a server fault gets a bare status. */
    method Refuse(connection: Connections.Connection, request: Request, error: Ingests.Error, drained: Drained)
        returns (r: Result<Outcome, Error>)
      modifies connection`sent, connection`faults
      ensures old(connection.sent) <= connection.sent && Counted(old(connection.faults), connection.faults, r.Err?)
      ensures r.Ok? ==>
        var client := Ingests.FaultOf(error) == UploadStates.Client;
        && r.value == Answered(request, if client then BadRequest else ServerError, drained)
        && connection.sent == old(connection.sent)
             + Wired(RefusalReply(r.value, if client then explain(error) else []))
    {
      if Ingests.FaultOf(error) == UploadStates.Server {
        r := Answer(connection, request, ServerError, drained);
        return r;
      }
      var outcome := Answered(request, BadRequest, drained);
      var message := explain(error);
      var reply := RefusalReply(outcome, message);
      var responded := Respond(connection, reply);
      if responded.Err? {
        return Err(responded.error);
      }
      return Ok(outcome);
    }

    /** A whole body, or only its length when the request is a `HEAD`. */
    method Send(connection: Connections.Connection, request: Request, body: seq<byte>)
        returns (r: Result<Outcome, Error>)
      modifies connection`sent, connection`faults
      ensures r.Ok? ==>
        && r.value == Sent(request, Success)
        && connection.sent == old(connection.sent) + Wired(FullReply(request, body))
      ensures old(connection.sent) <= connection.sent && Counted(old(connection.faults), connection.faults, r.Err?)
    {
      var responded := Respond(connection, FullReply(request, body));
      if responded.Err? {
        return Err(responded.error);
      }
      return Ok(Sent(request, Success));
    }

    method Proceed(connection: Connections.Connection, request: Request) returns (r: Result<(), Error>)
      modifies connection`sent, connection`faults
      ensures r.Ok? ==>
        connection.sent == old(connection.sent) + if request.expectation.Continue? then proceedHead else []
      ensures old(connection.sent) <= connection.sent && Counted(old(connection.faults), connection.faults, r.Err?)
    {
      if request.expectation.Continue? {
        var written := connection.Write(proceedHead);
        if written.Err? {
          return Err(Connection(written.error));
        }
      }
      return Ok(());
    }

    // ----- Reading -----

    method Metrics(connection: Connections.Connection, request: Request) returns (r: Result<Outcome, Error>)
      modifies connection`sent, connection`faults, ingest.index`faults
      ensures old(connection.sent) <= connection.sent && Counted(old(Faults(connection)), Faults(connection), r.Err?)
      ensures r.Ok? ==>
        && r.value == Sent(request, Success)
        && connection.sent == old(connection.sent)
             + Wired(FullReply(request, counters(|ingest.index.tables.narinfo|)))
    {
      var paths := ingest.index.Count();
      if paths.Err? {
        return Err(Index(paths.error));
      }
      r := Send(connection, request, counters(paths.value));
    }

    /**
     The stored record, rendered, or a miss; `HEAD` gets the length of what `GET` would send. Whoever parses
     what `GET` sends gets the stored record back.
     */
    method ReadNarinfo(connection: Connections.Connection, request: Request, key: StorePaths.Hash)
        returns (r: Result<Outcome, Error>)
      modifies connection`sent, connection`faults, ingest.index`faults
      ensures old(connection.sent) <= connection.sent && Counted(old(Faults(connection)), Faults(connection), r.Err?)
      ensures r.Ok? ==>
        if key in ingest.index.tables.narinfo then
          var record := ingest.index.tables.narinfo[key];
          var body := Octets(NarInfos.Rendered(record, ingest.dir));
          && r.value == Sent(request, Success)
          && connection.sent == old(connection.sent) + Wired(FullReply(request, body))
          && (Servings.Servable(record, ingest.dir) ==>
                NarInfoParsing.Parsed(AsText(body), ingest.dir) == Ok(NarInfoRoundTrip.CaStripped(record)))
        else
          && r.value == Answered(request, NotFound, Unread)
          && connection.sent == old(connection.sent) + Wired(BareReply(r.value))
    {
      hide NarInfos.Rendered, NarInfoParsing.Parsed, Servings.Servable, Octets, AsText, NarInfoRoundTrip.CaStripped;
      var found := ingest.index.NarInfo(key);
      if found.Err? {
        return Err(Index(found.error));
      }
      if found.value.None? {
        r := Answer(connection, request, NotFound, Unread);
        return r;
      }
      var body := NarInfos.Render(found.value.value, ingest.dir);
      if Servings.Servable(found.value.value, ingest.dir) {
        Servings.ServedReadsBack(found.value.value, ingest.dir);
      }
      r := Send(connection, request, Octets(body));
    }

    /**
     The existence check before an upload: an uncompressed name is looked up as a NAR hash in the index,
     any other as an artifact on disk.
     */
    method Probe(connection: Connections.Connection, request: Request, url: NarUrls.NarUrl)
        returns (r: Result<Outcome, Error>)
      requires WithinLimits(ingest.store.disk)
      modifies connection`sent, connection`faults, ingest.store`faults, ingest.index`faults
      ensures old(connection.sent) <= connection.sent && Counted(old(Faults(connection)), Faults(connection), r.Err?)
      ensures r.Ok? ==>
        match ProbedLength(ingest.index.tables, ingest.store.disk, url)
        case None => r.value == Answered(request, NotFound, Unread)
                     && connection.sent == old(connection.sent) + Wired(BareReply(r.value))
        case Some(length) =>
          && r.value == Sent(request, Success)
          && connection.sent == old(connection.sent)
               + Wired(Reply(ResponseHead(Success, request.keepAlive, length, Absent), []))
    {
      var length: Option<nat> := None;
      if url.compression == Compressions.None_ {
        var entry := ingest.index.Nar(url.fileHash);
        if entry.Err? {
          return Err(Index(entry.error));
        }
        if entry.value.Some? {
          length := Some(entry.value.value.narSize);
        }
      } else {
        var reader := ingest.store.Read(url);
        if reader.Err? {
          return Err(Store(reader.error));
        }
        if reader.value.Some? {
          length := Some(reader.value.value.size);
        }
      }
      if length.None? {
        r := Answer(connection, request, NotFound, Unread);
        return r;
      }
      var responded := Respond(
        connection, Reply(ResponseHead(Success, request.keepAlive, length.value, Absent), []));
      if responded.Err? {
        return Err(responded.error);
      }
      return Ok(Sent(request, Success));
    }

    /** The artifact, or the part of it asked for: as many octets as the head announces, the right ones. */
    method Stream(connection: Connections.Connection, request: Request, url: NarUrls.NarUrl)
        returns (r: Result<Outcome, Error>)
      requires WithinLimits(ingest.store.disk)
      modifies connection`sent, connection`faults, ingest.store`faults, ingest.index`faults
      ensures old(connection.sent) <= connection.sent && Counted(old(Faults(connection)), Faults(connection), r.Err?)
      ensures r.Ok? ==> StreamPossible(request, r.value)
      ensures r.Ok? ==>
        match Artifact(ingest.store.disk, url)
        case None =>
          && r.value == Answered(request, NotFound, Unread)
          && connection.sent == old(connection.sent) + Wired(BareReply(r.value))
        case Some(content) =>
          && |content| < U64_LIMIT
          && var reply := ArtifactReply(request, content);
             && r.value == Outcome(reply.head.status, reply.head.keepAlive, Unread)
             && connection.sent == old(connection.sent) + Wired(reply)
    {
      var found := ingest.store.Read(url);
      if found.Err? {
        return Err(Store(found.error));
      }
      if found.value.None? {
        r := Answer(connection, request, NotFound, Unread);
        return r;
      }
      var reader := found.value.value;
      if reader.size == 0 {
        r := Answer(connection, request, ServerError, Unread);
        return r;
      }
      var span: Ranges.Span;
      match Ranges.Resolve(request.range, reader.size) {
        case Whole => span := Ranges.Span(0, reader.size - 1);
        case Partial(part) => span := part;
        case Unsatisfiable =>
          var reply := Reply(
            ResponseHead(RangeNotSatisfiable, request.keepAlive, 0, Unsatisfied(reader.size)), []);
          var responded := Respond(connection, reply);
          if responded.Err? {
            return Err(responded.error);
          }
          return Ok(Sent(request, RangeNotSatisfiable));
      }
      r := SendSpan(connection, request, reader, span);
    }

    method SendSpan(
        connection: Connections.Connection, request: Request, reader: Stores.Reader, span: Ranges.Span)
        returns (r: Result<Outcome, Error>)
      requires span.first <= span.last < reader.size == |reader.content|
      modifies connection`sent, connection`faults, ingest.store`faults
      ensures old(connection.sent) <= connection.sent && Counted(old(Faults(connection)), Faults(connection), r.Err?)
      ensures r.Ok? ==>
        var owed := Streams.OwedFor(reader.content, span);
        var status := if owed.partial then PartialContent else Success;
        && r.value == Sent(request, status)
        && connection.sent == old(connection.sent)
             + Wired(Reply(
                       ResponseHead(status, request.keepAlive, owed.length,
                                    if owed.partial then Part(span, reader.size) else Absent),
                       owed.body))
    {
      hide Streams.Slice;
      var partial := Ranges.Len(span) != reader.size;
      var status := if partial then PartialContent else Success;
      var head := ResponseHead(
        status, request.keepAlive, Ranges.Len(span), if partial then Part(span, reader.size) else Absent);
      var written := connection.Write(wire(head));
      if written.Err? {
        return Err(Connection(written.error));
      }
      var pumped := Streams.Pump(connection, ingest.store, reader, span);
      if pumped.Err? {
        match pumped.error {
          case Connection(error) => return Err(Connection(error));
          case Store(error) => return Err(Store(error));
        }
      }
      assert old(connection.sent) + wire(head) + Streams.Slice(reader.content, span)
          == old(connection.sent) + (wire(head) + Streams.Slice(reader.content, span));
      return Ok(Sent(request, status));
    }

    // ----- Pushing -----

    /** Feeds an upload exactly the next `length` octets of the connection, chunk by chunk. */
    method Feed(
        connection: Connections.Connection, upload: Uploads.Upload, length: u64, ghost s: Protocols.State, ghost id: nat)
        returns (r: Result<(), Error>, ghost t: Protocols.State)
      requires upload.Valid() && upload.state == UploadStates.FRESH && upload.received == []
      requires upload.staged.store == ingest.store && upload.crypto == ingest.crypto
      requires Stepwise.Serves(s, ingest.store, ingest.index) && Stepwise.Carries(s, id, upload)
      modifies connection`buffer, connection`stream, connection`faults
      modifies upload`state, upload`received, upload.staged`offset, ingest.store`disk, ingest.store`faults
      ensures Counted(old(Faults(connection)), Faults(connection), r.Err? && length <= |old(connection.Pending())|)
      ensures WithinLimits(ingest.store.disk)
      ensures ingest.store.disk.artifacts == old(ingest.store.disk).artifacts
      ensures r.Ok? ==>
        && length <= |old(connection.Pending())|
        && upload.Valid() && upload.state.Receiving? && upload.state.narSize == length
        && Concat(upload.received) == old(connection.Pending())[..length]
        && connection.Pending() == old(connection.Pending())[length..]
      ensures Stepwise.Serves(t, ingest.store, ingest.index) && Stepwise.OthersStay(s, t, id)
      ensures if r.Ok? then Stepwise.Carries(t, id, upload) else id !in t.mode.uploads
      ensures Cryptos.LawfulEncoder(ingest.crypto) && Stepwise.Reaches(ingest.crypto, ingest.dir, s, t)
    {
      hide Cryptos.LawfulEncoder, Stepwise.Serves, Stepwise.Carries, Stepwise.OthersStay, Stepwise.Reaches,
           Uploads.Upload.Valid, WithinLimits, Connections.Connection.Pending, Faults;
      Stepwise.ValidParts(upload);
      ghost var pending := connection.Pending();
      Stepwise.StaysItself(ingest.crypto, ingest.dir, s, id, ingest.store, ingest.index);
      t := s;
      var remaining: nat := length;
      while remaining > 0
        invariant remaining <= length && length - remaining <= |pending|
        invariant connection.Pending() == pending[length - remaining..]
        invariant upload.Valid() && upload.state.Receiving? && upload.state.narSize == length - remaining
        invariant Concat(upload.received) == pending[..length - remaining]
        invariant WithinLimits(ingest.store.disk) && old(Faults(connection)) <= Faults(connection)
        invariant ingest.store.disk.artifacts == old(ingest.store.disk).artifacts
        invariant Stepwise.Serves(t, ingest.store, ingest.index) && Stepwise.OthersStay(s, t, id)
        invariant Stepwise.Carries(t, id, upload) && Stepwise.Reaches(ingest.crypto, ingest.dir, s, t)
      {
        ghost var m := t;
        var fed;
        fed, t := FeedChunk(connection, upload, remaining, m, id);
        Stepwise.StaysThrough(ingest.crypto, ingest.dir, s, m, t, id);
        if fed.Err? {
          return Err(fed.error), t;
        }
        NextOctets(pending, length - remaining, pending[length - remaining..][..remaining - fed.value]);
        remaining := fed.value;
      }
      return Ok(()), t;
    }

    /** One chunk, never an empty one while something is owed; what is owed after it comes back. */
    method FeedChunk(
        connection: Connections.Connection, upload: Uploads.Upload, remaining: nat,
        ghost s: Protocols.State, ghost id: nat) returns (r: Result<nat, Error>, ghost t: Protocols.State)
      requires upload.Valid() && upload.state.Receiving? && 0 < remaining
      requires upload.state.narSize + remaining < U64_LIMIT
      requires upload.staged.store == ingest.store && upload.crypto == ingest.crypto
      requires Cryptos.LawfulEncoder(ingest.crypto) && WithinLimits(ingest.store.disk)
      requires Stepwise.Serves(s, ingest.store, ingest.index) && Stepwise.Carries(s, id, upload)
      modifies connection`buffer, connection`stream, connection`faults
      modifies upload`state, upload`received, upload.staged`offset, ingest.store`disk, ingest.store`faults
      ensures Counted(old(Faults(connection)), Faults(connection), r.Err? && old(connection.Pending()) != [])
      ensures WithinLimits(ingest.store.disk)
      ensures ingest.store.disk.artifacts == old(ingest.store.disk).artifacts
      ensures r.Ok? ==>
        && r.value < remaining && remaining - r.value <= |old(connection.Pending())|
        && upload.Valid() && upload.state.Receiving?
        && upload.state.narSize == old(upload.state.narSize) + remaining - r.value
        && Concat(upload.received)
           == Concat(old(upload.received)) + old(connection.Pending())[..remaining - r.value]
        && connection.Pending() == old(connection.Pending())[remaining - r.value..]
      ensures Stepwise.Serves(t, ingest.store, ingest.index) && Stepwise.OthersStay(s, t, id)
      ensures if r.Ok? then Stepwise.Carries(t, id, upload) else id !in t.mode.uploads
      ensures Stepwise.Reaches(ingest.crypto, ingest.dir, s, t)
    {
      hide Cryptos.LawfulEncoder, Stepwise.Serves, Stepwise.Carries, Stepwise.OthersStay, Stepwise.Reaches,
           Uploads.Upload.Valid, WithinLimits;
      var chunk, left := connection.Chunk(remaining);
      if chunk.Err? {
        t := Stepwise.DropUpload(upload, ingest.index, ingest.dir, s, id);
        return Err(Connection(chunk.error)), t;
      }
      ConcatSnoc(upload.received, chunk.value);
      var written;
      written, t := Stepwise.WriteChunk(upload, ingest.index, chunk.value, ingest.dir, s, id);
      if written.Err? {
        return Err(Upload(written.error)), t;
      }
      return Ok(left), t;
    }

    /**
     A `PUT` of a NAR. A `Created` answer means the declared number of octets was read, hashed
     to what the target declares, and is recorded; any other leaves no row and no artifact behind.
     */
    method Receive(
        connection: Connections.Connection, request: Request, url: NarUrls.NarUrl, ghost s: Protocols.State)
        returns (r: Result<Outcome, Error>, ghost t: Protocols.State)
      requires Valid() && Shows(s)
      modifies connection, ingest.store, ingest.index
      ensures Valid()
      ensures r.Ok? ==>
        && ReceivePossible(admits(request.authorization), request, url.compression != Compressions.None_, r.value)
        && (r.value.status.Created? ==> r.value.drained.Consumed?)
        && Taken(request, r.value) <= |old(connection.Pending())|
        && connection.Pending() == old(connection.Pending())[Taken(request, r.value)..]
      ensures old(connection.sent) <= connection.sent
      ensures r.Ok? ==>
        Settled(UploadVerdict(request, url, Front(old(connection.Pending()), BodyLen(request))), request,
                old(Faults(connection)) < Faults(connection), r.value, connection.sent[|old(connection.sent)|..])
      ensures Counted(old(Faults(connection)), Faults(connection),
                      r.Err? && BodyLen(request) <= |old(connection.Pending())|)
      ensures r.Ok? && r.value.drained.Consumed? ==>
        var body := old(connection.Pending())[..BodyLen(request)];
        && (r.value.status.Created? <==> ingest.crypto.sha(body) == url.fileHash && body != [])
        && (r.value.status.Created? ==>
              Recorded(ingest.crypto, ingest.store.disk, old(ingest.index.tables), ingest.index.tables,
                       url.fileHash, body))
      ensures r.Ok? && !r.value.status.Created? ==> ingest.index.tables == old(ingest.index.tables)
      ensures r.Err? ==>
        || ingest.index.tables == old(ingest.index.tables)
        || (request.framing.Length? && request.framing.length <= |old(connection.Pending())|
            && Recorded(ingest.crypto, ingest.store.disk, old(ingest.index.tables), ingest.index.tables,
                        url.fileHash, old(connection.Pending())[..request.framing.length]))
      ensures r.Ok? && !r.value.status.Created? ==> ingest.store.disk.artifacts == old(ingest.store.disk).artifacts
      ensures Shows(t) && Stepwise.Reaches(ingest.crypto, ingest.dir, s, t)
    {
      hide Recorded, UploadStates.Tracks, Uploads.Upload.Valid, Settled, BodyVerdict, Stepwise.Serves, Stepwise.Carries,
           Stepwise.OthersStay, Stepwise.Reaches, Cryptos.LawfulEncoder, WithinLimits;
      ghost var sent := connection.sent;
      ghost var verdict := UploadVerdict(request, url, Front(connection.Pending(), BodyLen(request)));
      Stepwise.ReachesItself(ingest.crypto, ingest.dir, s);
      t := s;
      if !admits(request.authorization) || !request.framing.Length? {
        r := Answer(
          connection, request,
          if !admits(request.authorization) then Unauthorized else LengthRequired, Unread);
        if r.Ok? {
          SettledAtOnce(
            verdict, request, old(Faults(connection)) < Faults(connection), r.value, sent, connection.sent);
        }
        return r, t;
      }
      ghost var id := s.mode.sequence;
      var started;
      started, t := Stepwise.StartUpload(ingest, url, s);
      if started.Err? {
        r := Refuse(connection, request, started.error, Unread);
        if r.Ok? {
          SettledAtOnce(
            verdict, request, old(Faults(connection)) < Faults(connection), r.value, sent, connection.sent);
        }
        return r, t;
      }
      ghost var m := t;
      r, t := Accept(connection, request, url, started.value, m, id);
      if r.Ok? {
        assert Front(old(connection.Pending()), BodyLen(request)) == old(connection.Pending())[..BodyLen(request)];
        SettledAfter(verdict, request, false, r.value, sent, connection.sent);
        hide Faults;
        SettledMore(verdict, request, false, old(Faults(connection)) < Faults(connection), r.value,
                      connection.sent[|sent|..]);
      }
      Stepwise.ReachesThrough(ingest.crypto, ingest.dir, s, m, t);
      Stepwise.BackToIdle(s, m, t, id);
    }

    /** The body of an upload that was let in, from the interim head to the final answer. */
    method Accept(
        connection: Connections.Connection, request: Request, url: NarUrls.NarUrl, upload: Uploads.Upload,
        ghost s: Protocols.State, ghost id: nat)
        returns (r: Result<Outcome, Error>, ghost t: Protocols.State)
      requires Valid() && upload.Valid() && request.framing.Length?
      requires upload.state == UploadStates.FRESH && upload.received == []
      requires upload.crypto == ingest.crypto && upload.expected == url.fileHash
      requires upload.staged.store == ingest.store
      requires Stepwise.Serves(s, ingest.store, ingest.index) && Stepwise.Carries(s, id, upload)
      modifies connection, ingest.store`disk, ingest.store`faults, ingest.index
      modifies upload`state, upload`received, upload.staged`offset, upload.staged`committed
      ensures Valid()
      ensures r.Ok? ==>
        && r.value.status in {Created, BadRequest} && r.value == Answered(request, r.value.status, Consumed)
        && BodyLen(request) <= |old(connection.Pending())|
        && connection.Pending() == old(connection.Pending())[BodyLen(request)..]
      ensures old(connection.sent) <= connection.sent
      ensures Counted(old(Faults(connection)), Faults(connection),
                      r.Err? && BodyLen(request) <= |old(connection.Pending())|)
      ensures r.Ok? ==>
        var body := old(connection.Pending())[..BodyLen(request)];
        var verdict := BodyVerdict(request, url, body);
        && r.value == verdict.outcome
        && connection.sent == old(connection.sent) + Interim(request, r.value)
             + Wired(RefusalReply(r.value, verdict.message))
        && (r.value.status.Created? <==> ingest.crypto.sha(body) == url.fileHash && body != [])
        && (r.value.status.Created? ==>
              Recorded(ingest.crypto, ingest.store.disk, old(ingest.index.tables), ingest.index.tables,
                       url.fileHash, body))
      ensures r.Ok? && !r.value.status.Created? ==>
        && ingest.index.tables == old(ingest.index.tables)
        && ingest.store.disk.artifacts == old(ingest.store.disk).artifacts
      ensures r.Err? ==>
        || ingest.index.tables == old(ingest.index.tables)
        || (BodyLen(request) <= |old(connection.Pending())|
            && Recorded(ingest.crypto, ingest.store.disk, old(ingest.index.tables), ingest.index.tables,
                        url.fileHash, old(connection.Pending())[..BodyLen(request)]))
      ensures Stepwise.Serves(t, ingest.store, ingest.index) && Stepwise.OthersStay(s, t, id) && id !in t.mode.uploads
      ensures Stepwise.Reaches(ingest.crypto, ingest.dir, s, t)
    {
      hide Recorded, UploadStates.Tracks, Uploads.Upload.Valid, BodyVerdict, Stepwise.Serves, Stepwise.Carries,
           Stepwise.OthersStay, Stepwise.Reaches, Cryptos.LawfulEncoder, WithinLimits;
      var proceeded := Proceed(connection, request);
      if proceeded.Err? {
        t := Stepwise.DropUpload(upload, ingest.index, ingest.dir, s, id);
        return Err(proceeded.error), t;
      }
      var fed;
      fed, t := Feed(connection, upload, request.framing.length, s, id);
      if fed.Err? {
        return Err(fed.error), t;
      }
      ghost var m := t;
      r, t := Conclude(connection, request, url, upload, old(connection.Pending())[..BodyLen(request)], m, id);
      Stepwise.StaysThrough(ingest.crypto, ingest.dir, s, m, t, id);
    }

    /** Everything after the last chunk: flush, the gate, and the commit. */
    method Conclude(
        connection: Connections.Connection, request: Request, url: NarUrls.NarUrl, upload: Uploads.Upload,
        ghost body: seq<byte>, ghost s: Protocols.State, ghost id: nat)
        returns (r: Result<Outcome, Error>, ghost t: Protocols.State)
      requires Valid() && upload.Valid() && upload.state.Receiving? && Concat(upload.received) == body
      requires upload.crypto == ingest.crypto && upload.expected == url.fileHash
      requires upload.staged.store == ingest.store
      requires Stepwise.Serves(s, ingest.store, ingest.index) && Stepwise.Carries(s, id, upload)
      modifies connection`sent, connection`faults, ingest.store`disk, ingest.store`faults, ingest.index
      modifies upload`state, upload.staged`offset, upload.staged`committed
      ensures Valid()
      ensures old(connection.sent) <= connection.sent && Counted(old(Faults(connection)), Faults(connection), r.Err?)
      ensures r.Ok? ==>
        && r.value.status in {Created, BadRequest}
        && r.value == Answered(request, r.value.status, Consumed)
        && r.value == BodyVerdict(request, url, body).outcome
        && connection.sent == old(connection.sent)
             + Wired(RefusalReply(r.value, BodyVerdict(request, url, body).message))
        && (r.value.status.Created? <==> ingest.crypto.sha(body) == url.fileHash && body != [])
        && (r.value.status.Created? ==>
              Recorded(ingest.crypto, ingest.store.disk, old(ingest.index.tables), ingest.index.tables,
                       url.fileHash, body))
      ensures r.Ok? && !r.value.status.Created? ==> ingest.index.tables == old(ingest.index.tables)
      ensures r.Err? ==>
        || ingest.index.tables == old(ingest.index.tables)
        || Recorded(ingest.crypto, ingest.store.disk, old(ingest.index.tables), ingest.index.tables,
                    url.fileHash, body)
      ensures r.Ok? && !r.value.status.Created? ==> ingest.store.disk.artifacts == old(ingest.store.disk).artifacts
      ensures Stepwise.Serves(t, ingest.store, ingest.index) && Stepwise.OthersStay(s, t, id) && id !in t.mode.uploads
      ensures Stepwise.Reaches(ingest.crypto, ingest.dir, s, t)
    {
      hide Recorded, UploadStates.Tracks, Artifact, Uploads.Upload.Valid, Stepwise.Serves, Stepwise.Carries,
           Stepwise.OthersStay, Stepwise.Reaches, Cryptos.LawfulEncoder, WithinLimits;
      var finished;
      finished, t := Stepwise.FinishUpload(upload, ingest.index, ingest.dir, s, id);
      if finished.Err? {
        return Err(Upload(finished.error)), t;
      }
      ghost var m := t;
      var verified;
      verified, t := Stepwise.VerifyUpload(upload, ingest.index, ingest.dir, m, id);
      Stepwise.StaysThrough(ingest.crypto, ingest.dir, s, m, t, id);
      if verified.Err? {
        r := Refuse(connection, request, Ingests.Upload(verified.error), Consumed);
        return r, t;
      }
      m := t;
      var stored;
      stored, t := Commit(url, upload, body, m, id);
      Stepwise.StaysThrough(ingest.crypto, ingest.dir, s, m, t, id);
      if stored.Err? {
        return Err(Upload(stored.error)), t;
      }
      r := Answer(connection, request, Created, Consumed);
    }

    method Commit(
        url: NarUrls.NarUrl, upload: Uploads.Upload, ghost body: seq<byte>, ghost s: Protocols.State, ghost id: nat)
        returns (r: Result<(), UploadStates.Error>, ghost t: Protocols.State)
      requires Valid() && upload.Valid() && upload.state.Verified? && Concat(upload.received) == body
      requires upload.crypto == ingest.crypto && ingest.crypto.sha(body) == url.fileHash && body != []
      requires upload.staged.store == ingest.store
      requires Stepwise.Serves(s, ingest.store, ingest.index) && Stepwise.Carries(s, id, upload)
      modifies ingest.store`disk, ingest.store`faults, ingest.index, upload.staged`committed
      ensures Valid()
      ensures Counted(old(ingest.store.faults) + old(ingest.index.faults),
                      ingest.store.faults + ingest.index.faults, r.Err?)
      ensures r.Ok? ==>
        Recorded(ingest.crypto, ingest.store.disk, old(ingest.index.tables), ingest.index.tables,
                 url.fileHash, body)
      ensures r.Err? ==> ingest.index.tables == old(ingest.index.tables)
      ensures Stepwise.Serves(t, ingest.store, ingest.index) && Stepwise.OthersStay(s, t, id) && id !in t.mode.uploads
      ensures Stepwise.Reaches(ingest.crypto, ingest.dir, s, t)
    {
      hide Uploads.Upload.Valid, Stepwise.Serves, Stepwise.Carries, Stepwise.OthersStay, Stepwise.Reaches,
           Cryptos.LawfulEncoder, WithinLimits;
      var stored;
      stored, t := Stepwise.StoreUpload(upload, ingest.index, ingest.dir, s, id);
      if stored.Err? {
        return Err(stored.error), t;
      }
      return Ok(()), t;
    }

    /**
     A `PUT` of a narinfo. A body that parses, and whose NAR the tables have, is recorded and answered
     `Created` unless the index fails; one that does not is refused with the reason.
     */
    method PublishNarinfo(connection: Connections.Connection, request: Request, ghost s: Protocols.State)
        returns (r: Result<Outcome, Error>, ghost t: Protocols.State)
      requires Valid() && Shows(s)
      modifies connection, ingest.index
      ensures r.Ok? ==>
        && PublishPossible(admits(request.authorization), request, r.value)
        && (r.value.status.Created? ==> r.value.drained.Consumed?)
        && Taken(request, r.value) <= |old(connection.Pending())|
        && connection.Pending() == old(connection.Pending())[Taken(request, r.value)..]
      ensures old(connection.sent) <= connection.sent
      ensures r.Ok? ==>
        Settled(RecordVerdict(request, old(ingest.index.tables), Front(old(connection.Pending()), BodyLen(request))),
                request, old(ingest.index.faults) < ingest.index.faults, r.value,
                connection.sent[|old(connection.sent)|..])
      ensures old(ingest.index.faults) <= ingest.index.faults && old(connection.faults) <= connection.faults
      ensures Counted(old(Faults(connection)), Faults(connection),
                      r.Err? && BodyLen(request) <= |old(connection.Pending())|)
      ensures r.Ok? && r.value.status.Created? ==>
        var text := AsText(old(connection.Pending())[..BodyLen(request)]);
        var prepared := Ingests.Prepared(
          ingest.crypto, ingest.dir, ingest.key, old(ingest.index.tables), text);
        && prepared.Ok?
        && ingest.index.tables == IndexTables.Publish(old(ingest.index.tables), prepared.value)
      ensures r.Ok? && !r.value.status.Created? ==> ingest.index.tables == old(ingest.index.tables)
      ensures r.Err? ==>
        || ingest.index.tables == old(ingest.index.tables)
        || (BodyLen(request) <= |old(connection.Pending())|
            && var text := AsText(old(connection.Pending())[..BodyLen(request)]);
               var prepared := Ingests.Prepared(
                 ingest.crypto, ingest.dir, ingest.key, old(ingest.index.tables), text);
               prepared.Ok? && ingest.index.tables == IndexTables.Publish(old(ingest.index.tables), prepared.value))
      ensures Shows(t) && Stepwise.Reaches(ingest.crypto, ingest.dir, s, t)
    {
      hide Ingests.Prepared, Utf8, Settled, IndexTables.Publish, Stepwise.Serves, Stepwise.Reaches,
           Cryptos.LawfulEncoder, WithinLimits;
      ghost var sent := connection.sent;
      ghost var verdict := RecordVerdict(request, ingest.index.tables, Front(connection.Pending(), BodyLen(request)));
      Stepwise.ReachesItself(ingest.crypto, ingest.dir, s);
      t := s;
      if !admits(request.authorization) || !request.framing.Length? || BodyLen(request) > METADATA_BODY_MAX {
        r := Answer(
          connection, request,
          if !admits(request.authorization) then Unauthorized
          else if !request.framing.Length? then LengthRequired
          else ContentTooLarge, Unread);
        if r.Ok? {
          SettledAtOnce(verdict, request, false, r.value, sent, connection.sent);
          SettledMore(verdict, request, false, old(ingest.index.faults) < ingest.index.faults, r.value,
                        connection.sent[|sent|..]);
        }
        return r, t;
      }
      var proceeded := Proceed(connection, request);
      if proceeded.Err? {
        return Err(proceeded.error), t;
      }
      var body := connection.Body(request.framing.length);
      if body.Err? {
        return Err(Connection(body.error)), t;
      }
      assert body.value == Front(old(connection.Pending()), BodyLen(request));
      r, t := RecordBody(connection, request, body.value, s);
      if r.Ok? {
        SettledAfter(verdict, request, old(ingest.index.faults) < ingest.index.faults, r.value, sent, connection.sent);
      }
    }

    /** A body that was read, and what the index makes of it. */
    method RecordBody(
        connection: Connections.Connection, request: Request, body: seq<byte>, ghost s: Protocols.State)
        returns (r: Result<Outcome, Error>, ghost t: Protocols.State)
      requires Valid() && Shows(s)
      modifies connection`sent, connection`faults, ingest.index
      ensures old(connection.sent) <= connection.sent
      ensures old(ingest.index.faults) <= ingest.index.faults && old(connection.faults) <= connection.faults
      ensures Counted(old(Faults(connection)), Faults(connection), r.Err?)
      ensures r.Ok? ==>
        var prepared := Ingests.Prepared(ingest.crypto, ingest.dir, ingest.key, old(ingest.index.tables), AsText(body));
        && r.value == Answered(request, r.value.status, Consumed)
        && if !Utf8(body) then
             && r.value.status.BadRequest?
             && connection.sent == old(connection.sent) + Wired(BareReply(r.value))
           else if r.value.status.ServerError? then
             && old(ingest.index.faults) < ingest.index.faults
             && connection.sent == old(connection.sent) + Wired(BareReply(r.value))
           else if prepared.Ok? then
             && r.value.status.Created?
             && connection.sent == old(connection.sent) + Wired(BareReply(r.value))
             && ingest.index.tables == IndexTables.Publish(old(ingest.index.tables), prepared.value)
           else
             && r.value.status.BadRequest?
             && connection.sent == old(connection.sent) + Wired(RefusalReply(r.value, explain(prepared.error)))
      ensures r.Ok? && !r.value.status.Created? ==> ingest.index.tables == old(ingest.index.tables)
      ensures r.Err? ==>
        || ingest.index.tables == old(ingest.index.tables)
        || (var prepared := Ingests.Prepared(
              ingest.crypto, ingest.dir, ingest.key, old(ingest.index.tables), AsText(body));
            prepared.Ok? && ingest.index.tables == IndexTables.Publish(old(ingest.index.tables), prepared.value))
      ensures Shows(t) && Stepwise.Reaches(ingest.crypto, ingest.dir, s, t)
    {
      hide Ingests.Prepared, Utf8, IndexTables.Publish, Stepwise.Serves, Stepwise.Reaches, Cryptos.LawfulEncoder,
           WithinLimits;
      if !Utf8(body) {
        Stepwise.ReachesItself(ingest.crypto, ingest.dir, s);
        t := s;
        r := Answer(connection, request, BadRequest, Consumed);
        return r, t;
      }
      var published;
      published, t := Stepwise.PublishRecord(ingest, AsText(body), s, 0);
      if published.Err? {
        Ingests.PreparedFaults(ingest.crypto, ingest.dir, ingest.key, old(ingest.index.tables), AsText(body));
        r := Refuse(connection, request, published.error, Consumed);
      } else {
        r := Answer(connection, request, Created, Consumed);
      }
    }

    // ----- Dispatch -----

    /** A request that is no push changed nothing, and got the reply the tables and the disk decide. */
    ghost predicate Looked(
        request: Request, before: IndexTables.Tables, disk: Disk, after: IndexTables.Tables, left: Disk,
        r: Result<Outcome, Error>, reply: seq<byte>)
    {
      && WithinLimits(disk) && Determined(request, before, disk).Some?
      && after == before && left == disk
      && (r.Ok? ==>
            r.value == Determined(request, before, disk).value && reply == Wired(ReadReply(request, before, disk)))
    }

    /**
     A push got the reply its verdict says, or a bare server error if something failed. It had its effect
     exactly when it was answered `Created`; when it got no answer, whole or not at all.
     */
    ghost predicate Dealt(
        request: Request, pending: seq<byte>, before: IndexTables.Tables, disk: Disk,
        after: IndexTables.Tables, left: Disk, faulted: bool, r: Result<Outcome, Error>, reply: seq<byte>)
    {
      var body := Front(pending, BodyLen(request));
      var happened := BodyLen(request) <= |pending| && Pushed(request, body, before, after, left);
      && IsPush(request)
      && (after == before || happened)
      && (r.Ok? ==>
            && Settled(PushVerdict(request, before, body), request, faulted, r.value, reply)
            && if r.value.status.Created? then happened
               else after == before && left.artifacts == disk.artifacts)
    }

    method Narinfo(connection: Connections.Connection, request: Request, key: StorePaths.Hash, ghost s: Protocols.State)
        returns (r: Result<Outcome, Error>, ghost t: Protocols.State)
      requires Valid() && Shows(s)
      requires !request.framing.Chunked? && Routes.Resolve(request.target) == Ok(Routes.Narinfo(key))
      modifies connection, ingest.index
      ensures Valid() && old(connection.sent) <= connection.sent
      ensures Counted(old(Faults(connection)), Faults(connection),
                      r.Err? && BodyLen(request) <= |old(connection.Pending())|)
      ensures
        || Looked(request, old(ingest.index.tables), old(ingest.store.disk), ingest.index.tables, ingest.store.disk,
                  r, connection.sent[|old(connection.sent)|..])
        || Dealt(request, old(connection.Pending()), old(ingest.index.tables), old(ingest.store.disk),
                 ingest.index.tables, ingest.store.disk, old(Faults(connection)) < Faults(connection),
                 r, connection.sent[|old(connection.sent)|..])
      ensures r.Ok? ==>
        && Possible(admits(request.authorization), request, r.value)
        && Taken(request, r.value) <= |old(connection.Pending())|
        && connection.Pending() == old(connection.Pending())[Taken(request, r.value)..]
      ensures Shows(t) && Stepwise.Reaches(ingest.crypto, ingest.dir, s, t)
    {
      hide Routes.Resolve, Ingests.Prepared, NarInfos.Rendered, NarInfoParsing.Parsed, Servings.Servable,
           Stepwise.Serves, Stepwise.Reaches, Cryptos.LawfulEncoder, WithinLimits, Settled, RecordVerdict,
           IndexTables.Publish, Octets, FullReply, PublishPossible;
      if request.verb.Put? {
        ghost var sent, faults, tables := connection.sent, ingest.index.faults, ingest.index.tables;
        ghost var pending := connection.Pending();
        r, t := PublishNarinfo(connection, request, s);
        if r.Ok? {
          SettledMore(RecordVerdict(request, tables, Front(pending, BodyLen(request))), request,
                      faults < ingest.index.faults, old(Faults(connection)) < Faults(connection), r.value,
                      connection.sent[|sent|..]);
        }
      } else {
        Stepwise.ReachesItself(ingest.crypto, ingest.dir, s);
        t := s;
        r := ReadNarinfo(connection, request, key);
      }
    }

    method Nar(connection: Connections.Connection, request: Request, url: NarUrls.NarUrl, ghost s: Protocols.State)
        returns (r: Result<Outcome, Error>, ghost t: Protocols.State)
      requires Valid() && Shows(s)
      requires !request.framing.Chunked? && Routes.Resolve(request.target) == Ok(Routes.Nar(url))
      modifies connection, ingest.store, ingest.index
      ensures Valid() && old(connection.sent) <= connection.sent
      ensures Counted(old(Faults(connection)), Faults(connection),
                      r.Err? && BodyLen(request) <= |old(connection.Pending())|)
      ensures
        || Looked(request, old(ingest.index.tables), old(ingest.store.disk), ingest.index.tables, ingest.store.disk,
                  r, connection.sent[|old(connection.sent)|..])
        || Dealt(request, old(connection.Pending()), old(ingest.index.tables), old(ingest.store.disk),
                 ingest.index.tables, ingest.store.disk, old(Faults(connection)) < Faults(connection),
                 r, connection.sent[|old(connection.sent)|..])
      ensures r.Ok? ==>
        && Possible(admits(request.authorization), request, r.value)
        && Taken(request, r.value) <= |old(connection.Pending())|
        && connection.Pending() == old(connection.Pending())[Taken(request, r.value)..]
      ensures Shows(t) && Stepwise.Reaches(ingest.crypto, ingest.dir, s, t)
    {
      hide Routes.Resolve, Recorded, ArtifactReply, Artifact, Stepwise.Serves, Stepwise.Reaches,
           Cryptos.LawfulEncoder, WithinLimits, Settled, UploadVerdict, ReceivePossible, ProbedLength;
      if request.verb.Put? {
        r, t := Receive(connection, request, url, s);
      } else {
        Stepwise.ReachesItself(ingest.crypto, ingest.dir, s);
        t := s;
        if request.verb == Method.Head {
          r := Probe(connection, request, url);
        } else {
          r := Stream(connection, request, url);
        }
      }
    }

    /**
     Answers one request; the outcome decides whether the connection survives, and where it stands. What
     it did to the store and the index is a sequence of protocol steps.
     */
    method Handle(connection: Connections.Connection, request: Request, ghost s: Protocols.State)
        returns (r: Result<Outcome, Error>, ghost t: Protocols.State)
      requires Valid() && Shows(s)
      modifies connection, ingest.store, ingest.index
      ensures Valid() && old(connection.sent) <= connection.sent
      ensures Counted(old(Faults(connection)), Faults(connection),
                      r.Err? && BodyLen(request) <= |old(connection.Pending())|)
      ensures
        || Looked(request, old(ingest.index.tables), old(ingest.store.disk), ingest.index.tables, ingest.store.disk,
                  r, connection.sent[|old(connection.sent)|..])
        || Dealt(request, old(connection.Pending()), old(ingest.index.tables), old(ingest.store.disk),
                 ingest.index.tables, ingest.store.disk, old(Faults(connection)) < Faults(connection),
                 r, connection.sent[|old(connection.sent)|..])
      ensures r.Ok? ==>
        && Possible(admits(request.authorization), request, r.value)
        && Taken(request, r.value) <= |old(connection.Pending())|
        && connection.Pending() == old(connection.Pending())[Taken(request, r.value)..]
      ensures Shows(t) && Stepwise.Reaches(ingest.crypto, ingest.dir, s, t)
    {
      hide Routes.Resolve, PublishPossible, ReceivePossible, Pushed, ArtifactReply, Artifact, Stepwise.Serves,
           Stepwise.Reaches, Cryptos.LawfulEncoder, WithinLimits, Settled, PushVerdict, Dealt, FullReply,
           ProbedLength;
      if request.framing.Chunked? {
        Stepwise.ReachesItself(ingest.crypto, ingest.dir, s);
        t := s;
        r := Answer(connection, request, NotImplemented, Unread);
        return r, t;
      }
      match Routes.Resolve(request.target) {
        case Ok(Narinfo(key)) => r, t := Narinfo(connection, request, key, s);
        case Ok(Nar(url)) => r, t := Nar(connection, request, url, s);
        case Ok(CacheInfo) =>
          Stepwise.ReachesItself(ingest.crypto, ingest.dir, s);
          t := s;
          r := Send(connection, request, info);
        case Ok(Metrics) =>
          Stepwise.ReachesItself(ingest.crypto, ingest.dir, s);
          t := s;
          r := Metrics(connection, request);
        case Err(error) =>
          Stepwise.ReachesItself(ingest.crypto, ingest.dir, s);
          t := s;
          r := Answer(connection, request, if error.Unknown? then NotFound else BadRequest, Unread);
      }
    }
  }

  function ProbedLength(tables: IndexTables.Tables, disk: Disk, url: NarUrls.NarUrl): Option<nat> {
    if url.compression == Compressions.None_ then
      if url.fileHash in tables.nar then Some(tables.nar[url.fileHash].narSize) else None
    else
      match Artifact(disk, url)
      case None => None
      case Some(content) => Some(|content|)
  }

  lemma NextOctets(pending: seq<byte>, done: nat, chunk: seq<byte>)
    requires done + |chunk| <= |pending| && chunk == pending[done..][..|chunk|]
    ensures pending[..done] + chunk == pending[..done + |chunk|]
    ensures pending[done..][|chunk|..] == pending[done + |chunk|..]
  {
  }
}
