/** Ranged streaming: which bytes a request is owed, and the loop that sends exactly those. */
module Streams {
  import opened Prelude
  import opened Text
  import opened Ranges
  import Connections
  import Stores

  const SEND_CHUNK: nat := 256 * 1024

  datatype Error = Connection(connection: Connections.Error) | Store(store: Stores.Error)

  /** The positions of `span` that the content has. */
  function Slice(content: seq<byte>, span: Span): seq<byte>
    requires span.first <= span.last
  {
    if span.first >= |content| then [] else content[span.first..Min(span.last + 1, |content|)]
  }

  /**
   Sends a span in bounded pieces, whatever the sizes the reads come back in. The count returned is the
   number of bytes sent, which is the whole span unless the file ends inside it.
   */
  method Pump(connection: Connections.Connection, ghost store: Stores.Store, reader: Stores.Reader, span: Span)
      returns (r: Result<u64, Error>)
    requires span.first <= span.last < reader.size
    modifies connection`sent, connection`faults, store`faults
    ensures Counted(old(connection.faults) + old(store.faults), connection.faults + store.faults, r.Err?)
    ensures r.Ok? ==>
      && connection.sent == old(connection.sent) + Slice(reader.content, span)
      && r.value == |Slice(reader.content, span)|
    ensures r.Err? ==>
      Connections.SentPart(old(connection.sent), connection.sent, Slice(reader.content, span))
  {
    SliceLen(reader.content, span);
    hide Slice, Connections.SentPart;
    ghost var owed := Slice(reader.content, span);
    var offset: u64 := span.first;
    var capacity: nat :| capacity >= SEND_CHUNK;
    assert connection.sent == old(connection.sent) + owed[..0];
    while offset <= span.last
      invariant span.first <= offset <= span.last + 1
      invariant offset - span.first <= |owed|
      invariant old(connection.faults) <= connection.faults && old(store.faults) <= store.faults
      invariant connection.sent == old(connection.sent) + owed[..offset - span.first]
      decreases span.last + 1 - offset
    {
      var wanted: u64 := Min(span.last - offset + 1, SEND_CHUNK);
      var read := Stores.ReadAt(store, reader, capacity, offset);
      if read.Err? {
        SentFront(old(connection.sent), owed, offset - span.first);
        return Err(Store(read.error));
      }
      if read.value == [] {
        assert offset - span.first == |owed|;
        assert owed[..|owed|] == owed;
        return Ok(offset - span.first);
      }
      var filled := read.value[..Min(|read.value|, wanted)];
      NextPiece(reader.content, span, offset, filled);
      ghost var before := connection.sent;
      var written := connection.Write(filled);
      if written.Err? {
        PartOfPiece(old(connection.sent), before, connection.sent, owed, offset - span.first, filled);
        return Err(Connection(written.error));
      }
      offset := offset + |filled|;
    }
    assert owed[..|owed|] == owed;
    return Ok(span.last - span.first + 1);
  }

  lemma NextPiece(content: seq<byte>, span: Span, offset: nat, filled: seq<byte>)
    requires span.first <= offset <= span.last && offset < |content|
    requires filled <= content[offset..] && |filled| <= span.last - offset + 1
    ensures var owed := Slice(content, span);
            var done := offset - span.first;
            && done + |filled| <= |owed| && owed[done..done + |filled|] == filled
            && owed[..done] + filled == owed[..done + |filled|]
  {
    var end := Min(span.last + 1, |content|);
    SliceOfSlice(content, span.first, end, offset - span.first, offset - span.first + |filled|);
    SliceOfSlice(content, offset, |content|, 0, |filled|);
    assert content[offset..|content|] == content[offset..] && filled == content[offset..][..|filled|];
  }

  lemma SliceOfSlice(s: seq<byte>, a: nat, b: nat, i: nat, j: nat)
    requires a <= b <= |s| && i <= j <= b - a
    ensures s[a..b][i..j] == s[a + i..a + j]
  {
    var front, whole := s[a..b], s[a + i..a + j];
    forall k | 0 <= k < j - i
      ensures front[i..j][k] == whole[k]
    {
      assert front[i..j][k] == front[i + k] == s[a + i + k];
    }
  }

  lemma SliceLen(content: seq<byte>, span: Span)
    requires span.first <= span.last
    ensures |Slice(content, span)|
         == if span.first >= |content| then 0 else Min(span.last + 1, |content|) - span.first
  {
  }

  lemma SentFront(start: seq<byte>, owed: seq<byte>, done: nat)
    requires done <= |owed|
    ensures Connections.SentPart(start, start + owed[..done], owed)
  {
  }

  lemma PartOfPiece(
      start: seq<byte>, before: seq<byte>, after: seq<byte>, owed: seq<byte>, done: nat, filled: seq<byte>)
    requires done + |filled| <= |owed| && owed[done..done + |filled|] == filled
    requires before == start + owed[..done]
    requires Connections.SentPart(before, after, filled)
    ensures Connections.SentPart(start, after, owed)
  {
    var k :| 0 <= k <= |filled| && after == before + filled[..k];
    assert owed[..done + k] == owed[..done] + filled[..k];
    assert after == start + owed[..done + k];
  }

  /** When the file reaches the end of the span, the count sent is the length announced. */
  lemma WholeSpanSent(content: seq<byte>, span: Span)
    requires span.first <= span.last < |content|
    ensures |Slice(content, span)| == Len(span)
  {
  }

  // ----- What a request for an artifact is owed -----

  datatype Owed = Owed(partial: bool, range: Option<Span>, length: nat, body: seq<byte>)

  /** The answer to a request for a non-empty artifact. */
  function Answer(content: seq<byte>, header: Option<string>): (r: Owed)
    requires 0 < |content| < U64_LIMIT
    ensures |r.body| == r.length
  {
    match Resolve(header, |content|)
    case Unsatisfiable => Owed(false, None, 0, [])
    case Whole => OwedFor(content, Span(0, |content| - 1))
    case Partial(span) => OwedFor(content, span)
  }

  function OwedFor(content: seq<byte>, span: Span): (r: Owed)
    requires span.first <= span.last < |content|
    ensures |r.body| == r.length
  {
    var partial := Len(span) != |content|;
    Owed(partial, if partial then Some(span) else None, Len(span), Slice(content, span))
  }

  /** The bytes sent are the artifact's bytes at the positions asked for, in order and no others. */
  lemma AnswerDelivers(content: seq<byte>, header: Option<string>)
    requires 0 < |content| < U64_LIMIT
    ensures var answer := Answer(content, header);
            var requested := Resolve(header, |content|);
            && (requested.Unsatisfiable? ==> answer.body == [])
            && (requested.Whole? ==> answer.body == content && !answer.partial)
            && (requested.Partial? ==>
                  && (forall k :: 0 <= k < answer.length ==> answer.body[k] == content[requested.span.first + k])
                  && (forall i: nat :: Delivered(requested, |content|, i)
                                       <==> 0 <= i - requested.span.first < answer.length)
                  && (answer.partial <==> answer.body != content))
  {
    hide Resolve;
  }

  /** A download cut off after any number of bytes is completed by asking for the rest. */
  lemma ResumeRebuilds(content: seq<byte>, received: nat)
    requires 0 < |content| < U64_LIMIT && received < |content|
    ensures content[..received] + Answer(content, Some("bytes=" + Decimal(received) + "-")).body == content
  {
    OpenRangeDelivers(received, |content|);
    hide Resolve, Decimal;
    var rest := Slice(content, Span(received, |content| - 1));
    assert rest == content[received..];
    assert content[..received] + content[received..] == content;
  }
}
