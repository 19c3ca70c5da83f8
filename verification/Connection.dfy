/**
 One keep-alive connection: bytes arrive in fragments of any size, heads and bodies are cut off the
 front, and what is written goes out in order. Socket reads and writes may fail at any point.
 */
module Connections {
  import opened Prelude
  import opened Http

  const READ_CHUNK: nat := 64 * 1024

  datatype Error = Read | Write | Truncated | HeadTooLong

  /** Some front part of `bytes` went out. */
  ghost predicate SentPart(before: seq<byte>, after: seq<byte>, bytes: seq<byte>) {
    exists k :: 0 <= k <= |bytes| && after == before + bytes[..k]
  }

  class Connection {
    /** What has arrived and is still to be taken. */
    var buffer: seq<byte>
    /** What the peer has yet to deliver before it half-closes. */
    var stream: seq<byte>
    /** What was written back. */
    var sent: seq<byte>
    /** How many reads and writes of the socket have failed so far. */
    ghost var faults: nat

    constructor (stream: seq<byte>)
      ensures buffer == [] && this.stream == stream && sent == []
    {
      this.buffer := [];
      this.stream := stream;
      this.sent := [];
      faults := 0;
    }

    /** Everything the peer sent that is still unconsumed, wherever it is. */
    ghost function Pending(): seq<byte>
      reads this
    {
      buffer + stream
    }

    /** A read of any positive size, zero only at the end of the stream. */
    method Fill() returns (r: Result<nat, Error>)
      modifies this`buffer, this`stream, this`faults
      ensures Counted(old(faults), faults, r.Err? && r.error == Error.Read)
      ensures Pending() == old(Pending())
      ensures old(buffer) <= buffer
      ensures r.Ok? ==> |buffer| == |old(buffer)| + r.value
      ensures r.Ok? && r.value > 0 ==> |stream| < |old(stream)|
      ensures r.Ok? && r.value == 0 ==> stream == []
      ensures r.Err? ==> r.error == Error.Read && buffer == old(buffer)
    {
      if * {
        faults := faults + 1;
        return Err(Error.Read);
      }
      if stream == [] {
        return Ok(0);
      }
      var count :| 1 <= count <= |stream|;
      assert stream == stream[..count] + stream[count..];
      buffer, stream := buffer + stream[..count], stream[count..];
      return Ok(count);
    }

    method TakeFront(count: nat) returns (front: seq<byte>)
      requires count <= |buffer|
      modifies this`buffer
      ensures front + Pending() == old(Pending())
      ensures |front| == count && front == old(Pending())[..count]
      ensures buffer == old(buffer)[count..]
    {
      front := buffer[..count];
      assert buffer == front + buffer[count..];
      buffer := buffer[count..];
    }

    /**
     The next request head, whatever the fragmentation: the shortest prefix of what is pending that
     ends in a blank line. `HeadTooLong` is reported only when that prefix is longer than the limit
     or there is none; a head that is all there already is taken however long it is. Nobody waits for
     the end of a stream that is over the limit.
     */
    method Head() returns (r: Result<Option<seq<byte>>, Error>)
      modifies this`buffer, this`stream, this`faults
      ensures Counted(old(faults), faults, r.Err? && r.error == Error.Read)
      ensures match r
              case Ok(Some(head)) =>
                && HeadLen(old(Pending())) == Some(|head|)
                && head == old(Pending())[..|head|]
                && Pending() == old(Pending())[|head|..]
              case Ok(None) => old(Pending()) == [] && Pending() == []
              case Err(error) =>
                && Pending() == old(Pending())
                && (error == Truncated ==>
                      Pending() != [] && |Pending()| <= HEAD_LEN_MAX && HeadLen(Pending()).None?)
                && (error == HeadTooLong ==>
                      |Pending()| > HEAD_LEN_MAX && (HeadLen(Pending()).Some? ==> HeadLen(Pending()).value > HEAD_LEN_MAX))
                && error != Error.Write
      ensures HeadLen(old(buffer)).Some? ==> r.Ok? && r.value.Some?
    {
      hide HeadLen;
      ghost var pending := Pending();
      while true
        invariant Pending() == pending && old(faults) <= faults
        invariant buffer == old(buffer) || HeadLen(old(buffer)).None?
        decreases |stream|
      {
        var len := HeadLen(buffer);
        if len.Some? {
          HeadLenStable(buffer, stream);
          var head := TakeFront(len.value);
          return Ok(Some(head));
        }
        if |buffer| > HEAD_LEN_MAX {
          LongHead(buffer, stream);
          return Err(HeadTooLong);
        }
        ghost var before := buffer;
        var read := Fill();
        if read.Err? {
          return Err(read.error);
        }
        if read.value == 0 {
          assert buffer == before;
          assert stream == [] && buffer == pending;
          assert HeadLen(Pending()).None?;
          if buffer != [] {
            return Err(Truncated);
          }
          return Ok(None);
        }
      }
    }

    /** A whole body of a known length. */
    method Body(len: nat) returns (r: Result<seq<byte>, Error>)
      modifies this`buffer, this`stream, this`faults
      ensures Counted(old(faults), faults, r.Err? && r.error == Error.Read)
      ensures match r
              case Ok(body) =>
                && |body| == len <= |old(Pending())|
                && body == old(Pending())[..len]
                && Pending() == old(Pending())[len..]
              case Err(error) =>
                && Pending() == old(Pending())
                && (error == Truncated ==> |Pending()| < len)
                && (error == Truncated || error == Error.Read)
    {
      ghost var pending := Pending();
      while |buffer| < len
        invariant Pending() == pending && old(faults) <= faults
        decreases |stream|
      {
        var read := Fill();
        if read.Err? {
          return Err(read.error);
        }
        if read.value == 0 {
          return Err(Truncated);
        }
      }
      var body := TakeFront(len);
      return Ok(body);
    }

    /** Some of the `remaining` octets of a body, never none; `left` is what is owed after them. */
    method Chunk(remaining: nat) returns (r: Result<seq<byte>, Error>, left: nat)
      modifies this`buffer, this`stream, this`faults
      ensures Counted(old(faults), faults, r.Err? && r.error == Error.Read)
      ensures match r
              case Ok(chunk) =>
                && left + |chunk| == remaining
                && (remaining > 0 ==> chunk != []) && |chunk| <= READ_CHUNK
                && |chunk| <= |old(Pending())|
                && chunk == old(Pending())[..|chunk|]
                && Pending() == old(Pending())[|chunk|..]
              case Err(error) =>
                && left == remaining && remaining > 0
                && Pending() == old(Pending())
                && (error == Truncated ==> Pending() == [])
                && (error == Truncated || error == Error.Read)
    {
      left := remaining;
      if remaining == 0 {
        return Ok([]), left;
      }
      if buffer == [] {
        var read := Fill();
        if read.Err? {
          return Err(read.error), left;
        }
        if read.value == 0 {
          return Err(Truncated), left;
        }
      }
      var take := Min(Min(|buffer|, remaining), READ_CHUNK);
      var chunk := TakeFront(take);
      left := remaining - take;
      return Ok(chunk), left;
    }

    /** Throws away a body so that the next request starts at a message boundary. */
    method Discard(len: nat) returns (r: Result<(), Error>)
      modifies this`buffer, this`stream, this`faults
      ensures Counted(old(faults), faults, r.Err? && r.error == Error.Read)
      ensures match r
              case Ok(_) => len <= |old(Pending())| && Pending() == old(Pending())[len..]
              case Err(error) =>
                (error == Truncated ==> |old(Pending())| < len) && (error == Truncated || error == Error.Read)
    {
      ghost var pending := Pending();
      var remaining: nat := len;
      while remaining > 0
        invariant remaining <= len && len - remaining <= |pending|
        invariant Pending() == pending[len - remaining..] && old(faults) <= faults
      {
        var chunk, left := Chunk(remaining);
        if chunk.Err? {
          return Err(chunk.error);
        }
        remaining := left;
      }
      return Ok(());
    }

    method Write(bytes: seq<byte>) returns (r: Result<(), Error>)
      modifies this`sent, this`faults
      ensures Counted(old(faults), faults, r.Err?)
      ensures r.Ok? ==> sent == old(sent) + bytes
      ensures old(sent) <= sent
      ensures r.Err? ==> r.error == Error.Write && SentPart(old(sent), sent, bytes)
    {
      if * {
        var k :| 0 <= k <= |bytes|;
        sent := sent + bytes[..k];
        faults := faults + 1;
        return Err(Error.Write);
      }
      sent := sent + bytes;
      return Ok(());
    }
  }

  /** A buffer over the limit that holds no head belongs to a stream whose head, if any, is over it too. */
  lemma LongHead(buffer: seq<byte>, stream: seq<byte>)
    requires HeadLen(buffer).None? && |buffer| > HEAD_LEN_MAX
    ensures HeadLen(buffer + stream).Some? ==> HeadLen(buffer + stream).value > HEAD_LEN_MAX
  {
    if HeadLen(buffer + stream).Some? {
      EndsHeadInFront(buffer, stream, HeadLen(buffer + stream).value);
    }
  }
}
