/** A client session: length-prefixed requests, put together from whatever pieces arrive. */
module SessionModel {
  import opened Bytes
  import opened Lexer

  const SIZE32 := 4
  const REQUEST_LIMIT := 1024 * 1024

  // Frames ---------------------------------------------------------------------------------------

  // The length prefix, in the host's (little-endian) byte order.
  function Length(s: bytes): nat
    requires |s| >= SIZE32
  {
    s[0] as int + 0x100 * s[1] as int + 0x1_0000 * s[2] as int + 0x100_0000 * s[3] as int
  }

  function Prefix(n: nat): (p: bytes)
    requires n < 0x1_0000_0000
    ensures |p| == SIZE32
  {
    [n % 0x100, n / 0x100 % 0x100, n / 0x1_0000 % 0x100, n / 0x100_0000]
  }

  // The payloads of the complete frames of a stream, up to the first one that is too long.
  function Frames(stream: bytes): seq<bytes>
    decreases |stream|
  {
    if |stream| < SIZE32 then []
    else
      var n := Length(stream);
      if n > REQUEST_LIMIT || n > |stream| - SIZE32 then []
      else [stream[SIZE32..SIZE32 + n]] + Frames(stream[SIZE32 + n..])
  }

  // What a client sends for a list of requests.
  function Sent(requests: seq<bytes>): bytes
    requires forall r | r in requests :: |r| <= REQUEST_LIMIT
  {
    if requests == [] then [] else Prefix(|requests[0]|) + requests[0] + Sent(requests[1..])
  }

  lemma PrefixLength(n: nat, rest: bytes)
    requires n < 0x1_0000_0000
    ensures Length(Prefix(n) + rest) == n
  {
    var s := Prefix(n) + rest;
    assert s[0] == n % 0x100 && s[1] == n / 0x100 % 0x100 && s[2] == n / 0x1_0000 % 0x100 && s[3] == n / 0x100_0000;
    assert n / 0x1_0000 == n / 0x100 / 0x100 && n / 0x100_0000 == n / 0x100 / 0x100 / 0x100;
  }

  /** The prefix of a request is four bytes that give its length, the least significant first; no other
      four bytes do. */
  lemma PrefixBytes(n: nat, p: bytes)
    requires n < 4294967296
    ensures |p| == 4 && p[0] as int + 256 * p[1] as int + 65536 * p[2] as int + 16777216 * p[3] as int == n
       <==> p == Prefix(n)
  {
    PrefixLength(n, []);
    assert Prefix(n) + [] == Prefix(n);
    if |p| == 4 && Length(p) == n {
      PrefixOfLength(p);
    }
  }

  lemma PrefixOfLength(p: bytes)
    requires |p| == 4
    ensures Length(p) < 0x1_0000_0000 && Prefix(Length(p)) == p
  {
    var n := Length(p);
    assert n / 0x100 == p[1] as int + 0x100 * p[2] as int + 0x1_0000 * p[3] as int;
    assert n / 0x100 / 0x100 == n / 0x1_0000 && n / 0x100 / 0x100 / 0x100 == n / 0x100_0000;
  }

  /** Requests of at most 1 MB (1024 * 1024 bytes), sent one after the other, are the frames of the stream. */
  lemma FramesOfSent(requests: seq<bytes>)
    requires forall r | r in requests :: |r| <= 1048576
    ensures Frames(Sent(requests)) == requests
  {
    hide Frames, Sent, Length;
    FramesOfMore(requests, []);
    NothingFollows();
    assert Sent(requests) + [] == Sent(requests) && requests + [] == requests;
  }

  lemma {:induction false} FramesOfMore(requests: seq<bytes>, rest: bytes)
    requires forall r | r in requests :: |r| <= REQUEST_LIMIT
    ensures Frames(Sent(requests) + rest) == requests + Frames(rest)
    decreases |requests|
  {
    hide Frames, Prefix;
    if requests == [] {
      assert Sent(requests) + rest == rest;
    } else {
      var r, more := requests[0], Sent(requests[1..]) + rest;
      FrameFirst(r, more);
      FramesOfMore(requests[1..], rest);
      assert Sent(requests) + rest == Prefix(|r|) + r + more;
      assert requests == [r] + requests[1..];
    }
  }

  lemma NothingFollows()
    ensures Frames([]) == []
  {
  }

  // No frame begins this stream: the prefix is incomplete, the length too large or the payload incomplete.
  predicate Frameless(stream: bytes) {
    |stream| < 4 ||
    var n := stream[0] as int + 256 * stream[1] as int + 65536 * stream[2] as int + 16777216 * stream[3] as int;
    n > 1048576 || n > |stream| - 4
  }

  /** The frames of a stream, exactly: what is sent for these requests, none longer than 1 MB, and then
      something that does not begin with a frame; a longer prefix ends them. */
  lemma FramesExactly(stream: bytes, requests: seq<bytes>)
    ensures Frames(stream) == requests
       <==> (forall r | r in requests :: |r| <= 1048576)
            && Sent(requests) <= stream && Frameless(stream[|Sent(requests)|..])
  {
    hide Frames, Sent, Frameless;
    FramesAreSent(stream);
    if (forall r | r in requests :: |r| <= 1048576) && Sent(requests) <= stream {
      var rest := stream[|Sent(requests)|..];
      assert stream == Sent(requests) + rest;
      FramesOfMore(requests, rest);
      if Frameless(rest) {
        NoFrames(rest);
        assert requests + [] == requests;
      }
    }
  }

  lemma NoFrames(stream: bytes)
    requires Frameless(stream)
    ensures Frames(stream) == []
  {
  }

  lemma {:induction false} FramesAreSent(stream: bytes)
    ensures forall r | r in Frames(stream) :: |r| <= 1048576
    ensures Sent(Frames(stream)) <= stream && Frameless(stream[|Sent(Frames(stream))|..])
    decreases |stream|
  {
    hide Prefix, Sent, Frames, Length, Frameless;
    if Frameless(stream) {
      NoFrames(stream);
      assert Sent([]) == [] by {
        NothingSent();
      }
    } else {
      var n, rest := FirstFrame(stream);
      FramesAreSent(rest);
      SentBehind(stream, n, rest, Frames(rest));
    }
  }

  lemma NothingSent()
    ensures Sent([]) == []
  {
  }

  lemma FirstFrame(stream: bytes) returns (n: nat, rest: bytes)
    requires !Frameless(stream)
    ensures n <= 1048576 && 4 + n <= |stream| && rest == stream[4 + n..] && Prefix(n) == stream[..4]
    ensures Frames(stream) == [stream[4..4 + n]] + Frames(rest)
  {
    n := Length(stream);
    rest := stream[4 + n..];
    LengthPrefix(stream);
    hide Prefix;
    FrameNext(stream, n);
  }

  lemma SentBehind(stream: bytes, n: nat, rest: bytes, requests: seq<bytes>)
    requires n <= 1048576 && 4 + n <= |stream| && rest == stream[4 + n..] && Prefix(n) == stream[..4]
    requires (forall r | r in requests :: |r| <= 1048576) && Sent(requests) <= rest
    ensures forall r | r in [stream[4..4 + n]] + requests :: |r| <= 1048576
    ensures var sent := Sent([stream[4..4 + n]] + requests);
            sent <= stream && stream[|sent|..] == rest[|Sent(requests)|..]
  {
    hide Prefix;
    var r, more := stream[4..4 + n], Sent(requests);
    assert ([r] + requests)[1..] == requests;
    assert Sent([r] + requests) == Prefix(n) + r + more;
    assert stream == stream[..4] + r + more + rest[|more|..];
  }

  lemma LengthPrefix(stream: bytes)
    requires |stream| >= 4
    ensures Length(stream) < 0x1_0000_0000 && Prefix(Length(stream)) == stream[..4]
  {
    hide Prefix;
    assert Length(stream[..4]) == Length(stream);
    PrefixOfLength(stream[..4]);
  }

  lemma FrameFirst(r: bytes, rest: bytes)
    requires |r| <= REQUEST_LIMIT
    ensures Frames(Prefix(|r|) + r + rest) == [r] + Frames(rest)
  {
    var s := Prefix(|r|) + r + rest;
    assert s == Prefix(|r|) + (r + rest);
    PrefixLength(|r|, r + rest);
    assert |Prefix(|r|)| == SIZE32;
    hide Prefix, Length;
    assert s[SIZE32..SIZE32 + |r|] == r && s[SIZE32 + |r|..] == rest;
  }

  // A complete frame of admissible length at the front.
  lemma FrameNext(stream: bytes, n: nat)
    requires |stream| >= SIZE32 && Length(stream) == n <= REQUEST_LIMIT && SIZE32 + n <= |stream|
    ensures Frames(stream) == [stream[SIZE32..SIZE32 + n]] + Frames(stream[SIZE32 + n..])
  {
  }

  // An incomplete frame.
  lemma NoFrame(stream: bytes)
    requires |stream| >= SIZE32 && |stream| - SIZE32 < Length(stream)
    ensures Frames(stream) == []
  {
  }

  lemma Joined(s: bytes, a: nat, b: nat, c: nat)
    requires a <= b <= c <= |s|
    ensures s[a..c] == s[a..b] + s[b..c]
  {
  }

  // The session ----------------------------------------------------------------------------------

  // The receiving side of a socket: what will arrive, and how much of it has been read.
  class Socket {
    const incoming: bytes
    var at: nat

    constructor (bs: bytes)
      ensures incoming == bs && at == 0
    {
      incoming, at := bs, 0;
    }

    // asio::read of exactly n bytes; fails at the end of the stream.
    method Read(n: nat) returns (ok: bool, data: bytes)
      requires at <= |incoming|
      modifies this
      ensures ok <==> old(at) + n <= |incoming|
      ensures if ok then at == old(at) + n && data == incoming[old(at)..at] else at == old(at)
    {
      ok, data := at + n <= |incoming|, [];
      if ok {
        data := incoming[at..at + n];
        at := at + n;
      }
    }

    // A completed async_read_some into a[offset..offset + length]: at most `piece` bytes of what
    // there is, but at least one, unless none was asked for; at the end of the stream an error.
    method ReadSome(a: array<byte>, offset: nat, length: nat, piece: nat) returns (ok: bool, len: nat)
      requires at <= |incoming| && offset + length <= a.Length
      modifies this, a
      ensures ok <==> length == 0 || old(at) < |incoming|
      ensures !ok ==> at == old(at) && a[..] == old(a[..])
      ensures ok ==> len <= length && (length > 0 ==> len > 0) && at == old(at) + len <= |incoming|
      ensures ok ==> a[..offset] == old(a[..offset]) && a[offset..offset + len] == incoming[old(at)..at]
    {
      if length == 0 {
        return true, 0;
      }
      if at == |incoming| {
        return false, 0;
      }
      len := if piece == 0 then 1 else piece;
      len := if len > length then length else len;
      len := if len > |incoming| - at then |incoming| - at else len;
      forall i | 0 <= i < len {
        a[offset + i] := incoming[at + i];
      }
      at := at + len;
      ok := true;
    }
  }

  // An outstanding read: where the rest of the request goes and how much of it is missing.
  datatype Pending = Pending(offset: nat, length: nat)

  // One turn of the event loop: how large a piece arrives, whether the read fails instead, and,
  // if the request is complete, whether writing its reply fails.
  datatype Event = Event(piece: nat, readFails: bool, writeFails: bool)

  class Session {
    const socket: Socket
    var length: nat
    var inpData: array<byte>
    var pending: Option<Pending>
    var requests: seq<bytes>  // the arguments of exec_json so far
    ghost var start: nat      // where the current frame begins
    ghost var failed: bool    // whether the session ended by an error of the connection

    ghost predicate Valid()
      reads this, socket, inpData
    {
      && start <= socket.at <= |socket.incoming|
      && requests + Frames(socket.incoming[start..]) == Frames(socket.incoming)
      && (pending.Some? ==> !failed && Reading(pending.value))
      && (pending.None? && !failed ==> Frames(socket.incoming[start..]) == [])
    }

    // While a request is read: offset + remaining is the frame's length, and the first `offset`
    // bytes of the buffer are those that came after the prefix.
    ghost predicate Reading(p: Pending)
      requires start <= socket.at <= |socket.incoming|
      reads this, socket, inpData
    {
      && start + SIZE32 + p.offset == socket.at
      && p.offset + p.length == length == inpData.Length <= REQUEST_LIMIT
      && Length(socket.incoming[start..]) == length
      && inpData[..p.offset] == socket.incoming[start + SIZE32..socket.at]
    }

    // Bounds the number of events still to come.
    ghost function Rest(): int
      reads this, socket
    {
      2 * (|socket.incoming| - socket.at) + if pending.Some? then 1 else 0
    }

    constructor (s: Socket)
      requires s.at == 0
      ensures socket == s && requests == [] && start == 0 && !failed && pending == None && fresh(inpData)
    {
      socket, length, inpData, pending, requests := s, 0, new byte[0], None, [];
      start, failed := 0, false;
    }

    /** do_read: the length prefix, then the first read of the payload; a request of more than 1 MB
        ends the session. */
    method DoRead()
      requires socket.at == start <= |socket.incoming| && !failed
      requires requests + Frames(socket.incoming[start..]) == Frames(socket.incoming)
      modifies this, socket
      ensures Valid() && !failed && requests == old(requests) && start == old(start)
      ensures inpData == old(inpData) || fresh(inpData)
      ensures socket.at >= old(socket.at) && (pending.Some? ==> socket.at == old(socket.at) + SIZE32)
      ensures pending.Some? <==>
                old(socket.at) + 4 <= |socket.incoming| && Length(socket.incoming[old(socket.at)..]) <= 1048576
      ensures pending.Some? ==>
                pending == Some(Pending(0, length)) && length == Length(socket.incoming[old(socket.at)..])
    {
      pending := None;
      var ok, prefix := socket.Read(SIZE32);
      if !ok {
        return;
      }
      assert prefix == socket.incoming[start..][..SIZE32];
      assert Length(prefix) == Length(socket.incoming[start..]);
      length := Length(prefix);
      if length > REQUEST_LIMIT {
        return;
      }
      inpData := new byte[length];
      pending := Some(Pending(0, length));
    }

    /** The completion handler of async_read_some in do_read and read_rest. */
    method ReadSomeDone(event: Event)
      requires Valid() && pending.Some? && !failed
      modifies this, socket, inpData
      ensures Valid() && (inpData == old(inpData) || fresh(inpData))
      ensures old(requests) <= requests && |requests| <= |old(requests)| + 1 && socket.at >= old(socket.at)
      ensures failed ==> event.readFails || event.writeFails
      ensures Rest() < old(Rest())
    {
      hide Frames, Length;
      var p := pending.value;
      if event.readFails {
        pending, failed := None, true;
        return;
      }
      var ok, len := socket.ReadSome(inpData, p.offset, p.length, event.piece);
      if !ok {
        pending := None;
        NoFrame(socket.incoming[start..]);
        return;
      }
      Joined(inpData[..], 0, p.offset, p.offset + len);
      Joined(socket.incoming, start + SIZE32, start + SIZE32 + p.offset, socket.at);
      Received(p, len, event.writeFails);
    }

    // `len` more bytes of the payload are in the buffer.
    method Received(p: Pending, len: nat, writeFails: bool)
      requires len <= p.length && p.offset + p.length == length == inpData.Length <= REQUEST_LIMIT && !failed
      requires start + SIZE32 + p.offset + len == socket.at <= |socket.incoming|
      requires Length(socket.incoming[start..]) == length
      requires inpData[..p.offset + len] == socket.incoming[start + SIZE32..socket.at]
      requires requests + Frames(socket.incoming[start..]) == Frames(socket.incoming)
      modifies this, socket
      ensures Valid() && (inpData == old(inpData) || fresh(inpData))
      ensures old(requests) <= requests && |requests| <= |old(requests)| + 1 && (failed ==> writeFails)
      ensures socket.at >= old(socket.at)
      ensures pending.Some? ==> len < p.length || socket.at > old(socket.at)
    {
      hide Frames, Length;
      if len < p.length {
        // read_rest
        pending := Some(Pending(p.offset + len, p.length - len));
      } else {
        assert inpData[..p.offset + len] == inpData[..];
        DoWrite(writeFails);
      }
    }

    /** do_write: the request is passed on; when the reply has been written, the next is read. */
    method DoWrite(writeFails: bool)
      requires start + SIZE32 + length == socket.at <= |socket.incoming| && inpData.Length == length <= REQUEST_LIMIT
      requires Length(socket.incoming[start..]) == length && !failed
      requires inpData[..] == socket.incoming[start + SIZE32..socket.at]
      requires requests + Frames(socket.incoming[start..]) == Frames(socket.incoming)
      modifies this, socket
      ensures Valid() && (inpData == old(inpData) || fresh(inpData))
      ensures requests == old(requests) + [old(inpData[..])]
      ensures failed ==> writeFails
      ensures socket.at >= old(socket.at) && (pending.Some? ==> socket.at > old(socket.at))
    {
      ghost var rest := socket.incoming[start..];
      assert rest[SIZE32..SIZE32 + length] == socket.incoming[start + SIZE32..socket.at];
      assert rest[SIZE32 + length..] == socket.incoming[socket.at..];
      FrameNext(rest, length);
      Resume(requests, [inpData[..]], Frames(socket.incoming[socket.at..]));
      requests := requests + [inpData[..]];
      start := socket.at;
      if writeFails {
        pending, failed := None, true;
      } else {
        DoRead();
      }
    }

    /** A whole session, the pieces arriving as they may: the requests passed on are, in order, the
        payloads of the frames; all of them, unless the connection fails or has more to deliver. */
    method Run(events: seq<Event>)
      requires socket.at == 0 == start && requests == [] && !failed
      modifies this, socket, inpData
      ensures requests <= Frames(socket.incoming)
      ensures (forall e | e in events :: !e.readFails && !e.writeFails) && |events| > 2 * |socket.incoming|
              ==> requests == Frames(socket.incoming)
    {
      hide Frames, Length;
      assert socket.incoming[0..] == socket.incoming;
      DoRead();
      var k := 0;
      while k < |events| && pending.Some?
        invariant k <= |events| && Valid() && (inpData == old(inpData) || fresh(inpData))
        invariant failed ==> exists e :: e in events && (e.readFails || e.writeFails)
        invariant Rest() + k <= 2 * |socket.incoming| + 1
      {
        ReadSomeDone(events[k]);
        k := k + 1;
      }
    }
  }
}
