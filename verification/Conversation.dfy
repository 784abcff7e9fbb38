/** A session and the service together: from the bytes a client sends to the bytes it gets back. */
module Conversation {
  import opened Bytes
  import opened Utf8
  import opened Quoting
  import opened QuoteRoundTrip
  import opened JsonValue
  import opened Lexer
  import opened Tokens
  import opened PrintedValues
  import opened PrintedTrees
  import opened FastWriterModel
  import opened RoundTrip
  import opened SessionModel
  import opened ServerModel
  import opened ClientModel
  import opened ReplySize

  // The reply frame ------------------------------------------------------------------------------

  // strncpy of |s| bytes: up to the first NUL, and NULs from there on.
  function Copied(s: bytes): (t: bytes)
    ensures |t| == |s|
  {
    if s == [] then []
    else if s[0] == 0 then seq(|s|, _ => 0)
    else [s[0]] + Copied(s[1..])
  }

  lemma {:induction false} CopiedWhole(s: bytes)
    requires 0 !in s
    ensures Copied(s) == s
  {
    if s != [] {
      CopiedWhole(s[1..]);
      assert s == [s[0]] + s[1..];
    }
  }

  // How far strncpy has come: the first k bytes are copied, and none of them is NUL.
  lemma {:induction false} CopiedTo(s: bytes, k: nat)
    requires k <= |s| && 0 !in s[..k]
    ensures Copied(s)[..k] == s[..k]
    ensures k < |s| && s[k] == 0 ==> forall j :: k <= j < |s| ==> Copied(s)[j] == 0
  {
    if k > 0 {
      assert s[0] == s[..k][0] && s[1..][..k - 1] == s[..k][1..];
      CopiedTo(s[1..], k - 1);
      assert Copied(s)[..k] == [s[0]] + Copied(s[1..])[..k - 1];
    }
  }

  method Strncpy(a: array<byte>, from: nat, s: bytes)
    requires from + |s| <= a.Length
    modifies a
    ensures a[from..from + |s|] == Copied(s) && a[..from] == old(a[..from])
  {
    var k := 0;
    assert s[..0] == [];
    while k < |s| && s[k] != 0
      invariant k <= |s| && 0 !in s[..k] && a[..from] == old(a[..from])
      invariant a[from..from + k] == s[..k]
    {
      a[from + k] := s[k];
      assert s[..k + 1] == s[..k] + [s[k]];
      k := k + 1;
    }
    CopiedTo(s, k);
    forall i | k <= i < |s| {
      a[from + i] := 0;
    }
    assert a[from..from + k] == Copied(s)[..k];
    assert a[from + k..from + |s|] == Copied(s)[k..];
    Joined(a[..], from, from + k, from + |s|);
    Rejoin(Copied(s), k);
  }

  /** The frame do_write makes of a reply, in a buffer sized by the request: it fits if and only if the
      reply is no longer than the request; then it is the length and the reply, up to a NUL. */
  method FrameReply(len: nat, out: bytes) returns (outData: array<byte>, fits: bool)
    requires len <= REQUEST_LIMIT
    ensures fresh(outData) && outData.Length == len + SIZE32
    ensures fits <==> |out| <= len
    ensures fits ==> outData[..SIZE32 + |out|] == Prefix(|out|) + Copied(out)
  {
    outData := new byte[len + SIZE32];
    fits := |out| <= len;
    if !fits {
      return;
    }
    Strncpy(outData, SIZE32, out);
    ghost var copied := outData[SIZE32..SIZE32 + |out|];
    var prefix := Prefix(|out|);
    outData[0], outData[1], outData[2], outData[3] := prefix[0], prefix[1], prefix[2], prefix[3];
    assert outData[SIZE32..SIZE32 + |out|] == copied;
    Joined(outData[..], 0, SIZE32, SIZE32 + |out|);
  }

  // No reply contains a NUL ------------------------------------------------------------------------

  predicate NoNul(s: bytes) { 0 !in s }

  lemma {:induction false} SpacesNoNul(s: bytes)
    ensures NoNul(s[..Spaces(s)])
  {
    if s != [] && Space(s[0]) {
      SpacesNoNul(s[1..]);
      assert s[..Spaces(s)] == [s[0]] + s[1..][..Spaces(s[1..])];
    }
  }

  /** Nothing the writers lay out contains a NUL. */
  lemma {:induction false} LayoutNoNul(s: bytes, toks: seq<Tok>)
    requires Spells(s, toks) && forall t | t in toks :: Standard(t)
    ensures NoNul(s)
    decreases |toks|
  {
    hide Standard, Spaces;
    SpacesNoNul(s);
    if toks == [] {
      assert s[..Spaces(s)] == s;
    } else {
      var k, n := Spaces(s), Spaces(s) + |toks[0].text|;
      assert toks[0] in toks;
      TokenVisible(toks[0]);
      LayoutNoNul(s[n..], toks[1..]);
      assert s == s[..k] + s[k..n] + s[n..];
    }
  }

  lemma ReplyNoNul(f: Features, r: S.Reply)
    requires -2 <= r.error <= 7
    ensures NoNul(ReplyText(f, r))
  {
    hide Spells, ValueToks, Printable, FastDocument, NoNul, Standard;
    var v := ReplyValue(r);
    ReplyFits(r);
    FastDocumentLays(FastStyle(false, false, false, f.printDouble), v);
    ValueIsStandard(v, false);
    LayoutNoNul(ReplyText(f, r), ValueToks(v, false));
  }

  // A whole conversation ---------------------------------------------------------------------------

  // The requests, each with what happens outside while it is performed.
  function RequestsOf(inputs: seq<bytes>, envs: seq<S.Env>): (rs: seq<S.Request>)
    requires |inputs| <= |envs|
    ensures |rs| == |inputs| && forall k :: 0 <= k < |rs| ==> rs[k] == S.Request(inputs[k], envs[k])
  {
    seq(|inputs|, k requires 0 <= k < |inputs| => S.Request(inputs[k], envs[k]))
  }

  /** What has been said once these inputs have been passed on: the state machine has run over them,
      the texts are its replies, and the client has been sent their frames, if every request had room
      for its reply. */
  ghost predicate Talk(f: Features, s0: S.State, inputs: seq<bytes>, envs: seq<S.Env>, texts: seq<bytes>,
                       outgoing: bytes, ended: bool, fits: bool, s: S.State) {
    && |texts| <= |inputs| <= |envs|
    && (var rs := RequestsOf(inputs, envs);
        && (if ended then S.RunAll(f, s0, rs).None? else S.RunAll(f, s0, rs) == Some(s) && |texts| == |inputs|)
        && TextsOf(f, texts, S.Replies(f, s0, rs)))
    && (fits <==> RoomForAll(f, s0, RequestsOf(inputs, envs)))
    && (fits ==> Short(texts) && outgoing == Sent(texts))
  }

  ghost predicate TextsOf(f: Features, texts: seq<bytes>, replies: seq<S.Reply>) {
    |texts| == |replies| && forall k :: 0 <= k < |texts| ==> texts[k] == ReplyText(f, replies[k])
  }

  predicate Short(texts: seq<bytes>) { forall t | t in texts :: |t| <= REQUEST_LIMIT }

  lemma {:induction false} SentOneMore(texts: seq<bytes>, t: bytes)
    requires Short(texts) && |t| <= REQUEST_LIMIT
    ensures Short(texts + [t]) && Sent(texts + [t]) == Sent(texts) + (Prefix(|t|) + t)
  {
    hide Prefix;
    if texts == [] {
      assert texts + [t] == [t] && [t][1..] == [];
    } else {
      var first := Prefix(|texts[0]|) + texts[0];
      assert (texts + [t])[1..] == texts[1..] + [t] && (texts + [t])[0] == texts[0];
      SentOneMore(texts[1..], t);
      assert Sent(texts + [t]) == first + Sent(texts[1..] + [t]);
      assert Sent(texts) == first + Sent(texts[1..]);
      Resume(first, Sent(texts[1..]), Prefix(|t|) + t);
    }
  }

  lemma {:induction false} FramesAreShort(stream: bytes)
    ensures Short(Frames(stream))
    decreases |stream|
  {
    if |stream| >= SIZE32 && Length(stream) <= REQUEST_LIMIT && Length(stream) <= |stream| - SIZE32 {
      FramesAreShort(stream[SIZE32 + Length(stream)..]);
    }
  }

  lemma TalkStarts(f: Features, s0: S.State, envs: seq<S.Env>)
    ensures Talk(f, s0, [], envs, [], [], false, true, s0)
  {
  }

  lemma TalkGoesOn(f: Features, s0: S.State, inputs: seq<bytes>, envs: seq<S.Env>, texts: seq<bytes>, outgoing: bytes,
                   s: S.State, inp: bytes)
    requires Talk(f, s0, inputs, envs, texts, outgoing, false, true, s)
    requires |inputs| < |envs| && |inp| <= REQUEST_LIMIT && !f.allowNumericKeys
    ensures var (r, s') := S.Exec(f, s, inp, envs[|inputs|]);
            if r.Crashed? then Talk(f, s0, inputs + [inp], envs, texts, outgoing, true, true, s')
            else
              var text := ReplyText(f, r.reply);
              if |text| > |inp| then Talk(f, s0, inputs + [inp], envs, texts + [text], outgoing, false, false, s')
              else Talk(f, s0, inputs + [inp], envs, texts + [text], outgoing + (Prefix(|text|) + text), false, true,
                        s')
  {
    hide S.Exec, S.RunAll, S.Replies, RoomFor, RoomForAll, ReplyText, Prefix, Sent;
    var rs, r := RequestsOf(inputs, envs), S.Request(inp, envs[|inputs|]);
    assert RequestsOf(inputs + [inp], envs) == rs + [r];
    S.RunLast(f, s0, rs, r);
    RoomLast(f, s0, rs, r);
    var result := S.Exec(f, s, inp, envs[|inputs|]).0;
    if result.Answer? {
      FitsExactly(f, s, inp, envs[|inputs|]);
      if |ReplyText(f, result.reply)| <= |inp| {
        SentOneMore(texts, ReplyText(f, result.reply));
      }
    }
  }

  // do_write: one more request is performed and its reply sent.
  method Answered(server: Server, ghost s0: S.State, ghost inputs: seq<bytes>, ghost envs: seq<S.Env>, inp: bytes,
                  env: S.Env, texts: seq<bytes>, outgoing: bytes)
    returns (texts': seq<bytes>, outgoing': bytes, ended: bool, fits: bool)
    requires server.Valid() && |inp| <= REQUEST_LIMIT && |inputs| < |envs| && env == envs[|inputs|]
    requires Talk(server.f, s0, inputs, envs, texts, outgoing, false, true, server.Abs())
    modifies server.configs, server.store
    ensures server.Valid()
    ensures Talk(server.f, s0, inputs + [inp], envs, texts', outgoing', ended, fits, server.Abs())
  {
    hide Talk, S.Exec, ReplyText, NoNul;
    TalkGoesOn(server.f, s0, inputs, envs, texts, outgoing, server.Abs(), inp);
    S.FailureChangesNothing(server.f, server.Abs(), inp, env);
    ghost var r := S.Exec(server.f, server.Abs(), inp, env).0;
    var text := server.ExecJson(inp, env);
    if text.None? {
      return texts, outgoing, true, true;
    }
    ReplyNoNul(server.f, r.reply);
    WholeReply(text.value);
    var outData, fit := FrameReply(|inp|, text.value);
    texts', outgoing', ended, fits := texts + [text.value], outgoing, false, fit;
    if fit {
      outgoing' := outgoing + outData[..SIZE32 + |text.value|];
    }
  }

  /** A session with the service behind it, the pieces of the stream arriving as they may: the frames are
      performed in order, and the client is sent the frames of the replies. The conversation stops early
      when a request ends the program, or has no room for its reply. (exec_json runs right behind
      the handler that completes a request instead of within it; the two share nothing.) */
  method Converse(session: Session, server: Server, events: seq<Event>, envs: seq<S.Env>)
    returns (texts: seq<bytes>, outgoing: bytes, ended: bool, fits: bool)
    requires session.socket.at == 0 == session.start && session.requests == [] && !session.failed
    requires server.Valid() && |Frames(session.socket.incoming)| <= |envs|
    modifies session, session.socket, session.inpData, server.configs, server.store
    ensures server.Valid() && session.requests <= Frames(session.socket.incoming)
    ensures Talk(server.f, old(server.Abs()), session.requests, envs, texts, outgoing, ended, fits, server.Abs())
    ensures (forall e | e in events :: !e.readFails && !e.writeFails) && |events| > 2 * |session.socket.incoming| ==>
              var rs := RequestsOf(Frames(session.socket.incoming), envs);
              && (fits <==> RoomForAll(server.f, old(server.Abs()), rs))
              && (fits ==> (ended <==> S.RunAll(server.f, old(server.Abs()), rs).None?))
              && (ended || !fits || session.requests == Frames(session.socket.incoming))
  {
    hide Frames, Length, Talk, RoomForAll, Session.Valid, Server.Valid, Server.Abs, Session.Rest;
    ghost var f, s0 := server.f, server.Abs();
    texts, outgoing, ended, fits := [], [], false, true;
    Begin(session);
    TalkStarts(f, s0, envs);
    var k := 0;
    while k < |events| && session.pending.Some? && !ended && fits
      invariant k <= |events| && session.Valid() && server.Valid()
      invariant session.inpData == old(session.inpData) || fresh(session.inpData)
      invariant session.failed ==> exists e :: e in events && (e.readFails || e.writeFails)
      invariant session.Rest() + k <= 2 * |session.socket.incoming| + 1
      invariant Talk(f, s0, session.requests, envs, texts, outgoing, ended, fits, server.Abs())
    {
      PassedOn(session);
      texts, outgoing, ended, fits := Turn(session, server, s0, events[k], envs, texts, outgoing);
      k := k + 1;
    }
    PassedOn(session);
    if ended || !fits || session.requests == Frames(session.socket.incoming) {
      TalkEnds(f, s0, Frames(session.socket.incoming), session.requests, envs, texts, outgoing, ended, fits,
               server.Abs());
    }
  }

  method Begin(session: Session)
    requires session.socket.at == 0 == session.start && session.requests == [] && !session.failed
    modifies session, session.socket
    ensures session.Valid() && !session.failed && session.requests == []
    ensures session.inpData == old(session.inpData) || fresh(session.inpData)
    ensures session.Rest() <= 2 * |session.socket.incoming| + 1
  {
    hide Frames, Length;
    assert session.socket.incoming[0..] == session.socket.incoming;
    session.DoRead();
  }

  lemma PassedOn(session: Session)
    requires session.Valid()
    ensures session.requests <= Frames(session.socket.incoming)
    ensures session.pending.None? && !session.failed ==> session.requests == Frames(session.socket.incoming)
    ensures session.Rest() >= 0 && (session.pending.Some? ==> session.Rest() > 0 && !session.failed)
  {
    hide Frames, Length;
  }

  // One turn of the event loop, with the service.
  method Turn(session: Session, server: Server, ghost s0: S.State, event: Event, envs: seq<S.Env>, texts: seq<bytes>,
              outgoing: bytes)
    returns (texts': seq<bytes>, outgoing': bytes, ended: bool, fits: bool)
    requires session.Valid() && session.pending.Some? && !session.failed && server.Valid()
    requires |Frames(session.socket.incoming)| <= |envs|
    requires Talk(server.f, s0, session.requests, envs, texts, outgoing, false, true, server.Abs())
    modifies session, session.socket, session.inpData, server.configs, server.store
    ensures session.Valid() && server.Valid()
    ensures session.inpData == old(session.inpData) || fresh(session.inpData)
    ensures session.failed ==> event.readFails || event.writeFails
    ensures session.Rest() < old(session.Rest())
    ensures Talk(server.f, s0, session.requests, envs, texts', outgoing', ended, fits, server.Abs())
  {
    hide Frames, Length, Talk, Session.Valid, Server.Valid, Server.Abs, Session.Rest;
    ghost var before := session.requests;
    var count := |session.requests|;
    session.ReadSomeDone(event);
    PassedOn(session);
    texts', outgoing', ended, fits := texts, outgoing, false, true;
    if |session.requests| > count {
      var inp := session.requests[count];
      assert session.requests == before + [inp];
      FramesAreShort(session.socket.incoming);
      assert inp in Frames(session.socket.incoming);
      texts', outgoing', ended, fits := Answered(server, s0, before, envs, inp, envs[count], texts, outgoing);
    } else {
      assert session.requests == before;
    }
  }

  lemma WholeReply(text: bytes)
    requires NoNul(text)
    ensures Copied(text) == text
  {
    CopiedWhole(text);
  }

  /** A conversation that is cut short: a frame of length 0 is a request without room for its reply. */
  lemma EmptyFrameHasNoRoom(parseDouble: bytes -> Option<Double>, printDouble: Double -> bytes, s: S.State, env: S.Env)
    ensures Frames(Prefix(0)) == [[]]
    ensures !RoomForAll(DefaultFeatures(parseDouble, printDouble), s, RequestsOf(Frames(Prefix(0)), [env]))
  {
    hide S.Exec, S.Found, Frames;
    var f := DefaultFeatures(parseDouble, printDouble);
    FrameFirst([], []);
    assert Prefix(0) + [] + [] == Prefix(0) && [[]] + Frames([]) == [[]] by {
      NothingFollows();
    }
    EmptyRequestHasNoRoom(f, s, env);
  }

  // Reading one's own write, from end to end -------------------------------------------------------

  /** A document that asks for a write (a put, put_cf or write_batch), documents that write other cells and
      end no program, and a document that asks for what was written (a get or get_cf), the first and the
      last being served. */
  ghost predicate Scenario(f: Features, s0: S.State, docs: seq<bytes>, envs: seq<S.Env>, name: bytes, w: S.Action,
                           g: S.Action, value: bytes) {
    && f.stackLimit >= 3 && 2 <= |docs| == |envs|
    && Known(w) && Sendable(name, w) && Asks(docs[0], RequestFor(name, w))
    && Known(g) && Sendable(name, g) && Asks(docs[|docs| - 1], RequestFor(name, g))
    && name != [] && S.FindDb(s0.dbs, name) < |s0.dbs|
    && envs[0].serves && envs[|docs| - 1].serves
    && var rs, db := RequestsOf(docs, envs), s0.dbs[S.FindDb(s0.dbs, name)];
       && S.Opening(db, envs[0]) == Some(true) && S.ReadsBack(db, w, g, value)
       && S.RunAll(f, s0, [rs[0]] + rs[1..|docs| - 1]).Some?
       && forall x | x in S.History(f, S.Exec(f, s0, rs[0].inp, rs[0].env).1, rs[1..|docs| - 1]) ::
            x.cell != S.Cell(db.path, S.Family(g), g.key)
  }

  /** So a put_cf is read back by a get_cf with its column and key, on a database that has the column, and
      each item of a write_batch by a get of its name. */
  lemma WhatIsReadBack(db: S.Db, column: bytes, key: bytes, value: bytes, items: seq<(bytes, bytes)>, k: nat)
    requires Items(items) && k < |items|
    ensures S.ReadsBack(db, S.PutCf(column, key, value), S.GetCf(column, key), value) <==> column in db.families
    ensures S.ReadsBack(db, S.WriteBatch(items), S.Get(items[k].0), items[k].1)
    ensures S.ReadsBack(db, S.Put(key, value), S.Get(key), value)
  {
    hide Ascii, KeyLess;
    ItemStored(items, k);
  }

  lemma {:induction false} ItemStored(items: seq<(bytes, bytes)>, k: nat)
    requires Sorted(Members(items)) && k < |items|
    ensures S.LastItem(items, items[k].0) == Some(items[k].1)
  {
    hide Sorted;
    assert Members(items[1..]) == Members(items)[1..];
    LaterSorted(Members(items));
    if k > 0 {
      ItemStored(items[1..], k - 1);
    } else {
      forall j | 0 <= j < |items[1..]| ensures items[1..][j].0 != items[0].0 {
        assert Members(items)[j + 1].key != Members(items)[0].key;
      }
      NoItem(items[1..], items[0].0);
    }
  }

  lemma LaterSorted(es: Entries)
    requires Sorted(es) && es != []
    ensures Sorted(es[1..]) && forall k :: 0 < k < |es| ==> es[k].key != es[0].key
  {
    hide KeyLess;
    forall k | 0 < k < |es| ensures es[k].key != es[0].key {
      assert KeyLess(es[0].key, es[k].key);
      KeyOrder(es[0].key, es[k].key);
    }
  }

  lemma {:induction false} NoItem(items: seq<(bytes, bytes)>, key: bytes)
    requires forall k :: 0 <= k < |items| ==> items[k].0 != key
    ensures S.LastItem(items, key).None?
  {
    if items != [] {
      NoItem(items[1..], key);
    }
  }

  // After all but the last of these requests, the last one is answered with the value.
  ghost predicate LastAnswers(f: Features, s0: S.State, rs: seq<S.Request>, value: bytes) {
    hide S.Exec, S.RunAll;
    && |rs| >= 2
    && var s := S.RunAll(f, s0, [rs[0]] + rs[1..|rs| - 1]);
       && s.Some?
       && S.Exec(f, s.value, rs[|rs| - 1].inp, rs[|rs| - 1].env).0 == S.Answer(S.Reply(0, Some(value)))
  }

  lemma LastExec(f: Features, s0: S.State, docs: seq<bytes>, envs: seq<S.Env>, name: bytes, w: S.Action, g: S.Action,
                 value: bytes)
    requires Scenario(f, s0, docs, envs, name, w, g, value)
    ensures LastAnswers(f, s0, RequestsOf(docs, envs), value)
    ensures S.AsksFor(f, s0.dbs, docs[0], S.FindDb(s0.dbs, name), w)
  {
    hide S.AsksFor, S.RunAll, S.Exec, S.History, S.Opening, S.FindDb, S.ReadsBack, Asks, Sendable, RequestFor;
    var n, rs, i := |docs|, RequestsOf(docs, envs), S.FindDb(s0.dbs, name);
    var before := [rs[0]] + rs[1..n - 1];
    var s' := S.RunAll(f, s0, before).value;
    RequestDecodes(f, s0.dbs, docs[0], name, w);
    S.StaysOpen(f, s0, before);
    S.SameNames(s0.dbs, s'.dbs, name);
    RequestDecodes(f, s'.dbs, docs[n - 1], name, g);
    S.ReadsItsWrite(f, s0, rs[0], rs[1..n - 1], rs[n - 1], i, w, g, value);
  }

  /** In such a scenario the state machine runs to the end and its last reply is the value written. */
  lemma LastReply(f: Features, s0: S.State, docs: seq<bytes>, envs: seq<S.Env>, name: bytes, w: S.Action, g: S.Action,
                  value: bytes)
    requires Scenario(f, s0, docs, envs, name, w, g, value)
    ensures var rs := RequestsOf(docs, envs);
            && S.RunAll(f, s0, rs).Some? && |S.Replies(f, s0, rs)| == |docs|
            && S.Replies(f, s0, rs)[|docs| - 1] == S.Reply(0, Some(value))
  {
    hide S.RunAll, S.Replies, S.Exec, S.History, S.Opening, S.FindDb, S.AsksFor, S.ReadsBack, Asks, Sendable,
         RequestFor;
    var n, rs := |docs|, RequestsOf(docs, envs);
    var before := [rs[0]] + rs[1..n - 1];
    LastExec(f, s0, docs, envs, name, w, g, value);
    S.RunLast(f, s0, before, rs[n - 1]);
    S.RepliesCount(f, s0, before);
    assert before + [rs[n - 1]] == rs;
  }

  /** A client that sends such documents of at most 1 MB, cut into pieces however the network pleases, is
      sent one frame for each, and the last one, parsed with the default settings, is error 0 and the value
      it wrote; if and only if every document has room for its reply. Of
      two documents alone that depends on the second: it must not be shorter than the value as quoted and 21
      bytes. */
  method ReadOwnWrite(parseDouble: bytes -> Option<Double>, printDouble: Double -> bytes, session: Session,
                      server: Server, events: seq<Event>, envs: seq<S.Env>, ghost docs: seq<bytes>, ghost name: bytes,
                      ghost w: S.Action, ghost g: S.Action, ghost value: bytes)
    returns (texts: seq<bytes>, outgoing: bytes, fits: bool)
    requires session.socket.at == 0 == session.start && session.requests == [] && !session.failed
    requires (forall doc | doc in docs :: |doc| <= 1048576) && session.socket.incoming == Sent(docs)
    requires |events| > 2 * |session.socket.incoming| && forall e | e in events :: !e.readFails && !e.writeFails
    requires server.Valid() && server.f == DefaultFeatures(parseDouble, printDouble)
    requires Scenario(server.f, server.Abs(), docs, envs, name, w, g, value)
    modifies session, session.socket, session.inpData, server.configs, server.store
    ensures fits <==> RoomForAll(server.f, old(server.Abs()), RequestsOf(docs, envs))
    ensures fits ==> |docs[|docs| - 1]| >= 21 + |Quoted(value, false)|
    ensures |docs| == 2 ==> (fits <==> |docs[1]| >= 21 + |Quoted(value, false)|)
    ensures fits ==> |texts| == |docs| && Frames(outgoing) == texts
    ensures fits ==> var o := P.Parse(server.f, texts[|docs| - 1], NullValue);
                     o.Done? && o.ok && Bare(o.value) == ReplyValue(S.Reply(0, Some(value)))
  {
    hide Talk, RoomForAll, Scenario, P.Parse, ReplyText, Frames, Length, Sent, Bare, ValidUtf8, Quoted;
    ghost var f, s0 := server.f, server.Abs();
    FramesOfSent(docs);
    LastReply(f, s0, docs, envs, name, w, g, value);
    LastRoom(f, s0, docs, envs, name, w, g, value);
    var ended: bool;
    texts, outgoing, ended, fits := Converse(session, server, events, envs);
    if fits {
      LastText(f, s0, docs, envs, texts, outgoing, server.Abs(), S.Reply(0, Some(value)));
      ReplyIsRead(parseDouble, printDouble, S.Reply(0, Some(value)));
      ValidIsKept(value);
    }
  }

  // What the client has been sent at the end.
  lemma LastText(f: Features, s0: S.State, docs: seq<bytes>, envs: seq<S.Env>, texts: seq<bytes>, outgoing: bytes,
                 s: S.State, r: S.Reply)
    requires docs != [] && Talk(f, s0, docs, envs, texts, outgoing, false, true, s)
    requires var replies := S.Replies(f, s0, RequestsOf(docs, envs)); |replies| == |docs| && replies[|docs| - 1] == r
    ensures |texts| == |docs| && texts[|docs| - 1] == ReplyText(f, r) && Frames(outgoing) == texts
  {
    hide S.RunAll, S.Replies, RoomForAll, ReplyText, Sent, Frames;
    FramesOfSent(texts);
  }

  // What a conversation amounts to that has not been cut short by the network.
  lemma TalkEnds(f: Features, s0: S.State, docs: seq<bytes>, inputs: seq<bytes>, envs: seq<S.Env>, texts: seq<bytes>,
                 outgoing: bytes, ended: bool, fits: bool, s: S.State)
    requires |docs| <= |envs| && inputs <= docs
    requires Talk(f, s0, inputs, envs, texts, outgoing, ended, fits, s) && (ended || !fits || inputs == docs)
    ensures fits <==> RoomForAll(f, s0, RequestsOf(docs, envs))
    ensures fits ==> (ended <==> S.RunAll(f, s0, RequestsOf(docs, envs)).None?)
  {
    hide S.RunAll, S.Replies, RoomForAll, ReplyText, Sent;
    var rs, all := RequestsOf(inputs, envs), RequestsOf(docs, envs);
    assert all == rs + all[|rs|..];
    RoomBefore(f, s0, rs, all[|rs|..]);
  }

  // A value that is written is valid UTF-8.
  lemma StoredIsValid(name: bytes, w: S.Action, key: bytes)
    requires Sendable(name, w) && S.Stored(w, key).Some?
    ensures ValidUtf8(S.Stored(w, key).value)
  {
    hide ValidUtf8, Sorted;
    if w.WriteBatch? {
      ItemsAreValid(w.items, key);
    }
  }

  lemma {:induction false} ItemsAreValid(items: seq<(bytes, bytes)>, key: bytes)
    requires (forall k :: 0 <= k < |items| ==> Item(items[k])) && S.LastItem(items, key).Some?
    ensures ValidUtf8(S.LastItem(items, key).value)
  {
    hide ValidUtf8;
    assert Item(items[0]);
    if S.LastItem(items[1..], key).Some? {
      ItemsAreValid(items[1..], key);
    }
  }

  // Whether there is room in such a scenario, in terms of the last document; a write has room.
  lemma LastRoom(f: Features, s0: S.State, docs: seq<bytes>, envs: seq<S.Env>, name: bytes, w: S.Action, g: S.Action,
                 value: bytes)
    requires Scenario(f, s0, docs, envs, name, w, g, value) && !f.allowNumericKeys
    ensures var rs, long := RequestsOf(docs, envs), |docs[|docs| - 1]| >= 21 + |Quoted(value, false)|;
            RoomForAll(f, s0, rs) <==> RoomForAll(f, s0, [rs[0]] + rs[1..|docs| - 1]) && long
    ensures |docs| == 2 ==> var rs := RequestsOf(docs, envs); RoomForAll(f, s0, [rs[0]] + rs[1..|docs| - 1])
    ensures 2 <= |docs| == |envs| && ValidUtf8(value)
  {
    hide S.RunAll, S.Exec, S.Found, S.History, S.Opening, S.FindDb, S.AsksFor, S.Stored, Asks, Sendable, RequestFor,
         ValidUtf8, Quoted, RoomForAll;
    var n, rs := |docs|, RequestsOf(docs, envs);
    var before := [rs[0]] + rs[1..n - 1];
    LastExec(f, s0, docs, envs, name, w, g, value);
    RoomLast(f, s0, before, rs[n - 1]);
    assert before + [rs[n - 1]] == rs;
    S.FoundIsReplied(f, S.RunAll(f, s0, before).value, docs[n - 1], envs[n - 1]);
    StoredIsValid(name, w, g.key);
    if n == 2 {
      assert before == [rs[0]];
      S.StoredByWrite(w, g.key);
      WriteHasRoom(f, s0, rs[0], S.FindDb(s0.dbs, name), w);
    }
  }

  lemma WriteHasRoom(f: Features, s: S.State, r: S.Request, i: nat, w: S.Action)
    requires S.AsksFor(f, s.dbs, r.inp, i, w) && (w.Put? || w.PutCf? || w.WriteBatch?) && !f.allowNumericKeys
    ensures RoomForAll(f, s, [r])
  {
    hide S.TargetOf, S.Decode, S.Exec;
    KnownRequestsAreLong(f, s.dbs, r.inp);
    assert [r][1..] == [];
  }
}
