/** The dispatch engine of server.go: the configuration default, the
    per-command store operation and reply of `handleMessage`, and the peer
    bookkeeping of `loop`, taken as a sequential fold over the events the
    loop receives. */
module Dispatch {

  import opened Bytes
  import opened Options
  import opened Resp
  import opened Protocol
  import KeyVal

  const DefaultListenAddr: string := ":5001"

  datatype Config = Config(listenAddr: string)

  /** A peer's identity: the Go code uses the `*Peer` pointer. */
  type PeerId = nat

  /** What a peer forwards to the server: a decoded command (nil when the
      token was not recognised) and the peer to reply to. */
  datatype Message = Message(cmd: Option<Command>, peer: PeerId)

  /** What `loop` receives on its four channels. */
  datatype Event =
    | Add(peer: PeerId)
    | Delete(peer: PeerId)
    | Deliver(msg: Message)
    | Quit

  /** The server's state. `running` means that no quit has been received yet;
      the loop itself is started by `Start`, before any event can arrive. */
  datatype Server = Server(config: Config, peers: set<PeerId>, kv: KeyVal.KV, running: bool)

  /** `NewServer`: an empty listen address falls back to the default one;
      the server starts with no peers, an empty store, and no quit received. */
  function NewServer(cfg: Config): (s: Server)
    ensures |s.config.listenAddr| > 0
    ensures |cfg.listenAddr| > 0 ==> s.config == cfg
    ensures |cfg.listenAddr| == 0 ==> s.config.listenAddr == DefaultListenAddr
    ensures s.peers == {} && s.running
    ensures forall k :: KeyVal.Get(s.kv, k) == None
  {
    var addr := if |cfg.listenAddr| == 0 then DefaultListenAddr else cfg.listenAddr;
    Server(Config(addr), {}, KeyVal.NewKV(), true)
  }

  /** What `handleMessage` writes back to the peer. */
  datatype Reply =
    | NoReply
    | Simple(text: Bytes)   // the RESP writer's WriteString
    | Raw(data: Bytes)      // bytes sent unframed with Peer.Send

  /** The bytes a reply puts on the connection. */
  function Wire(r: Reply): Bytes
  {
    match r
    case NoReply => []
    case Simple(t) => SimpleString(t)
    case Raw(d) => d
  }

  const OK: Bytes := Ascii("OK")
  const NilText: Bytes := Ascii("(nil)")
  const One: Bytes := Ascii("1")
  const Zero: Bytes := Ascii("0")
  const ServerField: Bytes := Ascii("server")
  const RedisName: Bytes := Ascii("redis")

  /** The map the HELLO handler answers with. */
  const HelloSpec: map<Bytes, Bytes> := map[ServerField := RedisName]

  /** `respWriteMap` of the HELLO map; with one key there is one iteration
      order. Byte for byte, the reply is the header `%1` and the entry
      `server: redis`. */
  function HelloReply(): (r: Bytes)
    ensures r == Ascii("%1\r\n") + Ascii("+server\r\n") + Ascii("+:redis\r\n")
  {
    assert IsEnumeration([ServerField], HelloSpec);
    HelloReplyParts();
    var r := RespWriteMap(HelloSpec, [ServerField]);
    assert r == Header(|HelloSpec|) + Entries(HelloSpec, [ServerField]);
    r
  }

  /** The two pieces of the HELLO reply: the header `%1` and the one entry. */
  lemma HelloReplyParts()
    ensures Header(|HelloSpec|) == Ascii("%1\r\n")
    ensures Entries(HelloSpec, [ServerField]) == Ascii("+server\r\n") + Ascii("+:redis\r\n")
  {
    assert Decimal(1) == [Digit(1)];
    assert [ServerField][1..] == [];
    assert Entry(ServerField, RedisName) == Ascii("+server\r\n") + Ascii("+:redis\r\n");
  }

  lemma HelloReplyReadsBack()
    ensures ParseMapReply(HelloReply()) == Some([(ServerField, RedisName)])
  {
    assert IsEnumeration([ServerField], HelloSpec);
    assert CRFree(HelloSpec);
    MapReplyRoundTrip(HelloSpec, [ServerField]);
    assert Pairs(HelloSpec, [ServerField]) == [(ServerField, RedisName)];
  }

  /** The store after a message and the reply written for it. */
  datatype Handled = Handled(kv: KeyVal.KV, reply: Reply)

  /** `handleMessage`, with socket writes turned into the returned reply.
      The `(null)` reply for a failed SET is not reachable: `KV.Set` always
      returns nil. */
  function HandleMessage(kv: KeyVal.KV, msg: Message): (r: Handled)
    ensures msg.cmd.None? ==> r == Handled(kv, NoReply)
    ensures msg.cmd.Some? && msg.cmd.value.Hello? ==>
      r == Handled(kv, Raw(HelloReply()))
    ensures msg.cmd.Some? && msg.cmd.value.Client? ==> r == Handled(kv, Simple(OK))
    ensures msg.cmd.Some? && msg.cmd.value.Set? ==>
      && r.reply == Simple(OK)
      && KeyVal.Get(r.kv, msg.cmd.value.key) == Some(msg.cmd.value.val)
      && forall k :: k != msg.cmd.value.key ==> KeyVal.Get(r.kv, k) == KeyVal.Get(kv, k)
    ensures msg.cmd.Some? && msg.cmd.value.Get? ==>
      && r.kv == kv
      && r.reply == Simple(match KeyVal.Get(kv, msg.cmd.value.key)
                           case Some(v) => v
                           case None => NilText)
    ensures msg.cmd.Some? && msg.cmd.value.Del? ==>
      && r.reply == Simple(if KeyVal.Get(kv, msg.cmd.value.key).Some? then One else Zero)
      && KeyVal.Get(r.kv, msg.cmd.value.key) == None
      && forall k :: k != msg.cmd.value.key ==> KeyVal.Get(r.kv, k) == KeyVal.Get(kv, k)
  {
    match msg.cmd
    case None => Handled(kv, NoReply)
    case Some(c) =>
      match c
      case Hello(_) => Handled(kv, Raw(HelloReply()))
      case Client(_) => Handled(kv, Simple(OK))
      case Set(key, val) => Handled(KeyVal.Set(kv, key, val), Simple(OK))
      case Get(key) =>
        (match KeyVal.Get(kv, key)
         case None => Handled(kv, Simple(NilText))
         case Some(val) => Handled(kv, Simple(val)))
      case Del(key) =>
        var d := KeyVal.Del(kv, key);
        Handled(d.kv, Simple(if d.removed then One else Zero))
  }

  /** A GET of an absent key and a GET of a key bound to the text `(nil)`
      put the same bytes on the wire: the client cannot tell them apart. */
  lemma NilReplyAmbiguous(kv: KeyVal.KV, key: Bytes, p: PeerId)
    ensures Wire(HandleMessage(KeyVal.Set(kv, key, NilText), Message(Some(Get(key)), p)).reply)
         == Wire(HandleMessage(KeyVal.Del(kv, key).kv, Message(Some(Get(key)), p)).reply)
  {
  }

  /** Bytes written to one peer's connection. */
  datatype Outgoing = Outgoing(peer: PeerId, data: Bytes)

  /** The server after some events, and everything written meanwhile. */
  datatype Trace = Trace(server: Server, written: seq<Outgoing>)

  /** One iteration of `loop`. A stopped loop takes no more events. A reply
      goes to the message's peer whether or not that peer is still in the
      set: the write is best effort. */
  function Step(s: Server, e: Event): (t: Trace)
    ensures t.server.config == s.config
    ensures !s.running ==> t == Trace(s, [])
    ensures s.running && e.Add? ==> t.server == s.(peers := s.peers + {e.peer}) && t.written == []
    ensures s.running && e.Delete? ==> t.server == s.(peers := s.peers - {e.peer}) && t.written == []
    ensures s.running && e.Quit? ==> t.server == s.(running := false) && t.written == []
    ensures s.running && e.Deliver? ==>
      && t.server.peers == s.peers && t.server.running
      && t.server.kv == HandleMessage(s.kv, e.msg).kv
      && |t.written| <= 1
      && (forall o :: o in t.written ==> o.peer == e.msg.peer && o.data == Wire(HandleMessage(s.kv, e.msg).reply))
      && (t.written == [] <==> e.msg.cmd.None?)
  {
    if !s.running then Trace(s, [])
    else match e
      case Quit => Trace(s.(running := false), [])
      case Add(p) => Trace(s.(peers := s.peers + {p}), [])
      case Delete(p) => Trace(s.(peers := s.peers - {p}), [])
      case Deliver(msg) =>
        var h := HandleMessage(s.kv, msg);
        var out := if h.reply.NoReply? then [] else [Outgoing(msg.peer, Wire(h.reply))];
        assert h.reply.NoReply? <==> msg.cmd.None?;
        Trace(s.(kv := h.kv), out)
  }

  /** `loop` over a sequence of events, in the order they were received. */
  function Run(s: Server, events: seq<Event>): (t: Trace)
    ensures t.server.config == s.config
    ensures |t.written| <= |events|
    decreases |events|
  {
    if events == [] then Trace(s, [])
    else
      var before := Run(s, events[..|events| - 1]);
      var last := Step(before.server, events[|events| - 1]);
      Trace(last.server, before.written + last.written)
  }

  /** `Quit` stops the loop, whatever came before it. */
  lemma QuitHalts(s: Server, before: seq<Event>)
    ensures !Run(s, before + [Quit]).server.running
  {
  }

  /** One more event extends the trace by that event's step. */
  lemma RunSnoc(s: Server, events: seq<Event>, e: Event)
    ensures Run(s, events + [e]) ==
      var t := Run(s, events);
      var last := Step(t.server, e);
      Trace(last.server, t.written + last.written)
  {
  }

  /** A stopped loop processes nothing more. */
  lemma {:induction false} StoppedStaysStopped(s: Server, events: seq<Event>, after: seq<Event>)
    requires !Run(s, events).server.running
    ensures Run(s, events + after) == Run(s, events)
    decreases |after|
  {
    if after == [] {
      assert events + after == events;
    } else {
      var init := after[..|after| - 1];
      var e := after[|after| - 1];
      assert events + after == (events + init) + [e];
      StoppedStaysStopped(s, events, init);
      RunSnoc(s, events + init, e);
      var stopped := Run(s, events);
      assert stopped.written + [] == stopped.written;
    }
  }

  /** Once `Quit` has been received, nothing after it is processed: no peer
      bookkeeping, no store change and no reply. */
  lemma QuitStops(s: Server, before: seq<Event>, after: seq<Event>)
    ensures !Run(s, before + [Quit]).server.running
    ensures Run(s, before + [Quit] + after) == Run(s, before + [Quit])
  {
    QuitHalts(s, before);
    StoppedStaysStopped(s, before + [Quit], after);
  }

  /** For one peer, the lifecycle event of `events` that comes last: `Some(true)`
      for an add, `Some(false)` for a delete, `None` if the peer is never named. */
  function LastLifecycle(events: seq<Event>, p: PeerId): Option<bool>
  {
    if events == [] then None
    else
      var e := events[|events| - 1];
      if e == Add(p) then Some(true)
      else if e == Delete(p) then Some(false)
      else LastLifecycle(events[..|events| - 1], p)
  }

  predicate NoQuit(events: seq<Event>) {
    forall i :: 0 <= i < |events| ==> !events[i].Quit?
  }

  /** While the loop runs, a peer is in the set exactly when its last
      lifecycle event was an add, or, if it has none, when it was there to
      begin with. Messages never change membership. */
  lemma {:induction false} Membership(s: Server, events: seq<Event>, p: PeerId)
    requires s.running && NoQuit(events)
    ensures Run(s, events).server.running
    ensures p in Run(s, events).server.peers <==>
      match LastLifecycle(events, p)
      case Some(added) => added
      case None => p in s.peers
    decreases |events|
  {
    if events != [] {
      var init := events[..|events| - 1];
      assert NoQuit(init) by {
        assert forall i :: 0 <= i < |init| ==> init[i] == events[i];
      }
      Membership(s, init, p);
      assert !events[|events| - 1].Quit?;
    }
  }

  /** A last lifecycle event that is an add has no later delete of that peer. */
  lemma {:induction false} LastAddNotDeleted(events: seq<Event>, p: PeerId)
    requires LastLifecycle(events, p) == Some(true)
    ensures exists i ::
              && 0 <= i < |events| && events[i] == Add(p)
              && forall j :: i < j < |events| ==> events[j] != Delete(p)
    decreases |events|
  {
    var n := |events| - 1;
    if events[n] != Add(p) {
      var init := events[..n];
      LastAddNotDeleted(init, p);
      var i :| 0 <= i < |init| && init[i] == Add(p) &&
        (forall j :: i < j < |init| ==> init[j] != Delete(p));
      assert events[i] == Add(p);
      assert forall j :: i < j < |events| ==> events[j] != Delete(p) by {
        forall j | i < j < |events| ensures events[j] != Delete(p) {
          if j < n {
            assert init[j] == events[j];
          }
        }
      }
    }
  }

  /** Every peer that is added is later deleted. */
  predicate EveryAddDeleted(events: seq<Event>) {
    forall i :: 0 <= i < |events| && events[i].Add? ==>
      exists j :: i < j < |events| && events[j] == Delete(events[i].peer)
  }

  /** When every peer added to a fresh server is later deleted, the peer set
      ends empty: the multi-client test's closing check. */
  lemma AllPeersGone(cfg: Config, events: seq<Event>)
    requires NoQuit(events) && EveryAddDeleted(events)
    ensures Run(NewServer(cfg), events).server.peers == {}
  {
    var s := NewServer(cfg);
    forall p | p in Run(s, events).server.peers
      ensures false
    {
      Membership(s, events, p);
      LastAddNotDeleted(events, p);
    }
  }
}
