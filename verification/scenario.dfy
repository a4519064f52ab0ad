/** The request/reply walk-through the server is meant to support, SET, GET,
    DEL, GET, DEL on one key, run twice: once with the commands delivered to
    the dispatch loop directly, and once through a peer's read loop, where
    `del` is never decoded. */
module Scenario {

  import opened Bytes
  import opened Options
  import opened Resp
  import opened Protocol
  import opened Dispatch
  import opened Peer
  import KeyVal

  const Foo: Bytes := Ascii("foo")
  const Bar: Bytes := Ascii("bar")

  function Send(c: Command, p: PeerId): Event {
    Deliver(Message(Some(c), p))
  }

  /** The five commands delivered straight to the loop, between the peer's
      arrival and its departure. */
  const DirectEvents: seq<Event> := [Add(1), Send(Set(Foo, Bar), 1), Send(Get(Foo), 1), Send(Del(Foo), 1),
                                     Send(Get(Foo), 1), Send(Del(Foo), 1), Delete(1)]

  lemma DirectFirstThree(cfg: Config)
    ensures var t := Run(NewServer(cfg), DirectEvents[..3]);
      && t.server.running && t.server.peers == {1}
      && KeyVal.Get(t.server.kv, Foo) == Some(Bar)
      && t.written == [Outgoing(1, SimpleString(OK)), Outgoing(1, SimpleString(Bar))]
  {
    var s := NewServer(cfg);
    var e := DirectEvents;
    assert e[..1] == [] + [e[0]] && e[..2] == e[..1] + [e[1]] && e[..3] == e[..2] + [e[2]];
    RunSnoc(s, [], e[0]);
    RunSnoc(s, e[..1], e[1]);
    RunSnoc(s, e[..2], e[2]);
  }

  lemma DirectFirstFive(cfg: Config)
    ensures var t := Run(NewServer(cfg), DirectEvents[..5]);
      && t.server.running && t.server.peers == {1}
      && KeyVal.Get(t.server.kv, Foo) == None
      && t.written == [Outgoing(1, SimpleString(OK)), Outgoing(1, SimpleString(Bar)),
                       Outgoing(1, SimpleString(One)), Outgoing(1, SimpleString(NilText))]
  {
    var s := NewServer(cfg);
    var e := DirectEvents;
    assert e[..4] == e[..3] + [e[3]] && e[..5] == e[..4] + [e[4]];
    DirectFirstThree(cfg);
    RunSnoc(s, e[..3], e[3]);
    RunSnoc(s, e[..4], e[4]);
  }

  /** Dispatched directly, the five commands answer OK, bar, 1, (nil), 0,
      and the peer set is empty once the peer is deleted. */
  lemma DirectScenario(cfg: Config)
    ensures var t := Run(NewServer(cfg), DirectEvents);
      && t.written == [Outgoing(1, SimpleString(OK)), Outgoing(1, SimpleString(Bar)),
                       Outgoing(1, SimpleString(One)), Outgoing(1, SimpleString(NilText)),
                       Outgoing(1, SimpleString(Zero))]
      && t.server.peers == {}
  {
    var s := NewServer(cfg);
    var e := DirectEvents;
    assert e[..6] == e[..5] + [e[5]] && e == e[..6] + [e[6]];
    DirectFirstFive(cfg);
    RunSnoc(s, e[..5], e[5]);
    RunSnoc(s, e[..6], e[6]);
  }

  /** The five requests on the wire, then end of input. */
  const WireInput: seq<Read> := [Got(Request(Set(Foo, Bar))), Got(Request(Get(Foo))), Got(Request(Del(Foo))),
                                 Got(Request(Get(Foo))), Got(Request(Del(Foo))), EOF]

  /** What the read loop forwards for them: `del` becomes a nil command. */
  const Forwarded: seq<Event> := [Send(Set(Foo, Bar), 1), Send(Get(Foo), 1), Deliver(Message(None, 1)),
                                  Send(Get(Foo), 1), Deliver(Message(None, 1)), Delete(1)]

  lemma WireLoop()
    ensures Drive(1, WireInput) == LoopRun(Forwarded, Closed)
  {
    var input, sent := WireInput, Forwarded;
    DecodeRequest(Set(Foo, Bar), []);
    DecodeRequest(Get(Foo), []);
    DecodeRequest(Del(Foo), []);
    assert Request(Set(Foo, Bar)).items + [] == Request(Set(Foo, Bar)).items;
    assert Request(Get(Foo)).items + [] == Request(Get(Foo)).items;
    assert Request(Del(Foo)).items + [] == Request(Del(Foo)).items;
    assert Drive(1, input[5..]) == LoopRun([Delete(1)], Closed);
    assert input[4..][1..] == input[5..];
    assert Drive(1, input[4..]) == LoopRun(sent[4..], Closed);
    assert input[3..][1..] == input[4..];
    assert Drive(1, input[3..]) == LoopRun(sent[3..], Closed);
    assert input[2..][1..] == input[3..];
    assert Drive(1, input[2..]) == LoopRun(sent[2..], Closed);
    assert input[1..][1..] == input[2..];
    assert Drive(1, input[1..]) == LoopRun(sent[1..], Closed);
  }

  lemma WireDispatch(cfg: Config)
    ensures
      var t := Run(NewServer(cfg), [Add(1)] + Forwarded);
      && t.written == [Outgoing(1, SimpleString(OK)), Outgoing(1, SimpleString(Bar)),
                       Outgoing(1, SimpleString(Bar))]
      && t.server.peers == {}
      && KeyVal.Get(t.server.kv, Foo) == Some(Bar)
  {
    var nil := Deliver(Message(None, 1));
    var s := NewServer(cfg);
    var e1 := [Add(1)];
    var e2 := e1 + [Send(Set(Foo, Bar), 1)];
    var e3 := e2 + [Send(Get(Foo), 1)];
    var e4 := e3 + [nil];
    var e5 := e4 + [Send(Get(Foo), 1)];
    var e6 := e5 + [nil];
    var e7 := e6 + [Delete(1)];
    RunSnoc(s, [], Add(1));
    assert [] + [Add(1)] == e1;
    var t1 := Run(s, e1);
    assert t1.server.peers == {1} && t1.written == [] && t1.server.running;
    RunSnoc(s, e1, Send(Set(Foo, Bar), 1));
    var t2 := Run(s, e2);
    assert KeyVal.Get(t2.server.kv, Foo) == Some(Bar);
    RunSnoc(s, e2, Send(Get(Foo), 1));
    RunSnoc(s, e3, nil);
    var t4 := Run(s, e4);
    assert t4.server.kv == t2.server.kv;
    RunSnoc(s, e4, Send(Get(Foo), 1));
    RunSnoc(s, e5, nil);
    assert Run(s, e6).server.kv == t2.server.kv;
    RunSnoc(s, e6, Delete(1));
    assert e7 == [Add(1)] + Forwarded;
  }

  /** Through the read loop, `del` reaches the server as a nil command: it
      gets no reply and the key stays bound, so both GETs answer bar. */
  lemma WireScenario(cfg: Config)
    ensures
      var loop := Drive(1, WireInput);
      var t := Run(NewServer(cfg), [Add(1)] + loop.sent);
      && loop.end == Closed
      && t.written == [Outgoing(1, SimpleString(OK)), Outgoing(1, SimpleString(Bar)),
                       Outgoing(1, SimpleString(Bar))]
      && t.server.peers == {}
      && KeyVal.Get(t.server.kv, Foo) == Some(Bar)
  {
    WireLoop();
    WireDispatch(cfg);
  }
}
