/** The per-connection read loop of peer.go: each decoded RESP value becomes
    at most one message for the server, and end of input announces the
    peer's removal. The RESP reader itself is outside the model: the loop is
    given the sequence of results it would have returned. */
module Peer {

  import opened Bytes
  import opened Options
  import opened Protocol
  import opened Dispatch

  /** A value the RESP reader returned: an array, given by the bytes of its
      elements, or any value that is not an array. */
  datatype Value = Array(items: seq<Bytes>) | Scalar

  /** One result of `ReadValue`. */
  datatype Read = Got(v: Value) | EOF | Failed

  /** What the read loop does with one value: forward a message carrying the
      command (nil for an unrecognised token), forward nothing (not an array),
      or panic on an index beyond the end of the array. */
  datatype Decoded = Forward(cmd: Option<Command>) | NoMessage | Panic

  /** The array length the Go code indexes up to for a given first element:
      for a decoded token, the length of the request that token frames. */
  function Needs(token: Bytes): (n: nat)
    ensures 1 <= n <= 3
    ensures forall c: Command :: !c.Del? && Token(c) == token ==> n == |Request(c).items|
    ensures token !in {HelloToken, ClientToken, SetToken, GetToken} ==> n == 1
  {
    TokensDistinctLower();
    assert Tokens[0] == HelloToken && Tokens[1] == ClientToken && Tokens[2] == SetToken && Tokens[3] == GetToken;
    if token == SetToken then 3
    else if token == GetToken || token == HelloToken || token == ClientToken then 2
    else 1
  }

  /** How a client frames a command: the token, then the arguments. */
  function Request(c: Command): (v: Value)
    ensures v.Array? && |v.items| >= 1 && v.items[0] == Token(c)
  {
    match c
    case Hello(val) => Array([HelloToken, val])
    case Client(val) => Array([ClientToken, val])
    case Set(key, val) => Array([SetToken, key, val])
    case Get(key) => Array([GetToken, key])
    case Del(key) => Array([DelToken, key])
  }

  /** The decode step of `readLoop`. No arity is checked: a short array makes
      the Go code index past its end and panic. */
  function Decode(v: Value): (r: Decoded)
    ensures r.NoMessage? <==> !v.Array?
    ensures r.Panic? <==> v.Array? && (|v.items| == 0 || |v.items| < Needs(v.items[0]))
    ensures r.Forward? && r.cmd.Some? ==>
      && !r.cmd.value.Del?
      && Request(r.cmd.value).items <= v.items
    ensures r.Forward? && r.cmd.None? ==>
      v.items[0] !in {HelloToken, ClientToken, SetToken, GetToken}
  {
    match v
    case Scalar => NoMessage
    case Array(items) =>
      if |items| == 0 then Panic
      else if |items| < Needs(items[0]) then Panic
      else if items[0] == GetToken then Forward(Some(Get(items[1])))
      else if items[0] == SetToken then Forward(Some(Set(items[1], items[2])))
      else if items[0] == HelloToken then Forward(Some(Hello(items[1])))
      else if items[0] == ClientToken then Forward(Some(Client(items[1])))
      else Forward(None)
  }

  /** A framed command decodes to itself, whatever trailing arguments follow,
      except DEL, whose token has no case in the decoder: it is forwarded as
      a nil command. */
  lemma DecodeRequest(c: Command, extra: seq<Bytes>)
    ensures Decode(Array(Request(c).items + extra)) ==
      if c.Del? then Forward(None) else Forward(Some(c))
  {
    TokensDistinctLower();
    assert Tokens[4] == DelToken;
    var items := Request(c).items + extra;
    assert items[0] == Token(c);
  }

  /** Token matching is exact: any first element that is not byte for byte
      one of the four decoded tokens (an upper-case `GET`, say, or `del`)
      yields a nil command, which is still forwarded. */
  lemma UnknownTokenForwardsNil(items: seq<Bytes>)
    requires |items| >= 1 && items[0] !in {HelloToken, ClientToken, SetToken, GetToken}
    ensures Decode(Array(items)) == Forward(None)
  {
  }

  /** How the loop ended, if it has: `Reading` while input remains possible,
      `Closed` after end of input (the loop returns nil), `Fatal` after a read
      error (`log.Fatal` ends the process), `Panicked` after a short array. */
  datatype End = Reading | Closed | Fatal | Panicked

  /** What the loop sent, in order, and how it ended. */
  datatype LoopRun = LoopRun(sent: seq<Event>, end: End)

  /** A read result after which the loop does not go on. */
  predicate Stops(r: Read) {
    r.EOF? || r.Failed? || (r.Got? && Decode(r.v).Panic?)
  }

  /** `readLoop` over the results the reader returns, in order. */
  function Drive(p: PeerId, input: seq<Read>): (r: LoopRun)
    ensures |r.sent| <= |input|
    decreases |input|
  {
    if input == [] then LoopRun([], Reading)
    else
      var rest := input[1..];
      match input[0]
      case EOF => LoopRun([Delete(p)], Closed)
      case Failed => LoopRun([], Fatal)
      case Got(v) =>
        match Decode(v)
        case Panic => LoopRun([], Panicked)
        case NoMessage => Drive(p, rest)
        case Forward(c) =>
          var r := Drive(p, rest);
          LoopRun([Deliver(Message(c, p))] + r.sent, r.end)
  }

  /** What the loop sends: every event but the last is a message from this
      peer, and the loop is closed exactly when its last event is this peer's
      deletion, which therefore comes once. */
  lemma {:induction false} DriveShape(p: PeerId, input: seq<Read>)
    ensures var r := Drive(p, input);
      && (forall i :: 0 <= i < |r.sent| ==>
            || (r.sent[i].Deliver? && r.sent[i].msg.peer == p)
            || (r.sent[i] == Delete(p) && i == |r.sent| - 1 && r.end == Closed))
      && (r.end == Closed <==> |r.sent| > 0 && r.sent[|r.sent| - 1] == Delete(p))
    decreases |input|
  {
    if input != [] {
      DriveShape(p, input[1..]);
    }
  }

  /** The loop is still reading exactly when none of the reads stops it. */
  lemma {:induction false} DriveReading(p: PeerId, input: seq<Read>)
    ensures Drive(p, input).end == Reading <==> forall i :: 0 <= i < |input| ==> !Stops(input[i])
    decreases |input|
  {
    if input != [] {
      var rest := input[1..];
      assert forall i :: 0 <= i < |rest| ==> rest[i] == input[i + 1];
      DriveReading(p, rest);
    }
  }

  /** The read loop as written, one iteration per value read. */
  method ReadLoop(p: PeerId, input: seq<Read>) returns (sent: seq<Event>, end: End)
    ensures LoopRun(sent, end) == Drive(p, input)
  {
    sent := [];
    end := Reading;
    var i := 0;
    while i < |input| && end == Reading
      invariant 0 <= i <= |input|
      invariant end == Reading ==>
        Drive(p, input) == LoopRun(sent + Drive(p, input[i..]).sent, Drive(p, input[i..]).end)
      invariant end != Reading ==> Drive(p, input) == LoopRun(sent, end)
    {
      assert input[i..][0] == input[i] && input[i..][1..] == input[i + 1..];
      match input[i] {
        case EOF =>
          sent := sent + [Delete(p)];
          end := Closed;
        case Failed =>
          end := Fatal;
        case Got(v) =>
          match Decode(v) {
            case Panic =>
              end := Panicked;
            case NoMessage =>
            case Forward(c) =>
              sent := sent + [Deliver(Message(c, p))];
          }
      }
      i := i + 1;
    }
    if end == Reading {
      assert input[i..] == [];
      assert sent + [] == sent;
    }
  }

  /** Reading in two stretches, the first of which did not stop the loop,
      sends the first stretch's events followed by the second's: messages
      leave in the order their values were read. */
  lemma {:induction false} DriveAppend(p: PeerId, a: seq<Read>, b: seq<Read>)
    requires Drive(p, a).end == Reading
    ensures Drive(p, a + b) == LoopRun(Drive(p, a).sent + Drive(p, b).sent, Drive(p, b).end)
    decreases |a|
  {
    if a == [] {
      assert a + b == b;
    } else {
      var ab := a + b;
      assert ab[0] == a[0] && ab[1..] == a[1..] + b;
      match a[0]
      case Got(v) =>
        match Decode(v) {
          case NoMessage =>
            DriveAppend(p, a[1..], b);
          case Forward(c) =>
            DriveAppend(p, a[1..], b);
            var m := Deliver(Message(c, p));
            assert [m] + (Drive(p, a[1..]).sent + Drive(p, b).sent)
                == ([m] + Drive(p, a[1..]).sent) + Drive(p, b).sent;
          case Panic =>
            assert false;
        }
      case EOF =>
        assert false;
      case Failed =>
        assert false;
    }
  }

  /** Nothing read after a value that stops the loop is looked at. */
  lemma {:induction false} DriveStops(p: PeerId, a: seq<Read>, stop: Read, b: seq<Read>)
    requires Drive(p, a).end == Reading && Stops(stop)
    ensures Drive(p, a + [stop] + b) == Drive(p, a + [stop])
  {
    DriveAppend(p, a, [stop] + b);
    DriveAppend(p, a, [stop]);
    assert a + [stop] + b == a + ([stop] + b);
  }

  /** End of input, reached without an earlier stop, announces the peer's
      deletion exactly once, as the last event, and closes the loop. */
  lemma DriveEOF(p: PeerId, a: seq<Read>, b: seq<Read>)
    requires Drive(p, a).end == Reading
    ensures Drive(p, a + [EOF] + b) == LoopRun(Drive(p, a).sent + [Delete(p)], Closed)
  {
    DriveStops(p, a, EOF, b);
    DriveAppend(p, a, [EOF]);
  }
}
