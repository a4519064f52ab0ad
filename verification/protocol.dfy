/** The command vocabulary of protocol.go and its map-reply encoder
    `respWriteMap`. */
module Protocol {

  import opened Bytes
  import opened Options
  import opened Resp

  const HelloToken: Bytes := Ascii("hello")
  const ClientToken: Bytes := Ascii("client")
  const SetToken: Bytes := Ascii("set")
  const GetToken: Bytes := Ascii("get")
  const DelToken: Bytes := Ascii("del")

  const Tokens: seq<Bytes> := [HelloToken, ClientToken, SetToken, GetToken, DelToken]

  predicate IsLower(s: Bytes) {
    forall i :: 0 <= i < |s| ==> 'a' as byte <= s[i] <= 'z' as byte
  }

  /** The five command tokens are pairwise distinct, non-empty lower-case words. */
  lemma TokensDistinctLower()
    ensures |Tokens| == 5
    ensures forall i, j :: 0 <= i < j < |Tokens| ==> Tokens[i] != Tokens[j]
    ensures forall i :: 0 <= i < |Tokens| ==> |Tokens[i]| > 0 && IsLower(Tokens[i])
  {
    assert HelloToken[0] != ClientToken[0] && HelloToken[0] != SetToken[0];
    assert HelloToken[0] != GetToken[0] && HelloToken[0] != DelToken[0];
    assert ClientToken[0] != SetToken[0] && ClientToken[0] != GetToken[0];
    assert ClientToken[0] != DelToken[0] && SetToken[0] != GetToken[0];
    assert SetToken[0] != DelToken[0] && GetToken[0] != DelToken[0];
  }

  /** The closed set of commands a peer can send. */
  datatype Command =
    | Hello(val: Bytes)
    | Client(val: Bytes)
    | Set(key: Bytes, val: Bytes)
    | Get(key: Bytes)
    | Del(key: Bytes)

  /** The token that names a command's variant on the wire. */
  function Token(c: Command): (t: Bytes)
    ensures t in Tokens
  {
    match c
    case Hello(_) => HelloToken
    case Client(_) => ClientToken
    case Set(_, _) => SetToken
    case Get(_) => GetToken
    case Del(_) => DelToken
  }

  /** Two commands share a token exactly when they are the same variant. */
  lemma TokenNamesVariant(c: Command, d: Command)
    ensures Token(c) == Token(d) <==> (
      || (c.Hello? && d.Hello?) || (c.Client? && d.Client?) || (c.Set? && d.Set?)
      || (c.Get? && d.Get?) || (c.Del? && d.Del?))
  {
    if Token(c) == Token(d) {
      assert Token(c)[0] == Token(d)[0];
    }
  }

  // ---- respWriteMap ------------------------------------------------------

  const PERCENT: byte := '%' as byte
  const COLON: byte := ':' as byte

  predicate Distinct(order: seq<Bytes>) {
    forall i, j :: 0 <= i < j < |order| ==> order[i] != order[j]
  }

  predicate KeysIn(order: seq<Bytes>, m: map<Bytes, Bytes>) {
    forall i :: 0 <= i < |order| ==> order[i] in m
  }

  /** `order` lists every key of `m` exactly once: one possible iteration
      order of a Go `range` over the map. */
  predicate IsEnumeration(order: seq<Bytes>, m: map<Bytes, Bytes>) {
    Distinct(order) && KeysIn(order, m) && forall k :: k in m ==> k in order
  }

  /** The map-reply header `%<count>\r\n`. */
  function Header(count: nat): (h: Bytes)
    ensures |h| == |Decimal(count)| + 3 && h[0] == PERCENT
    ensures h[1..|h| - 2] == Decimal(count) && h[|h| - 2..] == CRLF
  {
    [PERCENT] + Decimal(count) + CRLF
  }

  /** One entry: the key, then `:` and the value, each as a simple string. */
  function Entry(k: Bytes, v: Bytes): (r: Bytes)
    ensures |r| == |k| + |v| + 7
    ensures r[0] == PLUS && r[1..|k| + 1] == k && r[|k| + 1..|k| + 3] == CRLF
    ensures r[|k| + 3] == PLUS && r[|k| + 4] == COLON
    ensures r[|k| + 5..|r| - 2] == v && r[|r| - 2..] == CRLF
  {
    SimpleString(k) + SimpleString([COLON] + v)
  }

  /** The size of the entries, counted entry by entry: `+k\r\n` is |k|+3 bytes
      and `+:v\r\n` is |v|+4 bytes. */
  function SizeOf(m: map<Bytes, Bytes>, order: seq<Bytes>): nat
    requires KeysIn(order, m)
  {
    if order == [] then 0 else (|order[0]| + 3) + (|m[order[0]]| + 4) + SizeOf(m, order[1..])
  }

  function Entries(m: map<Bytes, Bytes>, order: seq<Bytes>): (r: Bytes)
    requires KeysIn(order, m)
    ensures |r| == SizeOf(m, order)
  {
    if order == [] then [] else Entry(order[0], m[order[0]]) + Entries(m, order[1..])
  }

  /** `respWriteMap(m)` when the Go runtime happens to iterate `m` in `order`. */
  function RespWriteMap(m: map<Bytes, Bytes>, order: seq<Bytes>): (r: Bytes)
    requires IsEnumeration(order, m)
    ensures |r| == |Header(|m|)| + SizeOf(m, order)
    ensures r[0] == PERCENT
    ensures r[..|Header(|m|)|] == Header(|m|)
    ensures m == map[] ==> r == Ascii("%0\r\n")
  {
    var r := Header(|m|) + Entries(m, order);
    assert r[..|Header(|m|)|] == Header(|m|);
    assert m == map[] ==> r == Ascii("%0\r\n") by {
      if m == map[] {
        EnumerationSize(order, m);
        assert Decimal(0) == [Digit(0)];
      }
    }
    r
  }

  /** Removing the entry at position `j` removes exactly its size. */
  lemma {:induction false} SizeOfRemove(m: map<Bytes, Bytes>, order: seq<Bytes>, j: nat)
    requires KeysIn(order, m) && j < |order|
    ensures KeysIn(order[..j] + order[j + 1..], m)
    ensures SizeOf(m, order) == (|order[j]| + 3) + (|m[order[j]]| + 4) + SizeOf(m, order[..j] + order[j + 1..])
    decreases j
  {
    var rest := order[..j] + order[j + 1..];
    assert forall i :: 0 <= i < |rest| ==> rest[i] in order;
    if j == 0 {
      assert rest == order[1..];
    } else {
      SizeOfRemove(m, order[1..], j - 1);
      assert rest == [order[0]] + (order[1..][..j - 1] + order[1..][j..]);
    }
  }

  /** Dropping position `j` of a duplicate-free order drops exactly that key. */
  lemma RemoveAt(o: seq<Bytes>, j: nat)
    requires Distinct(o) && j < |o|
    ensures Distinct(o[..j] + o[j + 1..])
    ensures forall x :: x in o[..j] + o[j + 1..] <==> x in o && x != o[j]
  {
    var rest := o[..j] + o[j + 1..];
    assert forall i :: 0 <= i < |rest| ==> rest[i] == (if i < j then o[i] else o[i + 1]);
    forall x | x in o && x != o[j] ensures x in rest {
      var b :| 0 <= b < |o| && o[b] == x;
      if b < j { assert rest[b] == x; } else { assert rest[b - 1] == x; }
    }
  }

  /** Any two iteration orders of the same keys give entries of the same size. */
  lemma {:induction false} SizeOfOrderIndependent(m: map<Bytes, Bytes>, o1: seq<Bytes>, o2: seq<Bytes>)
    requires KeysIn(o1, m) && KeysIn(o2, m) && Distinct(o1) && Distinct(o2)
    requires |o1| == |o2| && forall k :: k in o1 <==> k in o2
    ensures SizeOf(m, o1) == SizeOf(m, o2)
    decreases |o1|
  {
    if o1 != [] {
      var k := o1[0];
      assert k in o2;
      var j :| 0 <= j < |o2| && o2[j] == k;
      var rest2 := o2[..j] + o2[j + 1..];
      SizeOfRemove(m, o2, j);
      RemoveAt(o2, j);
      RemoveAt(o1, 0);
      assert o1[..0] + o1[1..] == o1[1..];
      forall x ensures x in o1[1..] <==> x in rest2 {
        assert x in o1[..0] + o1[1..] <==> x in o1 && x != k;
        assert x in rest2 <==> x in o2 && x != k;
      }
      SizeOfOrderIndependent(m, o1[1..], rest2);
    }
  }

  /** The reply's length does not depend on the order in which Go happened to
      iterate over the map. */
  lemma RespWriteMapLengthOrderIndependent(m: map<Bytes, Bytes>, o1: seq<Bytes>, o2: seq<Bytes>)
    requires IsEnumeration(o1, m) && IsEnumeration(o2, m)
    ensures |RespWriteMap(m, o1)| == |RespWriteMap(m, o2)|
  {
    EnumerationSize(o1, m);
    EnumerationSize(o2, m);
    SizeOfOrderIndependent(m, o1, o2);
  }

  // ---- reading a map reply back ----------------------------------------

  /** The entries of `m` in iteration order, as key-value pairs. */
  function Pairs(m: map<Bytes, Bytes>, order: seq<Bytes>): (ps: seq<(Bytes, Bytes)>)
    requires KeysIn(order, m)
    ensures |ps| == |order|
    ensures forall i :: 0 <= i < |order| ==> ps[i] == (order[i], m[order[i]])
  {
    seq(|order|, i requires 0 <= i < |order| => (order[i], m[order[i]]))
  }

  /** Reads `count` entries, each a key simple string followed by a simple
      string that starts with `:`, and expects nothing after them. */
  function ParseEntries(b: Bytes, count: nat): Option<seq<(Bytes, Bytes)>>
    decreases count
  {
    if count == 0 then (if b == [] then Some([]) else None)
    else match ParseSimple(b)
      case None => None
      case Some((k, rest)) =>
        match ParseSimple(rest)
        case None => None
        case Some((cv, rest')) =>
          if |cv| == 0 || cv[0] != COLON then None
          else match ParseEntries(rest', count - 1)
            case None => None
            case Some(es) => Some([(k, cv[1..])] + es)
  }

  /** Reads a whole map reply: the header, then as many entries as it counts. */
  function ParseMapReply(b: Bytes): Option<seq<(Bytes, Bytes)>>
  {
    if |b| == 0 || b[0] != PERCENT then None
    else
      var i := FindCR(b, 1);
      if i == 1 || i + 1 >= |b| || b[i + 1] != LF || !AllDigits(b[1..i]) then None
      else ParseEntries(b[i + 2..], ParseDecimal(b[1..i]))
  }

  predicate CRFree(m: map<Bytes, Bytes>) {
    forall k :: k in m ==> NoCR(k) && NoCR(m[k])
  }

  /** One entry whose key and value hold no CR reads back as that pair,
      ahead of whatever the remaining entries read as. */
  lemma ParseEntry(k: Bytes, v: Bytes, tail: Bytes, count: nat)
    requires NoCR(k) && NoCR(v)
    ensures ParseEntries(Entry(k, v) + tail, count + 1) ==
      match ParseEntries(tail, count)
      case None => None
      case Some(es) => Some([(k, v)] + es)
  {
    var cv := [COLON] + v;
    assert NoCR(cv) by {
      assert forall i :: 1 <= i < |cv| ==> cv[i] == v[i - 1];
    }
    assert Entry(k, v) + tail == SimpleString(k) + (SimpleString(cv) + tail);
    SimpleStringRoundTrip(k, SimpleString(cv) + tail);
    SimpleStringRoundTrip(cv, tail);
    assert cv[1..] == v;
  }

  lemma {:induction false} EntriesRoundTrip(m: map<Bytes, Bytes>, order: seq<Bytes>)
    requires KeysIn(order, m) && CRFree(m)
    ensures ParseEntries(Entries(m, order), |order|) == Some(Pairs(m, order))
    decreases |order|
  {
    if order != [] {
      var k := order[0];
      assert k in m;
      ParseEntry(k, m[k], Entries(m, order[1..]), |order| - 1);
      EntriesRoundTrip(m, order[1..]);
      assert Pairs(m, order) == [(k, m[k])] + Pairs(m, order[1..]);
    }
  }

  /** A map that enumerates as `order` has exactly `|order|` entries. */
  lemma {:induction false} EnumerationSize(order: seq<Bytes>, m: map<Bytes, Bytes>)
    requires IsEnumeration(order, m)
    ensures |order| == |m|
    decreases |order|
  {
    if order == [] {
      assert m.Keys == {} by {
        forall k | k in m.Keys ensures false {
        }
      }
    } else {
      var k := order[0];
      var m' := m - {k};
      assert forall x :: x in m' <==> x in order[1..] by {
        forall x ensures x in m' <==> x in order[1..] {
          if x in order[1..] {
            var a :| 0 <= a < |order[1..]| && order[1..][a] == x;
            assert order[a + 1] == x;
          }
          if x in m' {
            assert x in order;
            var a :| 0 <= a < |order| && order[a] == x;
            assert a != 0;
            assert order[1..][a - 1] == x;
          }
        }
      }
      EnumerationSize(order[1..], m');
      assert m'.Keys == m.Keys - {k};
    }
  }

  /** Reading the encoder's output back yields the map's entries, in the order
      they were written, whenever no key or value holds a CR byte (a simple
      string cannot carry one). */
  lemma MapReplyRoundTrip(m: map<Bytes, Bytes>, order: seq<Bytes>)
    requires IsEnumeration(order, m) && CRFree(m)
    ensures ParseMapReply(RespWriteMap(m, order)) == Some(Pairs(m, order))
  {
    assert KeysIn(order, m);
    var d := Decimal(|m|);
    var e := Entries(m, order);
    var b := RespWriteMap(m, order);
    assert b == [PERCENT] + d + CRLF + e;
    FindCRAt(b, 1, |d| + 1);
    assert b[1..|d| + 1] == d;
    assert b[|d| + 3..] == e;
    DecimalRoundTrip(|m|);
    EnumerationSize(order, m);
    EntriesRoundTrip(m, order);
  }
}
