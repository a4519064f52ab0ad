/** The RESP simple-string framing `+text\r\n`, together with the reader that
    recovers `text`. The RESP writer's `WriteString`, which every reply but
    HELLO's goes through, is taken to emit this framing. */
module Resp {

  import opened Bytes
  import opened Options

  const PLUS: byte := '+' as byte

  predicate NoCR(s: Bytes) {
    forall i :: 0 <= i < |s| ==> s[i] != CR
  }

  /** `+text\r\n`. */
  function SimpleString(text: Bytes): (r: Bytes)
    ensures |r| == |text| + 3
    ensures r[0] == PLUS && r[1..|r| - 2] == text && r[|r| - 2..] == CRLF
  {
    [PLUS] + text + CRLF
  }

  /** Index of the first CR at or after `from`, or `|b|` when there is none. */
  function FindCR(b: Bytes, from: nat): (r: nat)
    requires from <= |b|
    ensures from <= r <= |b|
    ensures r < |b| ==> b[r] == CR
    ensures forall j :: from <= j < r ==> b[j] != CR
    decreases |b| - from
  {
    if from == |b| || b[from] == CR then from else FindCR(b, from + 1)
  }

  /** A CR preceded only by non-CR bytes is the one `FindCR` finds. */
  lemma FindCRAt(b: Bytes, from: nat, i: nat)
    requires from <= i < |b| && b[i] == CR
    requires forall j :: from <= j < i ==> b[j] != CR
    ensures FindCR(b, from) == i
  {
  }

  /** Reads one simple string off the front of `b`: its text and what follows. */
  function ParseSimple(b: Bytes): Option<(Bytes, Bytes)>
  {
    if |b| == 0 || b[0] != PLUS then None
    else
      var i := FindCR(b, 1);
      if i + 1 < |b| && b[i + 1] == LF then Some((b[1..i], b[i + 2..])) else None
  }

  /** A simple string whose text holds no CR reads back as that text. */
  lemma SimpleStringRoundTrip(text: Bytes, rest: Bytes)
    requires NoCR(text)
    ensures ParseSimple(SimpleString(text) + rest) == Some((text, rest))
  {
    var b := SimpleString(text) + rest;
    FindCRAt(b, 1, |text| + 1);
    assert b[1..|text| + 1] == text;
    assert b[|text| + 3..] == rest;
  }
}
