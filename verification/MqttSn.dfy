/**
 Publishing over the mesh: gateway_cloud_report builds a message with msn_alloc, the gateway
 frames it back with msn_parse_header, dispatches it and takes it apart in handle_publish
 (framework/gateway/mqtt_sn.h and framework/gateway/gateway_service.c).
 The AES step on both sides is its own inverse and is left out; memory is always available.
 */
module MqttSn {
  import opened Wrappers

  type byte = x: nat | x < 256
  type Bytes = seq<byte>

  const ADVERTISE: byte := 0x00
  const CONNECT: byte := 0x04
  const CONNACK: byte := 0x05
  const PUBLISH: byte := 0x0c

  const BUF_LEN: nat := 256

  // A C string's characters, without the terminator.
  predicate NulFree(s: Bytes) {
    forall i :: 0 <= i < |s| ==> s[i] != 0
  }

  const RPT: Bytes := ['r' as nat, 'p' as nat, 't' as nat]
  const GET: Bytes := ['g' as nat, 'e' as nat, 't' as nat]
  const SET: Bytes := ['s' as nat, 'e' as nat, 't' as nat]

  // ---------------------------------------------------------------- framing

  function HeaderLen(msgType: byte): nat {
    if msgType == PUBLISH then 5 else if msgType == CONNECT then 4 else if msgType == CONNACK then 1
    else if msgType == ADVERTISE then 3 else 0
  }

  // msn_alloc: the length byte holds the total plus one, in 8 bits; the rest of the block is whatever
  // malloc returned.
  method MsnAlloc(msgType: byte, payloadLen: nat, heap: Bytes) returns (buf: array<byte>)
    requires |heap| == 2 + HeaderLen(msgType) + payloadLen
    ensures fresh(buf) && buf.Length == |heap|
    ensures buf[..] == [(|heap| + 1) % 256, msgType] + heap[2..]
  {
    buf := new byte[|heap|](i requires 0 <= i < |heap| => heap[i]);
    buf[0] := (|heap| + 1) % 256;
    buf[1] := msgType;
    assert forall i :: 2 <= i < |heap| ==> buf[i] == heap[2..][i - 2];
  }

  // The length that the first byte announces, or the two after it if it is 1.
  function Announced(buf: Bytes): int
    requires buf != [] && (buf[0] == 1 ==> |buf| >= 3)
  {
    if buf[0] == 1 then (buf[1] as int) * 256 + buf[2] else (buf[0] as int) - 1
  }

  // msn_parse_header on the l bytes at buf: the announced length and where the message starts. The length is negative
  // exactly if l is neither the announced length nor three more (or if the length byte is 0).
  method MsnParseHeader(buf: Bytes, l: int) returns (len: int, start: nat)
    requires buf != [] && (buf[0] == 1 ==> |buf| >= 3)
    ensures start == if buf[0] == 1 then 3 else 1
    ensures len < 0 <==> (l != Announced(buf) && l != Announced(buf) + 3) || buf[0] == 0
    ensures len >= 0 ==> len == Announced(buf)
  {
    len := buf[0];
    start := 1;
    if len == 1 {
      len := (buf[1] as int) * 256;
      len := len + buf[2];
      start := 3;
    } else {
      len := len - 1;
    }
    if l != len && l != len + 3 { return -1, start; }
  }

  // ---------------------------------------------------------------- strings inside a message

  // The C string that starts at i, if it ends inside the message.
  function StringAt(m: Bytes, i: nat): (r: Option<Bytes>)
    ensures r.Some? ==>
      NulFree(r.value) && i + |r.value| < |m| && m[i..i + |r.value|] == r.value && m[i + |r.value|] == 0
    decreases |m| - i
  {
    if i >= |m| then None
    else if m[i] == 0 then Some([])
    else match StringAt(m, i + 1)
         case None => None
         case Some(rest) => Some([m[i]] + rest)
  }

  lemma {:induction false} StringAtFinds(m: Bytes, i: nat, s: Bytes)
    requires NulFree(s) && i + |s| < |m| && m[i..i + |s|] == s && m[i + |s|] == 0
    ensures StringAt(m, i) == Some(s)
    decreases |s|
  {
    if s != [] {
      assert m[i] == s[0];
      assert m[i + 1..i + |s|] == s[1..];
      StringAtFinds(m, i + 1, s[1..]);
      assert [s[0]] + s[1..] == s;
    }
  }

  lemma {:induction false} NoTerminator(m: Bytes, i: nat)
    requires forall k :: i <= k < |m| ==> m[k] != 0
    ensures StringAt(m, i).None?
    decreases |m| - i
  {}

  // strlen from position i, on a string that ends inside the message.
  method Strlen(m: Bytes, i: nat) returns (n: Option<nat>)
    ensures n == match StringAt(m, i) case None => None case Some(s) => Some(|s|)
  {
    var j := i;
    while j < |m| && m[j] != 0
      invariant i <= j && (j <= |m| || j == i) && forall k :: i <= k < j ==> m[k] != 0
      decreases |m| - j
    {
      j := j + 1;
    }
    if j >= |m| {
      NoTerminator(m, i);
      return None;
    }
    StringAtFinds(m, i, m[i..j]);
    return Some(j - i);
  }

  // ---------------------------------------------------------------- handle_publish

  datatype Delivery =
    | ToConnect  // handed to handle_connect, handle_connack or handle_adv, or to no one
    | ToConnack
    | ToAdvertise
    | Ignored
    | Truncated  // a string of the message does not end inside it
    | Report(name: Bytes, value: Bytes)
    | Get(name: Bytes)
    | Set(name: Bytes, value: Bytes)
    | Unknown

  // strcmp of the four bytes at i with a three-letter word.
  predicate Spells(m: Bytes, i: nat, word: Bytes)
    requires |word| == 3
  {
    i + 4 <= |m| && m[i..i + 4] == word + [0]
  }

  // What handle_msg and handle_publish make of the message after its length field.
  function Meaning(m: Bytes): Delivery
    requires m != []
  {
    if m[0] == CONNECT then ToConnect
    else if m[0] == CONNACK then ToConnack
    else if m[0] == ADVERTISE then ToAdvertise
    else if m[0] != PUBLISH then Ignored
    else
      match StringAt(m, 10)
      case None => Truncated
      case Some(name) =>
        var value := StringAt(m, 10 + |name| + 1);
        if Spells(m, 6, RPT) then (if value.Some? then Report(name, value.value) else Truncated)
        else if Spells(m, 6, GET) then Get(name)
        else if Spells(m, 6, SET) then (if value.Some? then Set(name, value.value) else Truncated)
        else Unknown
  }

  method HandleMsg(m: Bytes) returns (d: Delivery)
    requires m != []
    ensures d == Meaning(m)
  {
    if m[0] == PUBLISH {
      d := HandlePublish(m);
    } else if m[0] == CONNECT {
      d := ToConnect;
    } else if m[0] == CONNACK {
      d := ToConnack;
    } else if m[0] == ADVERTISE {
      d := ToAdvertise;
    } else {
      d := Ignored;
    }
  }

  method HandlePublish(m: Bytes) returns (d: Delivery)
    requires m != [] && m[0] == PUBLISH
    ensures d == Meaning(m)
  {
    var op := 1 + HeaderLen(PUBLISH);
    var name := op + 4;
    var nameLen := Strlen(m, name);
    if nameLen.None? { return Truncated; }
    var attrName := m[name..name + nameLen.value];
    var value := name + nameLen.value + 1;
    var rpt := Spells(m, op, RPT);
    if !rpt && Spells(m, op, GET) { return Get(attrName); }
    if !rpt && !Spells(m, op, SET) { return Unknown; }
    var valueLen := Strlen(m, value);
    if valueLen.None? { return Truncated; }
    var attrValue := m[value..value + valueLen.value];
    return if rpt then Report(attrName, attrValue) else Set(attrName, attrValue);
  }

  // ---------------------------------------------------------------- gateway_cloud_report

  function ReportPayload(name: Bytes, json: Bytes): Bytes {
    RPT + [0] + name + [0] + json + [0]
  }

  // The whole message; head is what malloc left in the five bytes of the publish header.
  function ReportMessage(name: Bytes, json: Bytes, head: Bytes): Bytes {
    var total := 2 + |head| + |ReportPayload(name, json)|;
    [(total + 1) % 256, PUBLISH] + head + ReportPayload(name, json)
  }

  method MemCpy(buf: array<byte>, at: nat, data: Bytes)
    requires at + |data| <= buf.Length
    modifies buf
    ensures buf[..at + |data|] == old(buf[..at]) + data
  {
    for i := 0 to |data|
      invariant forall k :: 0 <= k < buf.Length ==> buf[k] == if at <= k < at + i then data[k - at] else old(buf[k])
    {
      buf[at + i] := data[i];
    }
  }

  lemma ReportAssembled(name: Bytes, json: Bytes, heap: Bytes, head: Bytes)
    requires |heap| == 2 + 5 + |ReportPayload(name, json)| && head == [(|heap| + 1) % 256, PUBLISH] + heap[2..7]
    ensures head + (RPT + [0]) + (name + [0]) + (json + [0]) == ReportMessage(name, json, heap[2..7])
  {}

  // gateway_cloud_report: nothing is sent when the gateway is itself connected, or before it is.
  method CloudReport(name: Bytes, json: Bytes, yunioConnected: bool, mqttConnected: bool, heap: Bytes)
    returns (ret: int, sent: Option<Bytes>)
    requires NulFree(name) && NulFree(json) && |heap| == 2 + 5 + |ReportPayload(name, json)|
    ensures ret == if !yunioConnected && !mqttConnected then -1 else 0
    ensures sent == if yunioConnected || !mqttConnected then None else Some(ReportMessage(name, json, heap[2..7]))
  {
    if yunioConnected { return 0, None; }
    if !mqttConnected { return -1, None; }
    var sz := 4 + |name| + 1 + |json| + 1;
    var buf := MsnAlloc(PUBLISH, sz, heap);
    ghost var head := buf[..7];
    assert head == [(|heap| + 1) % 256, PUBLISH] + heap[2..7];
    MemCpy(buf, 7, RPT + [0]);
    MemCpy(buf, 7 + 4, name + [0]);
    MemCpy(buf, 7 + 4 + |name| + 1, json + [0]);
    assert buf[..] == buf[..|heap|] == head + (RPT + [0]) + (name + [0]) + (json + [0]);
    ReportAssembled(name, json, heap, head);
    return 0, Some(buf[..]);
  }

  // ---------------------------------------------------------------- there and back

  // At most BUF_LEN bytes of a datagram arrive.
  function Arrived(datagram: Bytes): nat {
    if |datagram| < BUF_LEN then |datagram| else BUF_LEN
  }

  // The header check: the announced length is what arrived, or three less.
  predicate Accepted(datagram: Bytes)
    requires |datagram| > 2
  {
    var l, announced := Arrived(datagram), Announced(datagram);
    announced >= 0 && (l == announced || l == announced + 3)
  }

  // What is made of a datagram, if its header is accepted.
  function Receive(datagram: Bytes): Option<Delivery> {
    if |datagram| <= 2 || !Accepted(datagram) then None
    else
      var l, start := Arrived(datagram), if datagram[0] == 1 then 3 else 1;
      if start >= l then None else Some(Meaning(datagram[start..l]))
  }

  // gateway_sock_read_cb
  method SockRead(datagram: Bytes) returns (d: Option<Delivery>)
    ensures d == Receive(datagram)
  {
    var l := Arrived(datagram);
    if l <= 2 { return None; }
    var len, start := MsnParseHeader(datagram, l);
    if len < 0 || start >= l { return None; }
    var delivery := HandleMsg(datagram[start..l]);
    return Some(delivery);
  }

  lemma ReportLayout(name: Bytes, json: Bytes, head: Bytes)
    requires |head| == 5
    ensures var m := ReportMessage(name, json, head)[1..];
            && m != [] && m[0] == PUBLISH && Spells(m, 6, RPT) && |m| == 1 + 5 + 4 + |name| + 1 + |json| + 1
            && m[10..10 + |name|] == name && m[10 + |name|] == 0
            && m[10 + |name| + 1..10 + |name| + 1 + |json|] == json && m[10 + |name| + 1 + |json|] == 0
  {
    var m := ReportMessage(name, json, head)[1..];
    var front := [PUBLISH] + head + RPT + [0];
    assert m == front + name + [0] + json + [0];
    assert front[6..10] == RPT + [0];
    assert m[..10] == front;
    assert m[6..10] == front[6..10];
  }

  // Taking a report apart gives its two strings back.
  lemma ReportMeaning(name: Bytes, json: Bytes, head: Bytes)
    requires NulFree(name) && NulFree(json) && |head| == 5
    ensures Meaning(ReportMessage(name, json, head)[1..]) == Report(name, json)
  {
    ReportLayout(name, json, head);
    var m := ReportMessage(name, json, head)[1..];
    StringAtFinds(m, 10, name);
    StringAtFinds(m, 10 + |name| + 1, json);
  }

  // A report passes the header check exactly if it is at most 254 bytes long, or longer than the receive buffer with
  // 253 modulo 256.
  lemma HeaderAcceptsIff(name: Bytes, json: Bytes, head: Bytes)
    requires |head| == 5
    ensures var m := ReportMessage(name, json, head);
            Accepted(m) <==> |m| <= 254 || (|m| > BUF_LEN && |m| % 256 == 253)
  {}

  // A report is delivered exactly as it was sent if and only if it is at most 254 bytes long.
  lemma ReportRoundTrip(name: Bytes, json: Bytes, head: Bytes)
    requires NulFree(name) && NulFree(json) && |head| == 5
    ensures Receive(ReportMessage(name, json, head)) == Some(Report(name, json)) <==>
      |ReportMessage(name, json, head)| <= 254
  {
    var m := ReportMessage(name, json, head);
    if |m| <= 254 {
      ReportMeaning(name, json, head);
      assert m[1..|m|] == m[1..];
    } else if Receive(m).Some? {
      LongReportIsCut(name, json, head);
    }
  }

  // A longer report, cut to the receive buffer, is never delivered whole.
  lemma LongReportIsCut(name: Bytes, json: Bytes, head: Bytes)
    requires NulFree(name) && NulFree(json) && |head| == 5 && |ReportMessage(name, json, head)| > 254
    ensures Receive(ReportMessage(name, json, head)) != Some(Report(name, json))
  {}
}
