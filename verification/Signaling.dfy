/** The line-oriented signaling protocol: what a text means. */
module SignalText {
  import opened Wrappers

  // ---------- Hexadecimal ----------

  function HexDigit(v: int): char
    requires 0 <= v < 16
  {
    if v < 10 then (v + 48) as char else (v + 87) as char
  }

  /** The value of a digit in either case, or -1. */
  function HexDigitVal(c: char): int {
    if '0' <= c <= '9' then c as int - 48
    else if 'a' <= c <= 'f' then c as int - 87
    else if 'A' <= c <= 'F' then c as int - 55
    else -1
  }

  function HexEncode(data: seq<Byte>): string {
    if data == [] then "" else [HexDigit(data[0] / 16), HexDigit(data[0] % 16)] + HexEncode(data[1..])
  }

  /** The bytes that pairs of digits stand for; an odd character at the end is ignored. */
  function HexDecode(s: string): Option<seq<Byte>> {
    if |s| < 2 then Some([])
    else if HexDigitVal(s[0]) < 0 || HexDigitVal(s[1]) < 0 then None
    else
      var rest :- HexDecode(s[2..]);
      Some([HexDigitVal(s[0]) * 16 + HexDigitVal(s[1])] + rest)
  }

  lemma DigitRoundTrip(v: int)
    requires 0 <= v < 16
    ensures HexDigitVal(HexDigit(v)) == v && HexDigit(v) != '\n' && HexDigit(v) != ' '
  {
  }

  lemma PairRoundTrip(d: Byte, rest: string)
    ensures var s := [HexDigit(d / 16), HexDigit(d % 16)] + rest;
            HexDecode(s) == if HexDecode(rest).None? then None else Some([d] + HexDecode(rest).value)
  {
    DigitRoundTrip(d / 16);
    DigitRoundTrip(d % 16);
    hide HexDigit, HexDigitVal;
    var s := [HexDigit(d / 16), HexDigit(d % 16)] + rest;
    assert s[2..] == rest;
  }

  lemma {:induction false} HexRoundTrip(data: seq<Byte>)
    ensures HexDecode(HexEncode(data)) == Some(data)
    ensures '\n' !in HexEncode(data) && ' ' !in HexEncode(data)
  {
    if data != [] {
      hide HexDigit, HexDecode;
      DigitRoundTrip(data[0] / 16);
      DigitRoundTrip(data[0] % 16);
      HexRoundTrip(data[1..]);
      PairRoundTrip(data[0], HexEncode(data[1..]));
      assert [data[0]] + data[1..] == data;
    }
  }

  const HEX := "0123456789abcdef"

  lemma HexDigitIs(v: int)
    requires 0 <= v < 16
    ensures HexDigit(v) == HEX[v]
  {
  }

  /** A character is a digit of value v iff it is written so in lower or upper case. */
  lemma HexValueIs(c: char, v: int)
    requires 0 <= v < 16
    ensures HexDigitVal(c) == v <==> c == HEX[v] || c == "0123456789ABCDEF"[v]
    ensures -1 <= HexDigitVal(c) < 16
  {
  }

  /** Two digits a byte, the high one first. */
  lemma {:induction false} HexEncodeIs(data: seq<Byte>, i: nat)
    requires i < |data|
    ensures |HexEncode(data)| == 2 * |data|
    ensures HexEncode(data)[2 * i] == HEX[data[i] / 16] && HexEncode(data)[2 * i + 1] == HEX[data[i] % 16]
    decreases |data|
  {
    hide HexDigit;
    if i > 0 {
      HexEncodeIs(data[1..], i - 1);
    } else {
      HexDigitIs(data[0] / 16);
      HexDigitIs(data[0] % 16);
      HexLength(data[1..]);
    }
    hide HEX;
  }

  lemma {:induction false} HexLength(data: seq<Byte>)
    ensures |HexEncode(data)| == 2 * |data|
  {
    if data != [] {
      HexLength(data[1..]);
    }
  }

  /** Decoding succeeds iff all pairs are digits; each pair gives its byte. */
  lemma {:induction false} HexDecodeIs(s: string)
    ensures HexDecode(s).Some? <==> forall i | 0 <= i < |s| / 2 * 2 :: HexDigitVal(s[i]) >= 0
    ensures HexDecode(s).Some? ==>
              && |HexDecode(s).value| == |s| / 2
              && forall i | 0 <= i < |s| / 2 ::
                   HexDecode(s).value[i] == HexDigitVal(s[2 * i]) * 16 + HexDigitVal(s[2 * i + 1])
    decreases |s|
  {
    hide HexDigitVal;
    if |s| >= 2 {
      var rest := s[2..];
      HexDecodeIs(rest);
      assert |rest| / 2 == |s| / 2 - 1;
      assert forall i | 0 <= i < |rest| / 2 * 2 :: rest[i] == s[i + 2];
      assert forall i | 2 <= i < |s| / 2 * 2 :: s[i] == rest[i - 2];
    }
  }

  // ---------- Lines ----------

  /** Where c first occurs in s, or the length of s. */
  function Find(s: string, c: char): (i: nat)
    ensures i <= |s| && c !in s[..i] && (i < |s| ==> s[i] == c)
  {
    if s == "" || s[0] == c then 0
    else
      var i := Find(s[1..], c);
      assert s[..i + 1] == [s[0]] + s[1..][..i];
      i + 1
  }

  lemma {:induction false} FindIs(s: string, c: char, i: nat)
    requires i <= |s| && c !in s[..i] && (i < |s| ==> s[i] == c)
    ensures Find(s, c) == i
    decreases i
  {
    if i > 0 {
      assert s[..i] == [s[0]] + s[1..][..i - 1];
      FindIs(s[1..], c, i - 1);
    }
  }

  /** The payload of a line without its line end: what follows the first space. */
  function Payload(line: string): Option<seq<Byte>> {
    var space := Find(line, ' ');
    if space == |line| then None else HexDecode(line[space + 1..])
  }

  function AsSeq<T>(x: Option<T>): seq<T> {
    if x.None? then [] else [x.value]
  }

  /** The payloads of all complete lines. */
  function Dispatched(s: string): seq<seq<Byte>> {
    var end := Find(s, '\n');
    if end == |s| then [] else AsSeq(Payload(s[..end])) + Dispatched(s[end + 1..])
  }

  /** What follows the last complete line. */
  function Unfinished(s: string): string {
    var end := Find(s, '\n');
    if end == |s| then s else Unfinished(s[end + 1..])
  }

  lemma FirstLine(a: string, b: string)
    requires Find(a, '\n') < |a|
    ensures var end := Find(a, '\n');
            && Find(a + b, '\n') == end && (a + b)[..end] == a[..end] && (a + b)[end + 1..] == a[end + 1..] + b
  {
    var end := Find(a, '\n');
    assert (a + b)[..end] == a[..end];
    FindIs(a + b, '\n', end);
  }

  /** A text may be dispatched in pieces, as long as an unfinished line is kept. */
  lemma {:induction false} DispatchInPieces(a: string, b: string)
    ensures Dispatched(a + b) == Dispatched(a) + Dispatched(Unfinished(a) + b)
    ensures Unfinished(a + b) == Unfinished(Unfinished(a) + b)
    decreases |a|
  {
    hide Payload, Find, AsSeq;
    var end := Find(a, '\n');
    if end < |a| {
      FirstLine(a, b);
      DispatchInPieces(a[end + 1..], b);
    }
  }

  lemma OneLine(line: string, rest: string)
    requires '\n' !in line
    ensures Dispatched(line + "\n" + rest) == AsSeq(Payload(line)) + Dispatched(rest)
  {
    hide Payload;
    var s := line + "\n" + rest;
    assert s[..|line|] == line && s[|line| + 1..] == rest;
    FindIs(s, '\n', |line|);
  }

  /** The complete lines of a stream, with their line ends, as the server reads them. */
  function Lines(s: string): seq<string> {
    var end := Find(s, '\n');
    if end == |s| then [] else [s[..end + 1]] + Lines(s[end + 1..])
  }

  lemma LinesFrom(line: string, rest: string)
    requires '\n' !in line
    ensures Lines(line + "\n" + rest) == [line + "\n"] + Lines(rest)
  {
    var s := line + "\n" + rest;
    assert s[..|line|] == line && s[..|line| + 1] == line + "\n" && s[|line| + 1..] == rest;
    FindIs(s, '\n', |line|);
  }

  // ---------- Signals ----------

  /** What a client sends for a peer. */
  function Signal(peer: string, data: seq<Byte>): string {
    peer + " " + HexEncode(data) + "\n"
  }

  predicate IsSpace(c: char) { c == ' ' || '\t' <= c <= '\r' }

  predicate Identity(s: string) {
    forall i | 0 <= i < |s| :: !IsSpace(s[i])
  }

  function TrimSpace(s: string): string {
    if s == "" then s
    else if IsSpace(s[0]) then TrimSpace(s[1..])
    else if IsSpace(s[|s| - 1]) then TrimSpace(s[..|s| - 1])
    else s
  }

  lemma TrimIdentity(s: string)
    requires Identity(s)
    ensures TrimSpace(s) == s && TrimSpace(s + "\n") == s
  {
    if s == "" {
      assert (s + "\n")[1..] == "";
    } else {
      assert (s + "\n")[..|s|] == s;
    }
  }

  /** Trimming takes off exactly the white space at both ends. */
  lemma {:induction false} TrimIs(s: string) returns (a: string, b: string)
    ensures s == a + TrimSpace(s) + b
    ensures forall c | c in a || c in b ::
              c == ' ' || c == '\t' || c == '\n' || c == '\U{B}' || c == '\U{C}' || c == '\r'
    ensures var t := TrimSpace(s); t != "" ==> !IsSpace(t[0]) && !IsSpace(t[|t| - 1])
    decreases |s|
  {
    if s == "" {
      a, b := "", "";
    } else if IsSpace(s[0]) {
      a, b := TrimIs(s[1..]);
      a := [s[0]] + a;
    } else if IsSpace(s[|s| - 1]) {
      a, b := TrimIs(s[..|s| - 1]);
      b := b + [s[|s| - 1]];
    } else {
      a, b := "", "";
      assert a + s + b == s;
    }
  }

  /** How the server passes on a line from a client: to whom, and what. */
  function Forward(sender: string, line: string): Option<(string, string)> {
    var space := Find(line, ' ');
    if space == |line| then None
    else Some((TrimSpace(line[..space]), sender + " " + line[space + 1..]))
  }

  /** A line is split at its first space: before it stands the peer, after it what is passed on
      behind the name of the sender. */
  lemma ForwardIs(sender: string, dest: string, rest: string)
    requires ' ' !in dest
    ensures Forward(sender, dest + " " + rest) == Some((TrimSpace(dest), sender + " " + rest))
    ensures Forward(sender, dest).None?
  {
    hide TrimSpace;
    var line := dest + " " + rest;
    assert line[..|dest|] == dest && line[|dest| + 1..] == rest;
    FindIs(line, ' ', |dest|);
    FindIs(dest, ' ', |dest|);
  }

  lemma ForwardSignal(sender: string, peer: string, data: seq<Byte>)
    requires Identity(peer)
    ensures Forward(sender, Signal(peer, data)) == Some((peer, Signal(sender, data)))
  {
    hide HexEncode;
    var line := Signal(peer, data);
    assert line[..|peer|] == peer && line[|peer| + 1..] == HexEncode(data) + "\n";
    FindIs(line, ' ', |peer|);
    TrimIdentity(peer);
    assert sender + " " + (HexEncode(data) + "\n") == Signal(sender, data);
  }

  /** A forwarded signal carries its payload to the receiver. */
  lemma ReceiveSignal(sender: string, data: seq<Byte>, rest: string)
    requires Identity(sender)
    ensures Dispatched(Signal(sender, data) + rest) == [data] + Dispatched(rest)
  {
    HexRoundTrip(data);
    hide HexEncode, HexDecode, Dispatched;
    var line := sender + " " + HexEncode(data);
    assert line[..|sender|] == sender && line[|sender| + 1..] == HexEncode(data);
    FindIs(line, ' ', |sender|);
    assert '\n' !in line;
    OneLine(line, rest);
  }
}

/** The signaling server: who is connected, and what is written to whom. */
module SignalServer {
  import opened SignalText

  type Connection = nat

  /** What a connection brings: a line with its line end, or the end of its stream, perhaps in
      the middle of a line. */
  datatype Event = Input(conn: Connection, line: string) | End(conn: Connection, partial: string)

  /** The messages in a run of events, with their senders.  The first line of a connection is
      its identity instead. */
  function Messages(events: seq<Event>, identities: map<Connection, string>): seq<(string, string)> {
    if events == [] then []
    else
      var e := events[0];
      if e.conn !in identities then
        Messages(events[1..], identities[e.conn := TrimSpace(if e.Input? then e.line else e.partial)])
      else (if e.Input? then [(identities[e.conn], e.line)] else []) + Messages(events[1..], identities)
  }

  /** Nothing in a run of events takes the name id from connection c. */
  predicate Keeps(events: seq<Event>, identities: map<Connection, string>, id: string, c: Connection) {
    if events == [] then true
    else
      var e := events[0];
      if e.conn !in identities then
        var other := TrimSpace(if e.Input? then e.line else e.partial);
        other != id && Keeps(events[1..], identities[e.conn := other], id, c)
      else !(e.End? && e.conn == c) && Keeps(events[1..], identities, id, c)
  }

  /** What messages make the server write to the peer called id. */
  function Written(messages: seq<(string, string)>, id: string): string {
    if messages == [] then ""
    else
      var f := Forward(messages[0].0, messages[0].1);
      (if f.Some? && f.value.0 == id then f.value.1 else "") + Written(messages[1..], id)
  }

  class Server {
    var connections: map<string, Connection>
    var identities: map<Connection, string>
    var closed: set<Connection>
    var written: map<Connection, string>

    /** A connection is registered under its own identity only. */
    predicate Valid()
      reads this
    {
      && (forall id | id in connections :: connections[id] in identities && identities[connections[id]] == id)
      && (forall c | c in identities :: c in written)
    }

    /** A connection that has lost its name to another. */
    predicate Nameless(c: Connection)
      reads this
    {
      c in identities && c in written && c !in connections.Values
    }

    constructor ()
      ensures Valid() && connections == map[] && identities == map[] && written == map[]
    {
      connections, identities, closed, written := map[], map[], {}, map[];
    }

    /** The first line of a connection registers it, in place of any other of that name. */
    method Register(conn: Connection, intro: string)
      requires Valid() && conn !in identities
      modifies this
      ensures Valid() && connections == old(connections)[TrimSpace(intro) := conn]
      ensures identities == old(identities)[conn := TrimSpace(intro)]
      ensures written == old(written)[conn := ""]
      ensures closed == old(closed)
                        + if TrimSpace(intro) in old(connections) then {old(connections)[TrimSpace(intro)]} else {}
    {
      hide TrimSpace;
      var identity := TrimSpace(intro);
      identities := identities[conn := identity];
      written := written[conn := ""];
      if identity in connections {
        closed := closed + {connections[identity]};
      }
      connections := connections[identity := conn];
    }

    method ServeEvent(e: Event)
      requires Valid()
      modifies this
      ensures Valid()
      ensures if e.conn !in old(identities) then
                var id := TrimSpace(if e.Input? then e.line else e.partial);
                && identities == old(identities)[e.conn := id] && written == old(written)[e.conn := ""]
                && connections
                   == (if e.Input? then old(connections)[id := e.conn] else old(connections)[id := e.conn] - {id})
                && closed == old(closed) + (if id in old(connections) then {old(connections)[id]} else {})
                             + (if e.End? then {e.conn} else {})
              else
                && identities == old(identities) && closed == old(closed) + (if e.End? then {e.conn} else {})
                && (if e.End? then
                      && written == old(written)
                      && forall id :: id in connections <==> id in old(connections) && old(connections)[id] != e.conn
                    else
                      && connections == old(connections)
                      && var f := Forward(identities[e.conn], e.line);
                         written == if f.Some? && f.value.0 in connections
                                    then var d := connections[f.value.0]; old(written)[d := old(written)[d] + f.value.1]
                                    else old(written))
      ensures forall id | id in connections && id in old(connections)
              && !(e.conn !in old(identities) && id == identities[e.conn])
                :: connections[id] == old(connections)[id]
    {
      hide TrimSpace, Forward;
      var known := e.conn in identities;
      if !known {
        Register(e.conn, if e.Input? then e.line else e.partial);
      }
      var identity := identities[e.conn];
      match e {
        case End(conn, _) =>
          closed := closed + {conn};
          if identity in connections && connections[identity] == conn {
            connections := connections - {identity};
          }
        case Input(conn, line) =>
          if known {
            var f := Forward(identity, line);
            if f.Some? && f.value.0 in connections {
              var dest := connections[f.value.0];
              written := written[dest := written[dest] + f.value.1];
            }
          }
      }
    }

    /** As long as a peer keeps its connection, exactly the messages for it are written there,
        in the order in which they come in.  Nothing is written to one that has lost its name. */
    method Serve(events: seq<Event>, ghost id: string, ghost c: Connection)
      requires Valid() && id in connections && connections[id] == c
      requires Keeps(events, identities, id, c)
      modifies this
      ensures Valid() && id in connections && connections[id] == c && c in old(written)
      ensures written[c] == old(written[c]) + Written(Messages(events, old(identities)), id)
      ensures forall r | old(Nameless(r)) :: Nameless(r) && written[r] == old(written[r])
    {
      hide Messages, Keeps, Written, Forward, TrimSpace;
      ghost var all := Written(Messages(events, identities), id);
      ghost var before := written[c];
      assert events[0..] == events;
      for k := 0 to |events|
        invariant Valid() && id in connections && connections[id] == c
        invariant Keeps(events[k..], identities, id, c)
        invariant written[c] + Written(Messages(events[k..], identities), id) == before + all
        invariant forall r | old(Nameless(r)) :: Nameless(r) && written[r] == old(written[r])
      {
        ServeStep(events, k, identities, id, c, written[c]);
        ServeEvent(events[k]);
      }
      NothingLeft(events[|events|..], identities, id);
    }
  }

  lemma NothingLeft(events: seq<Event>, identities: map<Connection, string>, id: string)
    requires events == []
    ensures Written(Messages(events, identities), id) == ""
  {
  }

  /** How one event changes what remains to be written to a peer. */
  lemma ServeStep(events: seq<Event>, k: nat, identities: map<Connection, string>, id: string, c: Connection,
                  before: string)
    requires k < |events| && Keeps(events[k..], identities, id, c)
    ensures var e, rest := events[k], events[k + 1..];
            var now := before + Written(Messages(events[k..], identities), id);
            if e.conn !in identities then
              var other := TrimSpace(if e.Input? then e.line else e.partial);
              var more := identities[e.conn := other];
              other != id && Keeps(rest, more, id, c) && now == before + Written(Messages(rest, more), id)
            else
              && Keeps(rest, identities, id, c) && !(e.End? && e.conn == c)
              && now == before
                        + (if e.Input? && Forward(identities[e.conn], e.line).Some?
                              && Forward(identities[e.conn], e.line).value.0 == id
                           then Forward(identities[e.conn], e.line).value.1 else "")
                        + Written(Messages(rest, identities), id)
  {
    hide TrimSpace, Forward;
    var e, rest := events[k], events[k + 1..];
    assert events[k..][0] == e && events[k..][1..] == rest;
    if e.conn in identities {
      var more := Messages(rest, identities);
      if e.Input? {
        var m := (identities[e.conn], e.line);
        assert ([m] + more)[1..] == more;
        var f := Forward(m.0, m.1);
        var text := if f.Some? && f.value.0 == id then f.value.1 else "";
        assert Written([m] + more, id) == text + Written(more, id);
        assert before + (text + Written(more, id)) == before + text + Written(more, id);
      } else {
        assert [] + more == more;
        assert before + "" + Written(more, id) == before + Written(more, id);
      }
    }
  }
}

/** The signaling client: queueing and sending signals, and taking received text apart. */
module SignalClient {
  import opened Wrappers
  import opened SignalText

  /** What one read from the socket gives: text, nothing (yet or any more), or an error. */
  datatype RecvResult = Data(text: string) | Nothing | RecvFailed

  /** What becomes of one write of a whole signal: sent, not possible yet, nothing accepted, or
      an error or only a part sent. */
  datatype SendResult = Sent | Blocked | NothingSent | SendFailed

  const MAX_BACKLOG := 32

  /** What of a queue is kept when one more signal is queued. */
  function Backlog(queue: seq<string>): seq<string> {
    if |queue| > MAX_BACKLOG then queue[|queue| - MAX_BACKLOG..] else queue
  }

  function Concat(parts: seq<string>): string {
    if parts == [] then "" else parts[0] + Concat(parts[1..])
  }

  lemma {:induction false} ConcatAdds(a: seq<string>, s: string)
    ensures Concat(a + [s]) == Concat(a) + s
  {
    if a == [] {
      assert a + [s] == [s] && [s][1..] == [];
    } else {
      assert (a + [s])[1..] == a[1..] + [s];
      ConcatAdds(a[1..], s);
    }
  }

  /** The text read until there is nothing more, unless reading fails. */
  function Received(recvs: seq<RecvResult>): Option<string> {
    if recvs == [] || recvs[0].Nothing? then Some("")
    else if recvs[0].RecvFailed? then None
    else
      var more :- Received(recvs[1..]);
      Some(recvs[0].text + more)
  }

  /** Reading goes on up to the first result that is no text; an error there spoils it. */
  lemma {:induction false} ReceivedIs(recvs: seq<RecvResult>, n: nat)
    requires n <= |recvs| && (forall i | 0 <= i < n :: recvs[i].Data?) && (n < |recvs| ==> !recvs[n].Data?)
    ensures Received(recvs).None? <==> n < |recvs| && recvs[n].RecvFailed?
    ensures Received(recvs).Some? ==>
              Received(recvs).value == Concat(seq(n, i requires 0 <= i < n => recvs[i].text))
    decreases n
  {
    var texts := seq(n, i requires 0 <= i < n => recvs[i].text);
    if n > 0 {
      ReceivedIs(recvs[1..], n - 1);
      assert texts[1..] == seq(n - 1, i requires 0 <= i < n - 1 => recvs[1..][i].text);
    }
  }

  /** What decoding gives when some bytes came before. */
  function After(data: seq<Byte>, more: Option<seq<Byte>>): Option<seq<Byte>> {
    var rest :- more;
    Some(data + rest)
  }

  lemma NothingBefore(r: Option<seq<Byte>>)
    ensures After([], r) == r
  {
    if r.Some? {
      assert [] + r.value == r.value;
    }
  }

  lemma OneByte(data: seq<Byte>, s: string)
    requires |s| >= 2
    ensures var dh, dl := HexDigitVal(s[0]), HexDigitVal(s[1]);
            After(data, HexDecode(s)) == if dh < 0 || dl < 0 then None
                else After(data + [dh * 16 + dl], HexDecode(s[2..]))
  {
    var dh, dl := HexDigitVal(s[0]), HexDigitVal(s[1]);
    var rest := HexDecode(s[2..]);
    if dh >= 0 && dl >= 0 && rest.Some? {
      assert data + ([dh * 16 + dl] + rest.value) == data + [dh * 16 + dl] + rest.value;
    }
  }

  /** How many of the queued signals go out, and whether the connection survives it. */
  function SentCount(queued: nat, sends: seq<SendResult>): (r: (nat, bool))
    ensures r.0 <= queued
    decreases |sends|
  {
    if queued == 0 || sends == [] || sends[0].Blocked? then (0, true)
    else if sends[0].SendFailed? then (0, false)
    else if sends[0].NothingSent? then SentCount(queued, sends[1..])
    else
      var (n, ok) := SentCount(queued - 1, sends[1..]);
      (n + 1, ok)
  }

  /** Signals go out, one for each write that takes one, until none is left, the socket takes no
      more, or it fails.  Before place k of the results the writes took n signals. */
  lemma {:induction false} SentCountIs(queued: nat, sends: seq<SendResult>, k: nat, n: nat)
    requires k <= |sends| && (forall i | 0 <= i < k :: sends[i].Sent? || sends[i].NothingSent?)
    requires n == multiset(sends[..k])[Sent] && n <= queued
    requires n == queued || k == |sends| || sends[k].Blocked? || sends[k].SendFailed?
    ensures SentCount(queued, sends) == (n, n == queued || k == |sends| || sends[k].Blocked?)
    decreases k
  {
    if k > 0 && queued > 0 {
      var rest := sends[1..];
      assert sends[..k] == [sends[0]] + rest[..k - 1];
      assert multiset(sends[..k]) == multiset{sends[0]} + multiset(rest[..k - 1]);
      SentCountIs(if sends[0].Sent? then queued - 1 else queued, rest, k - 1, if sends[0].Sent? then n - 1 else n);
    }
  }

  lemma {:induction false} ConcatSplit(q: seq<string>, n: nat)
    requires n <= |q|
    ensures Concat(q) == Concat(q[..n]) + Concat(q[n..])
  {
    if n == 0 {
      assert q[..0] == [] && q[0..] == q;
      assert "" + Concat(q) == Concat(q);
    } else {
      ConcatSplit(q[1..], n - 1);
      assert q[..n][1..] == q[1..][..n - 1] && q[1..][n - 1..] == q[n..];
    }
  }

  // ---------- The state of a client ----------

  /** Apart from the fields of the code: all that was dispatched, and the signals that went out
      whole on the present connection. */
  datatype State = State(
    greeting: string, connected: bool, buffered: string, queue: seq<string>,
    dispatched: seq<seq<Byte>>, transmitted: string)
  {
    /** No complete line is left over between calls. */
    predicate Valid() {
      '\n' !in buffered && (!connected ==> buffered == "")
    }
  }

  function Queued(s: State, signal: string): State {
    s.(queue := Backlog(s.queue) + [signal])
  }

  function Closed(s: State): State {
    s.(connected := false, buffered := "", queue := [])
  }

  function Opened(s: State, socketOk: bool): State {
    if socketOk then s.(connected := true, buffered := "", queue := [s.greeting], transmitted := "")
    else Closed(s).(transmitted := "")
  }

  function Drained(s: State, recvs: seq<RecvResult>): State {
    var text := Received(recvs);
    if text.None? then Closed(s) else s.(buffered := s.buffered + text.value)
  }

  function Flushed(s: State, sends: seq<SendResult>): State {
    var (n, ok) := SentCount(|s.queue|, sends);
    var t := s.(queue := s.queue[n..], transmitted := s.transmitted + Concat(s.queue[..n]));
    if ok then t else Closed(t)
  }

  function Handled(s: State): State {
    s.(buffered := Unfinished(s.buffered), dispatched := s.dispatched + SignalText.Dispatched(s.buffered))
  }

  /** One turn: reconnect or read, then send, then dispatch. */
  function AfterTurn(s: State, socketOk: bool, recvs: seq<RecvResult>, sends: seq<SendResult>): State {
    var t := if s.connected then Drained(s, recvs) else Opened(s, socketOk);
    Handled(if t.connected then Flushed(t, sends) else t)
  }

  /** A connection is kept iff neither reading nor sending fails.  Then nothing queued is lost
      or repeated, and what is read is handled as part of one stream. */
  lemma TurnKept(s: State, socketOk: bool, recvs: seq<RecvResult>, sends: seq<SendResult>)
    requires s.Valid() && s.connected
    ensures var t := AfterTurn(s, socketOk, recvs, sends);
            && t.Valid() && t.greeting == s.greeting
            && (t.connected <==> Received(recvs).Some? && SentCount(|s.queue|, sends).1)
            && (t.connected ==>
                  && t.transmitted + Concat(t.queue) == s.transmitted + Concat(s.queue)
                  && t.dispatched == s.dispatched + SignalText.Dispatched(s.buffered + Received(recvs).value)
                  && t.buffered == Unfinished(s.buffered + Received(recvs).value))
            && (!t.connected ==> t.dispatched == s.dispatched && t.buffered == "" && t.queue == [])
  {
    hide Concat, Received, SentCount, SignalText.Dispatched, Unfinished;
    NothingToDispatch();
    var n := SentCount(|s.queue|, sends).0;
    ConcatSplit(s.queue, n);
    assert s.transmitted + Concat(s.queue[..n]) + Concat(s.queue[n..]) == s.transmitted + Concat(s.queue);
    assert s.dispatched + [] == s.dispatched;
    if Received(recvs).Some? {
      NoLineLeft(s.buffered + Received(recvs).value);
    }
  }

  /** A new connection begins with the greeting, sent or queued, whatever was queued before. */
  predicate JustOpened(s: State) {
    && s.connected && s.buffered == ""
    && ((s.queue == [s.greeting] && s.transmitted == "") || (s.queue == [] && s.transmitted == s.greeting))
  }

  lemma TurnOpens(s: State, socketOk: bool, recvs: seq<RecvResult>, sends: seq<SendResult>)
    requires s.Valid() && !s.connected
    ensures var t := AfterTurn(s, socketOk, recvs, sends);
            && t.Valid() && t.greeting == s.greeting && t.dispatched == s.dispatched
            && (t.connected <==> socketOk && SentCount(1, sends).1) && (t.connected ==> JustOpened(t))
  {
    hide SentCount, SignalText.Dispatched, Unfinished, Concat;
    NothingToDispatch();
    JustOne(s.greeting);
    assert s.dispatched + [] == s.dispatched;
    var n := SentCount(1, sends).0;
    var q := [s.greeting];
    assert if n == 0 then q[..n] == [] && q[n..] == q else q[..n] == q && q[n..] == [];
  }

  lemma NoLineLeft(s: string)
    ensures '\n' !in Unfinished(s)
    decreases |s|
  {
    var end := Find(s, '\n');
    assert s[..|s|] == s;
    hide Find;
    if end < |s| {
      NoLineLeft(s[end + 1..]);
    }
  }

  class Client {
    const greeting: string
    var connected: bool
    var bufferedData: string
    var queueSend: seq<string>
    var dispatched: seq<seq<Byte>>
    var transmitted: string

    /** The state that the fields stand for. */
    function View(): State
      reads this
    {
      State(greeting, connected, bufferedData, queueSend, dispatched, transmitted)
    }

    constructor (identity: string, socketOk: bool)
      ensures greeting == identity + "\n" && dispatched == [] && View().Valid()
      ensures connected == socketOk && (connected ==> JustOpened(View()) && queueSend == [greeting])
    {
      greeting, connected, bufferedData, queueSend, dispatched, transmitted := identity + "\n", false, "", [], [], "";
      new;
      Connect(socketOk);
    }

    method CloseSocket()
      modifies this
      ensures View() == Closed(old(View()))
    {
      connected, bufferedData, queueSend := false, "", [];
    }

    method Connect(socketOk: bool)
      modifies this
      ensures View() == Opened(old(View()), socketOk)
    {
      CloseSocket();
      transmitted := "";
      if !socketOk {
        return;
      }
      connected := true;
      Send(greeting);
    }

    /** Queue a signal; the oldest ones are dropped while more than the limit are queued. */
    method Send(s: string)
      modifies this`queueSend
      ensures queueSend == Backlog(old(queueSend)) + [s]
      ensures var queue := old(queueSend);
              queueSend == (if |queue| > 32 then queue[|queue| - 32..] else queue) + [s]
    {
      while |queueSend| > MAX_BACKLOG
        invariant |queueSend| <= |old(queueSend)| && queueSend == old(queueSend)[|old(queueSend)| - |queueSend|..]
        invariant |old(queueSend)| > MAX_BACKLOG ==> |queueSend| >= MAX_BACKLOG
        invariant |old(queueSend)| <= MAX_BACKLOG ==> queueSend == old(queueSend)
      {
        queueSend := queueSend[1..];
      }
      queueSend := queueSend + [s];
    }

    method SendSignal(peer: string, data: seq<Byte>)
      modifies this`queueSend
      ensures queueSend == Backlog(old(queueSend)) + [Signal(peer, data)]
      ensures queueSend[|queueSend| - 1] == peer + " " + HexEncode(data) + "\n"
    {
      hide HexDigit;
      var signal := peer + " ";
      var i := 0;
      assert data[0..] == data;
      while i < |data|
        invariant i <= |data| && signal + HexEncode(data[i..]) == peer + " " + HexEncode(data)
      {
        assert data[i..][0] == data[i] && data[i..][1..] == data[i + 1..];
        ghost var before := signal;
        signal := signal + [HexDigit(data[i] / 16)];
        signal := signal + [HexDigit(data[i] % 16)];
        assert signal == before + [HexDigit(data[i] / 16), HexDigit(data[i] % 16)];
        i := i + 1;
      }
      assert data[i..] == [];
      assert signal == peer + " " + HexEncode(data);
      signal := signal + "\n";
      Send(signal);
    }

    /** Decode the digits between two positions of the buffer, up to the first bad one. */
    method DecodeLine(from: nat, to: nat) returns (r: Option<seq<Byte>>)
      requires from <= to <= |bufferedData|
      ensures r == HexDecode(bufferedData[from..to])
    {
      var data: seq<Byte> := [];
      var i := from;
      ghost var all := HexDecode(bufferedData[from..to]);
      NothingBefore(all);
      while i + 2 <= to
        invariant from <= i <= to
        invariant all == After(data, HexDecode(bufferedData[i..to]))
      {
        var dh, dl := HexDigitVal(bufferedData[i]), HexDigitVal(bufferedData[i + 1]);
        OneByte(data, bufferedData[i..to]);
        assert bufferedData[i..to][2..] == bufferedData[i + 2..to];
        if dh < 0 || dl < 0 {
          return None;
        }
        data := data + [dh * 16 + dl];
        i := i + 2;
      }
      assert data + [] == data;
      r := Some(data);
    }

    /** Dispatch all complete lines and keep the rest. */
    method Dispatch()
      modifies this`bufferedData, this`dispatched
      ensures View() == Handled(old(View()))
    {
      hide HexDecode, SignalText.Dispatched, Unfinished, Payload;
      ghost var all, end := SignalText.Dispatched(bufferedData), Unfinished(bufferedData);
      while true
        invariant dispatched + SignalText.Dispatched(bufferedData) == old(dispatched) + all
        invariant Unfinished(bufferedData) == end
        decreases |bufferedData|
      {
        var l := Find(bufferedData, '\n');
        DispatchStep(bufferedData, dispatched);
        if l == |bufferedData| {
          break;
        }
        var spc := Find(bufferedData, ' ');
        SpaceInLine(bufferedData, l);
        if spc < l {
          var data := DecodeLine(spc + 1, l);
          if data.Some? {
            dispatched := dispatched + [data.value];
          }
        }
        bufferedData := bufferedData[l + 1..];
      }
    }

    /** Read until there is nothing more or reading fails. */
    method Drain(recvs: seq<RecvResult>)
      requires connected
      modifies this
      ensures View() == Drained(old(View()), recvs)
    {
      ghost var before := bufferedData;
      var i := 0;
      assert recvs[0..] == recvs;
      while i < |recvs|
        invariant i <= |recvs| && View() == old(View()).(buffered := bufferedData)
        invariant Received(recvs).Some? <==> Received(recvs[i..]).Some?
        invariant Received(recvs).Some? ==> bufferedData + Received(recvs[i..]).value == before + Received(recvs).value
      {
        assert recvs[i..][0] == recvs[i] && recvs[i..][1..] == recvs[i + 1..];
        match recvs[i] {
          case Nothing =>
            return;
          case RecvFailed =>
            CloseSocket();
            return;
          case Data(text) =>
            bufferedData := bufferedData + text;
        }
        i := i + 1;
      }
    }

    /** Send what is queued, as far as the socket takes it.  Signals go out whole and in order,
        or the connection is given up. */
    method Flush(sends: seq<SendResult>)
      requires connected
      modifies this
      ensures View() == Flushed(old(View()), sends)
    {
      hide Concat;
      ghost var n := 0;
      var i := 0;
      StartFlush(transmitted, queueSend, sends);
      while i < |sends| && queueSend != []
        invariant i <= |sends| && n <= |old(queueSend)| && queueSend == old(queueSend)[n..]
        invariant View() == old(View()).(queue := queueSend, transmitted := transmitted)
        invariant transmitted == old(transmitted) + Concat(old(queueSend)[..n])
        invariant SentCount(|old(queueSend)|, sends) == Plus(n, SentCount(|queueSend|, sends[i..]))
      {
        assert sends[i..][0] == sends[i] && sends[i..][1..] == sends[i + 1..];
        match sends[i] {
          case Blocked =>
            return;
          case Sent =>
            OneMoreSent(old(transmitted), old(queueSend), n);
            transmitted := transmitted + queueSend[0];
            queueSend := queueSend[1..];
            n := n + 1;
          case NothingSent =>
          case SendFailed =>
            CloseSocket();
            return;
        }
        i := i + 1;
      }
    }

    /** One turn: reconnect or read, then send, then dispatch. */
    method Poll(socketOk: bool, recvs: seq<RecvResult>, sends: seq<SendResult>)
      modifies this
      ensures View() == AfterTurn(old(View()), socketOk, recvs, sends)
    {
      hide Concat, Received, SentCount;
      if !connected {
        Connect(socketOk);
      } else {
        Drain(recvs);
      }
      if connected {
        Flush(sends);
      }
      Dispatch();
    }
  }

  function Plus(n: nat, more: (nat, bool)): (nat, bool) {
    (n + more.0, more.1)
  }

  lemma StartFlush(transmitted: string, queue: seq<string>, sends: seq<SendResult>)
    ensures transmitted == transmitted + Concat(queue[..0]) && queue[0..] == queue && sends[0..] == sends
    ensures SentCount(|queue|, sends) == Plus(0, SentCount(|queue|, sends))
  {
  }

  lemma OneMoreSent(transmitted: string, queue: seq<string>, n: nat)
    requires n < |queue|
    ensures transmitted + Concat(queue[..n]) + queue[n] == transmitted + Concat(queue[..n + 1])
    ensures queue[n..][1..] == queue[n + 1..]
  {
    assert queue[..n + 1] == queue[..n] + [queue[n]];
    ConcatAdds(queue[..n], queue[n]);
  }

  lemma JustOne(s: string)
    ensures "" + Concat([s]) == s && "" + Concat([]) == ""
  {
    assert [s][1..] == [] && Concat([s]) == s + "";
  }

  lemma DispatchStep(s: string, before: seq<seq<Byte>>)
    ensures var l := Find(s, '\n');
            if l == |s| then SignalText.Dispatched(s) == [] && Unfinished(s) == s && '\n' !in s
            else
              && before + SignalText.Dispatched(s)
                  == before + AsSeq(Payload(s[..l])) + SignalText.Dispatched(s[l + 1..])
              && Unfinished(s) == Unfinished(s[l + 1..])
  {
    var l := Find(s, '\n');
    if l < |s| {
      Regroup(before, AsSeq(Payload(s[..l])), SignalText.Dispatched(s[l + 1..]));
    } else {
      assert s[..l] == s;
    }
  }

  lemma Regroup(a: seq<seq<Byte>>, b: seq<seq<Byte>>, c: seq<seq<Byte>>)
    ensures a + (b + c) == a + b + c
  {
  }

  lemma NothingToDispatch()
    ensures SignalText.Dispatched("") == [] && Unfinished("") == ""
  {
  }

  /** The first space of the whole buffer, if it is in the first line, is that of the line. */
  lemma SpaceInLine(s: string, l: nat)
    requires l == Find(s, '\n') < |s|
    ensures var spc := Find(s, ' ');
            Payload(s[..l]) == if spc < l then HexDecode(s[spc + 1..l]) else None
  {
    hide HexDecode, Find;
    var spc := Find(s, ' ');
    var line := s[..l];
    if spc < l {
      assert line[..spc] == s[..spc] && line[spc + 1..] == s[spc + 1..l];
      FindIs(line, ' ', spc);
    } else {
      assert line[..l] == s[..spc][..l];
      FindIs(line, ' ', l);
    }
  }
}

/** From one client through the server to another. */
module Signaling {
  import opened Wrappers
  import opened SignalText
  import opened SignalServer
  import opened SignalClient

  // ---------- Any messages ----------

  predicate IsLine(s: string) {
    s != "" && s[|s| - 1] == '\n' && '\n' !in s[..|s| - 1]
  }

  /** The payloads that messages carry to the peer called id. */
  function PayloadsFor(messages: seq<(string, string)>, id: string): seq<seq<Byte>> {
    if messages == [] then [] else Carried(messages[0], id) + PayloadsFor(messages[1..], id)
  }

  /** The payload, if any, that one message carries to the peer called id. */
  function Carried(m: (string, string), id: string): seq<seq<Byte>> {
    var f := Forward(m.0, m.1);
    if f.Some? && f.value.0 == id && f.value.1 != "" then AsSeq(Payload(f.value.1[..|f.value.1| - 1])) else []
  }

  lemma ForwardedLine(sender: string, line: string)
    requires '\n' !in sender && IsLine(line) && Forward(sender, line).Some?
    ensures IsLine(Forward(sender, line).value.1)
  {
    hide TrimSpace;
    var space := Find(line, ' ');
    var tail := line[space + 1..];
    assert line[space] == ' ';
    var msg := sender + " " + tail;
    assert msg[|msg| - 1] == line[|line| - 1];
    assert msg[..|msg| - 1] == sender + " " + line[..|line| - 1][space + 1..];
  }

  /** Whatever lines clients send: what the receiver dispatches from all that is written to it
      is the payload of each line for it, on its own and in order. */
  lemma {:induction false} DispatchWritten(messages: seq<(string, string)>, id: string)
    requires forall m | m in messages :: '\n' !in m.0 && IsLine(m.1)
    ensures Dispatched(Written(messages, id)) == PayloadsFor(messages, id)
    ensures Unfinished(Written(messages, id)) == ""
  {
    hide Forward, Payload, Dispatched, Unfinished;
    NothingToDispatch();
    if messages != [] {
      DispatchWritten(messages[1..], id);
      var m := messages[0];
      assert m in messages;
      var f := Forward(m.0, m.1);
      var rest := Written(messages[1..], id);
      if f.Some? && f.value.0 == id {
        ForwardedLine(m.0, m.1);
        var line := f.value.1[..|f.value.1| - 1];
        assert f.value.1 == line + "\n";
        assert Written(messages, id) == line + "\n" + rest;
        OneLine(line, rest);
        LineLeavesNothing(line, rest);
      } else {
        assert Written(messages, id) == "" + rest == rest;
        assert [] + PayloadsFor(messages[1..], id) == PayloadsFor(messages[1..], id);
      }
    } else {
      assert Written(messages, id) == "";
    }
  }

  lemma LineLeavesNothing(line: string, rest: string)
    requires '\n' !in line
    ensures Unfinished(line + "\n" + rest) == Unfinished(rest)
  {
    var s := line + "\n" + rest;
    assert s[..|line|] == line && s[|line| + 1..] == rest;
    FindIs(s, '\n', |line|);
  }

  /** A line without a space has no effect on its neighbours: it might as well not be sent. */
  lemma {:induction false} LineWithoutSpace(a: seq<(string, string)>, m: (string, string), b: seq<(string, string)>,
                                            id: string)
    requires ' ' !in m.1
    ensures PayloadsFor(a + [m] + b, id) == PayloadsFor(a + b, id)
    ensures Written(a + [m] + b, id) == Written(a + b, id)
  {
    hide PayloadsFor, Written;
    if a == [] {
      FirstIgnored(m, b, id);
      assert a + [m] + b == [m] + b && a + b == b;
    } else {
      LineWithoutSpace(a[1..], m, b, id);
      FirstMessage(a, [m] + b, id);
      FirstMessage(a, b, id);
      assert a + [m] + b == a + ([m] + b) && a[1..] + [m] + b == a[1..] + ([m] + b);
    }
  }

  lemma FirstIgnored(m: (string, string), b: seq<(string, string)>, id: string)
    requires ' ' !in m.1
    ensures PayloadsFor([m] + b, id) == PayloadsFor(b, id) && Written([m] + b, id) == Written(b, id)
  {
    NotForwarded(m);
    hide Forward;
    assert ([m] + b)[1..] == b;
  }

  lemma FirstMessage(a: seq<(string, string)>, b: seq<(string, string)>, id: string)
    requires a != []
    ensures PayloadsFor(a + b, id) == Carried(a[0], id) + PayloadsFor(a[1..] + b, id)
    ensures Written(a + b, id) == Written([a[0]], id) + Written(a[1..] + b, id)
  {
    assert (a + b)[1..] == a[1..] + b && [a[0]][1..] == [];
    hide Carried, Forward;
  }

  lemma NotForwarded(m: (string, string))
    requires ' ' !in m.1
    ensures Forward(m.0, m.1).None?
  {
    FindIs(m.1, ' ', |m.1|);
  }
}
