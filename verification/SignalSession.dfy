/** From one client through the server to another: what a peer hears of the signals for it. */
module SignalSession {
  import opened Wrappers
  import opened SignalText
  import opened SignalServer
  import opened SignalClient
  import opened SignalRun
  import opened Signaling

  function Inputs(c: Connection, lines: seq<string>): seq<Event> {
    if lines == [] then [] else [Input(c, lines[0])] + Inputs(c, lines[1..])
  }

  /** Signals for peers whose names have no white space. */
  predicate Signals(es: seq<Entry>) {
    forall e | e in es :: e.Sig? && Identity(e.peer)
  }

  /** What a client can send on a connection, with or without its greeting. */
  predicate Sendable(me: string, es: seq<Entry>) {
    Identity(me) && (es != [] ==> (es[0].Hello? || Signals([es[0]])) && Signals(es[1..]))
  }

  /** The payloads of the signals for a peer. */
  function PayloadsTo(es: seq<Entry>, p: string): seq<seq<Byte>> {
    if es == [] then []
    else (if es[0].Sig? && es[0].peer == p then [es[0].data] else []) + PayloadsTo(es[1..], p)
  }

  /** The name under which the server knows a client that sends e first. */
  function NameTaken(me: string, e: Entry): string {
    TrimSpace(Text(me + "\n", e))
  }

  /** A signal with a payload, when it is taken for the greeting, makes a name with a space in
      it.  What follows under that name cannot be decoded any more, unless it is empty. */
  predicate Garbles(first: Entry) {
    first.Sig? && first.peer != "" && first.data != []
  }

  /** What the peer hears of a payload that follows the first entry of a connection. */
  function Heard(first: Entry, data: seq<Byte>): seq<seq<Byte>> {
    if !Garbles(first) then [data] else if data == [] then [first.data] else []
  }

  /** All that a peer hears of the entries es after the first one. */
  function AllHeard(first: Entry, es: seq<Entry>, p: string): seq<seq<Byte>> {
    if es == [] then []
    else (if es[0].Sig? && es[0].peer == p then Heard(first, es[0].data) else []) + AllHeard(first, es[1..], p)
  }

  // ---------- The name ----------

  lemma TrimSignal(p: string, data: seq<Byte>)
    requires Identity(p)
    ensures TrimSpace(Signal(p, data))
         == if data == [] then p else if p == "" then HexEncode(data) else p + " " + HexEncode(data)
  {
    HexNoSpace(data);
    hide HexEncode, IsSpace;
    var s := Signal(p, data);
    var hex := HexEncode(data);
    BlankEnds();
    if p == "" {
      assert s == " " + (hex + "\n") && s[1..] == hex + "\n";
      TrimIdentity(hex);
      assert data == [] ==> hex == "" by { EmptyHex(data); }
      SomeHex(data);
    } else {
      var t := p + " " + hex;
      assert s[..|s| - 1] == t && s[0] == p[0] && s[|s| - 1] == '\n';
      assert TrimSpace(s) == TrimSpace(t);
      EmptyHex(data);
      SomeHex(data);
      if data == [] {
        assert t == p + " " && t[..|t| - 1] == p && t[0] == p[0] && t[|t| - 1] == ' ';
        TrimIdentity(p);
      } else {
        assert t[0] == p[0] && t[|t| - 1] == hex[|hex| - 1];
      }
    }
  }

  lemma BlankEnds()
    ensures IsSpace(' ') && IsSpace('\n')
  {
  }

  lemma EmptyHex(data: seq<Byte>)
    ensures data == [] ==> HexEncode(data) == ""
  {
  }

  lemma SomeHex(data: seq<Byte>)
    ensures data != [] ==> HexEncode(data) != ""
  {
  }

  lemma {:induction false} HexNoSpace(data: seq<Byte>)
    ensures Identity(HexEncode(data))
  {
    if data != [] {
      DigitNoSpace(data[0] / 16);
      DigitNoSpace(data[0] % 16);
      HexNoSpace(data[1..]);
      hide HexDigit, IsSpace;
    }
  }

  lemma DigitNoSpace(v: int)
    requires 0 <= v < 16
    ensures !IsSpace(HexDigit(v))
  {
  }

  lemma NoBlank(s: string)
    requires Identity(s)
    ensures ' ' !in s && '\n' !in s
  {
  }

  /** A name has a space in it just when its first line was a signal that garbles. */
  lemma NameIs(me: string, e: Entry)
    requires Identity(me) && (e.Sig? ==> Identity(e.peer))
    ensures '\n' !in NameTaken(me, e)
    ensures if Garbles(e) then NameTaken(me, e) == e.peer + " " + HexEncode(e.data) else ' ' !in NameTaken(me, e)
    ensures e.Hello? ==> NameTaken(me, e) == me
  {
    match e
    case Hello =>
      TrimIdentity(me);
      NoBlank(me);
      hide TrimSpace;
    case Sig(peer, data) =>
      TrimSignal(peer, data);
      HexNoSpace(data);
      NoBlank(peer);
      NoBlank(HexEncode(data));
      hide TrimSpace, Signal, HexEncode;
  }

  // ---------- What is heard ----------

  lemma {:induction false} HexThen(data: seq<Byte>, s: string)
    ensures HexDecode(HexEncode(data) + s) == After(data, HexDecode(s))
  {
    hide HexDecode, HexDigit;
    if data == [] {
      assert HexEncode(data) + s == s;
      NothingBefore(HexDecode(s));
    } else {
      HexThen(data[1..], s);
      PairRoundTrip(data[0], HexEncode(data[1..]) + s);
      hide HexEncode;
      PairFirst(data, s);
      OneBefore(data, HexDecode(s));
    }
  }

  lemma PairFirst(data: seq<Byte>, s: string)
    requires data != []
    ensures HexEncode(data) + s == [HexDigit(data[0] / 16), HexDigit(data[0] % 16)] + (HexEncode(data[1..]) + s)
  {
    hide HexDigit;
  }

  lemma OneBefore(data: seq<Byte>, r: Option<seq<Byte>>)
    requires data != []
    ensures After(data, r) == if r.None? then None else Some([data[0]] + After(data[1..], r).value)
  {
    if r.Some? {
      assert [data[0]] + (data[1..] + r.value) == data + r.value;
    }
  }

  lemma SpaceThenHex(data: seq<Byte>)
    ensures HexDecode(" " + HexEncode(data)) == if data == [] then Some([]) else None
  {
    EmptyHex(data);
    if data != [] {
      SomeHex(data);
      hide HexEncode;
      var s := " " + HexEncode(data);
      assert |s| >= 2 && s[0] == ' ' && HexDigitVal(' ') == -1;
    }
  }

  lemma PlainPayload(name: string, data: seq<Byte>)
    requires ' ' !in name && '\n' !in name
    ensures var line := name + " " + HexEncode(data);
            '\n' !in line && Payload(line) == Some(data)
  {
    HexRoundTrip(data);
    hide HexEncode, HexDecode;
    var line := name + " " + HexEncode(data);
    assert line[..|name|] == name && line[|name| + 1..] == HexEncode(data);
    FindIs(line, ' ', |name|);
  }

  lemma GarbledPayload(peer: string, before: seq<Byte>, data: seq<Byte>)
    requires ' ' !in peer && '\n' !in peer
    ensures var line := peer + " " + HexEncode(before) + " " + HexEncode(data);
            '\n' !in line && Payload(line) == if data == [] then Some(before) else None
  {
    HexRoundTrip(before);
    HexRoundTrip(data);
    HexThen(before, " " + HexEncode(data));
    SpaceThenHex(data);
    hide HexEncode, HexDecode;
    var line := peer + " " + HexEncode(before) + " " + HexEncode(data);
    assert line[..|peer|] == peer && line[|peer|] == ' ';
    FindIs(line, ' ', |peer|);
    assert line[|peer| + 1..] == HexEncode(before) + (" " + HexEncode(data));
    assert before + [] == before;
  }

  /** The payload of a line that the server wrote for a signal. */
  lemma PayloadHeard(me: string, first: Entry, data: seq<Byte>)
    requires Identity(me) && (first.Sig? ==> Identity(first.peer))
    ensures var line := NameTaken(me, first) + " " + HexEncode(data);
            '\n' !in line && AsSeq(Payload(line)) == Heard(first, data)
  {
    NameIs(me, first);
    hide NameTaken, Payload;
    if Garbles(first) {
      NoBlank(first.peer);
      GarbledPayload(first.peer, first.data, data);
    } else {
      PlainPayload(NameTaken(me, first), data);
    }
  }

  /** After the first line, what the server writes for a peer carries to it what is heard. */
  lemma {:induction false} RestHeard(s: Connection, ids: map<Connection, string>, me: string, first: Entry,
                                     es: seq<Entry>, p: string)
    requires Identity(me) && (first.Sig? ==> Identity(first.peer)) && Signals(es)
    requires s in ids && ids[s] == NameTaken(me, first)
    ensures var text := Written(Messages(Inputs(s, Texts(me + "\n", es)), ids), p);
            Dispatched(text) == AllHeard(first, es, p) && Unfinished(text) == ""
    decreases |es|
  {
    hide Forward, Signal, Dispatched, Unfinished, NameTaken, Heard, Signals;
    var g := me + "\n";
    if es == [] {
      NothingToDispatch();
    } else {
      var e, rest, name := es[0], es[1..], ids[s];
      SignalsSplit(es);
      RestHeard(s, ids, me, first, rest, p);
      FirstText(g, es);
      ForwardSignal(name, e.peer, e.data);
      var lines := Texts(g, es);
      var more := Messages(Inputs(s, Texts(g, rest)), ids);
      assert Inputs(s, lines)[1..] == Inputs(s, Texts(g, rest));
      var m := (name, Signal(e.peer, e.data));
      assert ([m] + more)[1..] == more;
      assert Messages(Inputs(s, lines), ids) == [m] + more;
      var tail := Written(more, p);
      PayloadHeard(me, first, e.data);
      if e.peer == p {
        SignalThen(name, e.data, tail);
        assert Written([m] + more, p) == Signal(name, e.data) + tail;
      } else {
        assert Written([m] + more, p) == "" + tail == tail;
        assert [] + AllHeard(first, rest, p) == AllHeard(first, rest, p);
      }
    }
  }

  lemma SignalsSplit(es: seq<Entry>)
    requires Signals(es) && es != []
    ensures es[0].Sig? && Identity(es[0].peer) && Signals(es[1..])
  {
    assert es[0] in es;
  }

  lemma FirstText(g: string, es: seq<Entry>)
    requires es != []
    ensures Texts(g, es)[0] == Text(g, es[0]) && Texts(g, es)[1..] == Texts(g, es[1..])
  {
    assert [es[0]] + es[1..] == es && [es[0]][..0] == [];
    TextsOfParts(g, [es[0]], es[1..]);
    assert Texts(g, [es[0]]) == [Text(g, es[0])];
    hide Texts, Text;
  }

  lemma SignalThen(name: string, data: seq<Byte>, tail: string)
    requires var line := name + " " + HexEncode(data); '\n' !in line
    ensures Dispatched(Signal(name, data) + tail) == AsSeq(Payload(name + " " + HexEncode(data))) + Dispatched(tail)
    ensures Unfinished(Signal(name, data) + tail) == Unfinished(tail)
  {
    hide HexEncode, Dispatched, Unfinished, Payload;
    var line := name + " " + HexEncode(data);
    OneLine(line, tail);
    LineLeavesNothing(line, tail);
  }

  /** What is sent falls into lines again, one for each entry. */
  lemma {:induction false} LinesOfTexts(me: string, es: seq<Entry>)
    requires Sendable(me, es)
    ensures Lines(Concat(Texts(me + "\n", es))) == Texts(me + "\n", es)
    decreases |es|
  {
    var g := me + "\n";
    if es == [] {
      assert Find("", '\n') == 0;
    } else {
      hide Lines, Texts, Text, Identity, Signals;
      SendableRest(me, es);
      LinesOfTexts(me, es[1..]);
      FirstText(g, es);
      var line := LineOf(me, es[0]);
      LinesFrom(line, Concat(Texts(g, es[1..])));
    }
  }

  lemma SendableRest(me: string, es: seq<Entry>)
    requires Sendable(me, es) && es != []
    ensures Sendable(me, es[1..]) && Identity(me) && (es[0].Sig? ==> Identity(es[0].peer))
  {
    hide Identity;
    var rest := es[1..];
    assert rest != [] ==> rest[0] in rest && forall e | e in rest[1..] :: e in rest;
    assert es[0] in [es[0]];
  }

  lemma LineOf(me: string, e: Entry) returns (line: string)
    requires Identity(me) && (e.Sig? ==> Identity(e.peer))
    ensures '\n' !in line && Text(me + "\n", e) == line + "\n"
  {
    if e.Sig? {
      NoBlank(e.peer);
      HexRoundTrip(e.data);
      line := e.peer + " " + HexEncode(e.data);
    } else {
      NoBlank(me);
      line := me;
    }
    hide HexEncode, Identity;
  }

  /** A stream that reaches the server on a new connection s carries to whoever goes by the name
      p after its first line what is heard of the signals for p. */
  lemma StreamHeard(s: Connection, ids: map<Connection, string>, me: string, sent: seq<Entry>, p: string)
    requires s !in ids && Sendable(me, sent)
    ensures var lines := Lines(Concat(Texts(me + "\n", sent)));
            && lines == Texts(me + "\n", sent)
            && (sent != [] ==> lines != [] && TrimSpace(lines[0]) == NameTaken(me, sent[0]))
            && var text := Written(Messages(Inputs(s, lines), ids), p);
               && Dispatched(text) == (if sent == [] then [] else AllHeard(sent[0], sent[1..], p))
               && Unfinished(text) == ""
  {
    hide Lines, TrimSpace, Dispatched, Unfinished, Forward, Concat, Signal;
    LinesOfTexts(me, sent);
    var g := me + "\n";
    var lines := Texts(g, sent);
    if sent == [] {
      NothingToDispatch();
      assert Written(Messages(Inputs(s, lines), ids), p) == "";
    } else {
      FirstText(g, sent);
      var name := NameTaken(me, sent[0]);
      assert sent[0] in [sent[0]];
      RestHeard(s, ids[s := name], me, sent[0], sent[1..], p);
      FirstNames(s, ids, lines);
    }
  }

  lemma FirstNames(s: Connection, ids: map<Connection, string>, lines: seq<string>)
    requires s !in ids && lines != []
    ensures var events := Inputs(s, lines);
            && events != [] && events[0] == Input(s, lines[0]) && events[1..] == Inputs(s, lines[1..])
            && Messages(events, ids) == Messages(Inputs(s, lines[1..]), ids[s := TrimSpace(lines[0])])
  {
    hide TrimSpace;
    var events, e := Inputs(s, lines), Input(s, lines[0]);
    var rest := Inputs(s, lines[1..]);
    assert events == [e] + rest;
    assert events[0] == e && events[1..] == rest;
    hide Inputs;
    assert e.conn !in ids && e.Input? && e.line == lines[0];
  }

  lemma {:induction false} KeepsName(s: Connection, ids: map<Connection, string>, lines: seq<string>, p: string,
                                     r: Connection)
    requires s in ids
    ensures Keeps(Inputs(s, lines), ids, p, r)
  {
    if lines != [] {
      KeepsName(s, ids, lines[1..], p, r);
      assert Inputs(s, lines)[1..] == Inputs(s, lines[1..]);
    }
  }

  /** The server takes in the lines of a new connection s.  What is written for p goes to the
      connection of that name; if the first line takes the name, that is s from then on, and
      the one that had it gets nothing. */
  method ServeStream(server: Server, s: Connection, lines: seq<string>, p: string)
    requires server.Valid() && s !in server.identities && lines != []
    requires p in server.connections || TrimSpace(lines[0]) == p
    modifies server
    ensures server.Valid()
    ensures var text := Written(Messages(Inputs(s, lines), old(server.identities)), p);
            && (TrimSpace(lines[0]) == p ==> s in server.written && server.written[s] == text)
            && (p in old(server.connections) ==>
                  var r := old(server.connections[p]);
                  && r in old(server.written) && r in server.written
                  && server.written[r] == old(server.written[r]) + if TrimSpace(lines[0]) == p then "" else text)
  {
    hide TrimSpace, Forward, Messages, Written, Keeps, Inputs;
    FirstNames(s, server.identities, lines);
    var events := Inputs(s, lines);
    ghost var name := TrimSpace(lines[0]);
    ghost var held := p in server.connections;
    ghost var r := if held then server.connections[p] else s;
    assert held ==> r in server.identities && r in server.written;
    server.ServeEvent(events[0]);
    assert held && name == p ==> server.Nameless(r);
    KeepsName(s, server.identities, lines[1..], p, server.connections[p]);
    server.Serve(events[1..], p, server.connections[p]);
    assert p in server.connections && server.connections[p] in server.written;
  }

  // ---------- What is missing ----------

  lemma {:induction false} PayloadsOfParts(a: seq<Entry>, b: seq<Entry>, p: string)
    ensures PayloadsTo(a + b, p) == PayloadsTo(a, p) + PayloadsTo(b, p)
  {
    if a == [] {
      assert a + b == b;
    } else {
      assert (a + b)[1..] == a[1..] + b;
      PayloadsOfParts(a[1..], b, p);
    }
  }

  predicate IsFor(e: Entry, p: string) {
    e.Sig? && e.peer == p
  }

  /** Of the payloads for a peer all are kept iff none of its signals is unsent, and then they
      are as many. */
  lemma {:induction false} KeptPayloads(es: seq<Entry>, unsent: set<int>, p: string)
    ensures var kept, all := PayloadsTo(Kept(es, unsent), p), PayloadsTo(es, p);
            && |kept| <= |all|
            && (|kept| == |all| ==> kept == all)
            && (|kept| == |all| <==> forall j | 0 <= j < |es| && IsFor(es[j], p) :: j !in unsent)
  {
    if es != [] {
      var front, n := es[..|es| - 1], |es| - 1;
      var last := [es[n]];
      KeptPayloads(front, unsent, p);
      assert front + last == es;
      PayloadsOfParts(front, last, p);
      PayloadsOfParts(Kept(front, unsent), last, p);
      assert last[1..] == [];
      assert PayloadsTo(last, p) == if IsFor(es[n], p) then [es[n].data] else [];
      assert Kept(front, unsent) + [] == Kept(front, unsent);
      hide PayloadsTo;
    }
  }

  lemma {:induction false} KeptEntries(es: seq<Entry>, unsent: set<int>)
    requires Signals(es)
    ensures Signals(Kept(es, unsent))
  {
    if es != [] {
      assert forall e | e in es[..|es| - 1] :: e in es;
      assert es[|es| - 1] in es;
      KeptEntries(es[..|es| - 1], unsent);
    }
  }

  /** The first entry comes first if it is sent at all. */
  lemma {:induction false} KeptFirst(es: seq<Entry>, unsent: set<int>)
    requires es != [] && Signals(es[1..])
    ensures var sent := Kept(es, unsent);
            if 0 in unsent then Signals(sent) else sent != [] && sent[0] == es[0] && Signals(sent[1..])
  {
    var n := |es| - 1;
    if n > 0 {
      assert es[n] in es[1..] && forall e | e in es[..n][1..] :: e in es[1..];
      KeptFirst(es[..n], unsent);
      var front := Kept(es[..n], unsent);
      assert front != [] ==> (front + [es[n]])[1..] == front[1..] + [es[n]];
    }
  }

  /** What the peer hears in all.  Unless it is the sender itself, nothing reaches it once its
      name has been taken. */
  function Arrived(me: string, sent: seq<Entry>, p: string): seq<seq<Byte>> {
    if sent == [] || (p != me && NameTaken(me, sent[0]) == p) then [] else AllHeard(sent[0], sent[1..], p)
  }

  lemma {:induction false} HeardPlainly(first: Entry, es: seq<Entry>, p: string)
    requires !Garbles(first)
    ensures AllHeard(first, es, p) == PayloadsTo(es, p)
  {
    if es != [] {
      HeardPlainly(first, es[1..], p);
    }
  }

  /** Under a garbled name only empty payloads get through, each as that of the first signal. */
  lemma {:induction false} HeardGarbled(first: Entry, es: seq<Entry>, p: string)
    requires Garbles(first)
    ensures var heard, all := AllHeard(first, es, p), PayloadsTo(es, p);
            && |heard| <= |all| && (forall x | x in heard :: x == first.data)
            && (|heard| == |all| ==> forall x | x in all :: x == [])
            && (heard == [] <==> [] !in all)
  {
    if es != [] {
      HeardGarbled(first, es[1..], p);
      hide Garbles;
    }
  }

  lemma NotInstead(first: Entry, es: seq<Entry>, p: string)
    requires Garbles(first)
    ensures AllHeard(first, es, p) == PayloadsTo(es, p) ==> PayloadsTo(es, p) == []
  {
    HeardGarbled(first, es, p);
    var heard, all := AllHeard(first, es, p), PayloadsTo(es, p);
    assert all != [] ==> all[0] in all;
    assert heard != [] ==> heard[0] in heard;
  }

  /** When a peer hears exactly the payloads for it: there are none, or all of them are sent and
      either the greeting is sent, too, or an empty signal for someone else takes its place. */
  ghost predicate AllArrive(me: string, es: seq<Entry>, unsent: set<int>, p: string) {
    var sent := Kept(es, unsent);
    || PayloadsTo(es, p) == []
    || (&& (forall j | 0 <= j < |es| && IsFor(es[j], p) :: j !in unsent)
        && (|| 0 !in unsent
            || (sent != [] && !Garbles(sent[0]) && NameTaken(me, sent[0]) != p && !IsFor(sent[0], p))))
  }

  lemma ArrivedIff(me: string, es: seq<Entry>, unsent: set<int>, p: string)
    requires Identity(me) && es != [] && es[0] == Hello && Signals(es[1..]) && (p != me || 0 !in unsent)
    ensures Arrived(me, Kept(es, unsent), p) == PayloadsTo(es, p) <==> AllArrive(me, es, unsent, p)
  {
    hide Kept, AllHeard, NameTaken, Identity, Garbles, Signals;
    var sent, all := Kept(es, unsent), PayloadsTo(es, p);
    KeptPayloads(es, unsent, p);
    KeptFirst(es, unsent);
    if sent != [] {
      var first, rest := sent[0], sent[1..];
      FirstPayload(sent, p);
      if 0 !in unsent {
        NameOfHello(me);
        HelloIsPlain();
        HeardPlainly(first, rest, p);
      } else if Garbles(first) {
        HeardGarbled(first, rest, p);
        NotInstead(first, rest, p);
      } else {
        HeardPlainly(first, rest, p);
      }
    }
    hide PayloadsTo;
  }

  lemma FirstPayload(sent: seq<Entry>, p: string)
    requires sent != []
    ensures PayloadsTo(sent, p) == (if IsFor(sent[0], p) then [sent[0].data] else []) + PayloadsTo(sent[1..], p)
  {
  }

  lemma NameOfHello(me: string)
    requires Identity(me)
    ensures NameTaken(me, Hello) == me
  {
    NameIs(me, Hello);
  }

  lemma HelloIsPlain()
    ensures !Garbles(Hello)
  {
  }

  // ---------- End to end ----------

  function Range(lo: int, hi: int): (r: set<int>)
    ensures forall j :: j in r <==> lo <= j < hi
    decreases hi - lo
  {
    if lo >= hi then {} else Range(lo, hi - 1) + {hi - 1}
  }

  /** The entries that have not been sent after k actions: gone or still waiting. */
  ghost function Unsent(s0: State, actions: seq<Action>, k: nat): set<int>
    requires k <= |actions|
  {
    var n := |Entries(actions, k)|;
    Gone(s0, actions, k) + Range(n - |StateAfter(s0, actions, k).queue|, n)
  }

  lemma {:induction false} KeptFront(es: seq<Entry>, n: nat, unsent: set<int>)
    requires n <= |es| && forall j | n <= j < |es| :: j in unsent
    ensures Kept(es, unsent) == Kept(es[..n], unsent)
    decreases |es|
  {
    if n < |es| {
      KeptFront(es[..|es| - 1], n, unsent);
      assert es[..|es| - 1][..n] == es[..n];
    } else {
      assert es[..n] == es;
    }
  }

  lemma SignalsInEntries(actions: seq<Action>, k: nat)
    requires k <= |actions| && forall a | a in actions && a.Send? :: Identity(a.peer)
    ensures Signals(Entries(actions, k)[1..])
  {
    if k > 0 {
      SignalsInEntries(actions, k - 1);
      var es := Entries(actions, k - 1);
      if actions[k - 1].Send? {
        var e := Sig(actions[k - 1].peer, actions[k - 1].data);
        assert actions[k - 1] in actions;
        assert (es + [e])[1..] == es[1..] + [e];
      } else {
        assert es + [] == es;
      }
    }
  }

  /** What has gone out is the text of the entries that are not unsent. */
  lemma SentStream(s0: State, actions: seq<Action>, me: string, k: nat)
    requires s0.Valid() && JustOpened(s0) && s0.greeting == me + "\n" && k <= |actions| && Live(s0, actions, k)
    requires Identity(me) && forall a | a in actions && a.Send? :: Identity(a.peer)
    ensures var sent := Kept(Entries(actions, k), Unsent(s0, actions, k));
            Sendable(me, sent) && StateAfter(s0, actions, k).transmitted == Concat(Texts(me + "\n", sent))
  {
    hide StateAfter, Entries, Concat, Texts, Kept, Identity, State.Valid;
    AllAccounted(s0, actions, k);
    ValidAfter(s0, actions, k);
    SignalsInEntries(actions, k);
    var s, es := StateAfter(s0, actions, k), Entries(actions, k);
    var gone, unsent := Gone(s0, actions, k), Unsent(s0, actions, k);
    var n := |es| - |s.queue|;
    KeptFront(es, n, unsent);
    KeptSame(es[..n], gone, unsent);
    KeptFirst(es, unsent);
    SendableIf(me, es[0], Kept(es, unsent));
  }

  lemma SendableIf(me: string, hello: Entry, sent: seq<Entry>)
    requires Identity(me) && hello == Hello
    requires Signals(sent) || (sent != [] && sent[0] == hello && Signals(sent[1..]))
    ensures Sendable(me, sent)
  {
    hide Identity;
    if sent != [] && Signals(sent) {
      assert sent[0] in sent && forall e | e in sent[1..] :: e in sent;
    }
  }

  /** What the server writes for p when the stream of a client comes in on a new connection.  If
      p is another client, it gets nothing once its name has been taken. */
  function Served(s: Connection, ids: map<Connection, string>, me: string, stream: string, p: string): string {
    var lines := Lines(stream);
    if lines == [] || (p != me && TrimSpace(lines[0]) == p) then "" else Written(Messages(Inputs(s, lines), ids), p)
  }

  /** One client sends signals to others, another reads what the server writes for it, each in
      any turns that keep its connection.  The reader dispatches exactly what Arrived says, and
      that is all the payloads for it, in order, iff AllArrive holds. */
  lemma EndToEnd(s0: State, actions: seq<Action>, me: string, s: Connection, ids: map<Connection, string>,
                 p: string, t0: State, turns: seq<Action>)
    requires s0.Valid() && JustOpened(s0) && s0.greeting == me + "\n" && Live(s0, actions, |actions|)
    requires Identity(me) && forall a | a in actions && a.Send? :: Identity(a.peer)
    requires s !in ids && (p != me || 0 !in Unsent(s0, actions, |actions|))
    requires t0.Valid() && t0.buffered == "" && Live(t0, turns, |turns|)
    requires AllReceived(turns, |turns|) == Served(s, ids, me, StateAfter(s0, actions, |actions|).transmitted, p)
    ensures var es, unsent := Entries(actions, |actions|), Unsent(s0, actions, |actions|);
            var t := StateAfter(t0, turns, |turns|);
            && t.dispatched == t0.dispatched + Arrived(me, Kept(es, unsent), p) && t.buffered == ""
            && (t.dispatched == t0.dispatched + PayloadsTo(es, p) <==> AllArrive(me, es, unsent, p))
  {
    hide StateAfter, Entries, Kept, Concat, Texts, Lines, TrimSpace, Written, Messages, Dispatched, Unfinished;
    hide Identity, State.Valid, JustOpened, Live, AllReceived;
    hide Unsent, AllArrive, AllHeard, PayloadsTo, Sendable, Signals;
    var k := |actions|;
    var es, unsent := Entries(actions, k), Unsent(s0, actions, k);
    var sent, stream := Kept(es, unsent), StateAfter(s0, actions, k).transmitted;
    SentStream(s0, actions, me, k);
    SignalsInEntries(actions, k);
    StreamHeard(s, ids, me, sent, p);
    NoLines(me);
    var text := Served(s, ids, me, stream, p);
    ServedArrives(s, ids, me, sent, p);
    DispatchedAsOne(t0, turns, |turns|);
    assert "" + text == text;
    ArrivedIff(me, es, unsent, p);
    SameAfter(t0.dispatched, Arrived(me, sent, p), PayloadsTo(es, p));
  }

  lemma NoLines(me: string)
    ensures Texts(me + "\n", []) == []
  {
  }

  lemma ServedArrives(s: Connection, ids: map<Connection, string>, me: string, sent: seq<Entry>, p: string)
    requires s !in ids && Sendable(me, sent)
    ensures var text := Served(s, ids, me, Concat(Texts(me + "\n", sent)), p);
            Dispatched(text) == Arrived(me, sent, p) && Unfinished(text) == ""
  {
    hide Concat, Lines, TrimSpace, Written, Messages, Dispatched, Unfinished, AllHeard, Sendable, NameTaken;
    StreamHeard(s, ids, me, sent, p);
    NothingToDispatch();
  }

  lemma SameAfter<T>(a: seq<T>, b: seq<T>, c: seq<T>)
    ensures a + b == a + c <==> b == c
  {
    assert (a + b)[|a|..] == b && (a + c)[|a|..] == c;
  }

  /** With all signals for one peer: they all arrive iff none of them found the queue backed up
      and none is still waiting. */
  lemma AllForOne(s0: State, actions: seq<Action>, me: string, p: string, k: nat)
    requires s0.Valid() && JustOpened(s0) && s0.greeting == me + "\n" && k <= |actions| && Live(s0, actions, k)
    requires |Entries(actions, k)| > 1 && forall j | 0 < j < |Entries(actions, k)| :: IsFor(Entries(actions, k)[j], p)
    ensures AllArrive(me, Entries(actions, k), Unsent(s0, actions, k), p)
       <==> StateAfter(s0, actions, k).queue == [] && forall i | 0 <= i < k :: !Overflows(s0, actions, i)
  {
    hide StateAfter, Entries, Concat, Texts, Kept, State.Valid, JustOpened, Live, Overflows, NameTaken, Garbles;
    AllAccounted(s0, actions, k);
    var s, es := StateAfter(s0, actions, k), Entries(actions, k);
    var gone, unsent := Gone(s0, actions, k), Unsent(s0, actions, k);
    SomePayload(es, p);
    KeptForOne(es, unsent, p);
    assert (exists i :: 0 <= i < k && Overflows(s0, actions, i)) <==> gone != {} by {
      if i :| 0 <= i < k && Overflows(s0, actions, i) {
        assert |Entries(actions, i)| - 33 in gone;
      }
    }
    hide PayloadsTo;
    if s.queue != [] {
      assert |es| - 1 in unsent && IsFor(es[|es| - 1], p);
    }
  }

  lemma SomePayload(es: seq<Entry>, p: string)
    requires |es| > 1 && es[0] == Hello && IsFor(es[1], p)
    ensures PayloadsTo(es, p) != []
  {
    assert es[1..][0] == es[1];
    assert PayloadsTo(es[1..], p) != [];
  }

  lemma {:induction false} KeptForOne(es: seq<Entry>, unsent: set<int>, p: string)
    requires es != [] && forall j | 0 < j < |es| :: IsFor(es[j], p)
    ensures 0 in unsent ==> forall e | e in Kept(es, unsent) :: IsFor(e, p)
  {
    if |es| > 1 {
      KeptForOne(es[..|es| - 1], unsent, p);
    }
  }

  /** When 33 signals, with names and payloads, are queued before the greeting goes out, nobody
      hears anything of the connection, whatever follows. */
  lemma NothingHeard(s0: State, actions: seq<Action>, me: string, s: Connection, ids: map<Connection, string>,
                     q: string)
    requires s0.Valid() && JustOpened(s0) && s0.greeting == me + "\n" && Live(s0, actions, |actions|)
    requires s0.queue == [s0.greeting] && |actions| >= 33 && forall i | 0 <= i < 33 :: actions[i].Send?
    requires Identity(me) && s !in ids
    requires forall a | a in actions && a.Send? :: Identity(a.peer) && a.peer != "" && a.data != []
    ensures var lines := Lines(StateAfter(s0, actions, |actions|).transmitted);
            Dispatched(Written(Messages(Inputs(s, lines), ids), q)) == []
  {
    hide StateAfter, Entries, Kept, Concat, Texts, Lines, TrimSpace, Written, Messages, Dispatched, Unfinished;
    hide Identity, State.Valid, JustOpened, Live, Sendable, NameTaken;
    var k := |actions|;
    var es, unsent := Entries(actions, k), Unsent(s0, actions, k);
    var sent := Kept(es, unsent);
    GreetingPushedOut(s0, actions, k);
    SentStream(s0, actions, me, k);
    StreamHeard(s, ids, me, sent, q);
    AllGarble(actions, k);
    KeptGarble(es, unsent);
    if sent != [] {
      HeardGarbled(sent[0], sent[1..], q);
      NoneEmpty(sent[1..], q);
    }
  }

  lemma AllGarble(actions: seq<Action>, k: nat)
    requires k <= |actions| && forall a | a in actions && a.Send? :: a.peer != "" && a.data != []
    ensures var es := Entries(actions, k); es != [] && forall j | 0 < j < |es| :: Garbles(es[j])
  {
    if k > 0 {
      AllGarble(actions, k - 1);
      assert actions[k - 1] in actions;
    }
  }

  lemma {:induction false} KeptGarble(es: seq<Entry>, unsent: set<int>)
    requires es != [] && 0 in unsent && forall j | 0 < j < |es| :: Garbles(es[j])
    ensures forall e | e in Kept(es, unsent) :: Garbles(e)
  {
    if |es| > 1 {
      KeptGarble(es[..|es| - 1], unsent);
    }
  }

  lemma {:induction false} NoneEmpty(es: seq<Entry>, q: string)
    requires forall e | e in es :: Garbles(e)
    ensures [] !in PayloadsTo(es, q)
  {
    if es != [] {
      assert es[0] in es && forall e | e in es[1..] :: e in es;
      NoneEmpty(es[1..], q);
    }
  }
}
