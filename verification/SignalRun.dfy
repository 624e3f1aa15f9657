/** Whole runs of a signaling client: what becomes of everything it queues and of all that it
    reads. */
module SignalRun {
  import opened Wrappers
  import opened SignalText
  import opened SignalClient

  /** What happens to a client: a signal is queued, or it gets a turn. */
  datatype Action =
    | Send(peer: string, data: seq<Byte>)
    | Turn(socketOk: bool, recvs: seq<RecvResult>, sends: seq<SendResult>)

  function Do(s: State, a: Action): State {
    match a
    case Send(peer, data) => Queued(s, Signal(peer, data))
    case Turn(socketOk, recvs, sends) => AfterTurn(s, socketOk, recvs, sends)
  }

  /** The state after the first k actions, from s0 on. */
  function StateAfter(s0: State, actions: seq<Action>, k: nat): State
    requires k <= |actions|
  {
    if k == 0 then s0 else Do(StateAfter(s0, actions, k - 1), actions[k - 1])
  }

  method Run(client: Client, actions: seq<Action>)
    modifies client
    ensures client.View() == StateAfter(old(client.View()), actions, |actions|)
  {
    hide AfterTurn, Signal, Backlog;
    for k := 0 to |actions|
      invariant client.View() == StateAfter(old(client.View()), actions, k)
    {
      match actions[k] {
        case Send(peer, data) => client.SendSignal(peer, data);
        case Turn(socketOk, recvs, sends) => client.Poll(socketOk, recvs, sends);
      }
    }
  }

  lemma {:induction false} ValidAfter(s0: State, actions: seq<Action>, k: nat)
    requires s0.Valid() && k <= |actions|
    ensures StateAfter(s0, actions, k).Valid() && StateAfter(s0, actions, k).greeting == s0.greeting
    decreases k
  {
    hide AfterTurn, State.Valid;
    if k > 0 {
      ValidAfter(s0, actions, k - 1);
      DoKeepsValid(StateAfter(s0, actions, k - 1), actions[k - 1]);
    }
  }

  lemma DoKeepsValid(s: State, a: Action)
    requires s.Valid()
    ensures Do(s, a).Valid() && Do(s, a).greeting == s.greeting
  {
    if a.Turn? {
      if s.connected {
        TurnKept(s, a.socketOk, a.recvs, a.sends);
      } else {
        TurnOpens(s, a.socketOk, a.recvs, a.sends);
      }
    }
    hide AfterTurn;
  }

  /** In any run, a connection that is there after an action but not before is a new one. */
  lemma ConnectionOpens(s0: State, actions: seq<Action>, k: nat)
    requires s0.Valid() && k < |actions|
    requires !StateAfter(s0, actions, k).connected && StateAfter(s0, actions, k + 1).connected
    ensures JustOpened(StateAfter(s0, actions, k + 1))
  {
    ValidAfter(s0, actions, k);
    var s, a := StateAfter(s0, actions, k), actions[k];
    assert StateAfter(s0, actions, k + 1) == Do(s, a);
    if a.Turn? {
      TurnOpens(s, a.socketOk, a.recvs, a.sends);
    }
    hide AfterTurn, JustOpened;
  }

  /** The connection is kept throughout the first k actions. */
  predicate Live(s0: State, actions: seq<Action>, k: nat)
    requires k <= |actions|
  {
    forall i | 0 <= i <= k :: StateAfter(s0, actions, i).connected
  }

  // ---------- What is received ----------

  /** All text read in the first k actions. */
  function AllReceived(actions: seq<Action>, k: nat): string
    requires k <= |actions|
  {
    if k == 0 then ""
    else
      var text := if actions[k - 1].Turn? then Received(actions[k - 1].recvs) else None;
      AllReceived(actions, k - 1) + if text.Some? then text.value else ""
  }

  /** As long as a connection is kept, what has been dispatched is what the text read on it
      amounts to, in whatever pieces and turns it came and whatever was sent in between. */
  lemma {:induction false} DispatchedAsOne(s0: State, actions: seq<Action>, k: nat)
    requires s0.Valid() && k <= |actions| && Live(s0, actions, k)
    ensures var s, text := StateAfter(s0, actions, k), s0.buffered + AllReceived(actions, k);
            s.dispatched == s0.dispatched + Dispatched(text) && s.buffered == Unfinished(text)
    decreases k
  {
    hide AfterTurn, Dispatched, Unfinished, Received, Backlog, Signal;
    if k == 0 {
      NothingRead(s0);
    } else {
      DispatchedAsOne(s0, actions, k - 1);
      ValidAfter(s0, actions, k - 1);
      var s, a := StateAfter(s0, actions, k - 1), actions[k - 1];
      var text := s0.buffered + AllReceived(actions, k - 1);
      assert StateAfter(s0, actions, k) == Do(s, a);
      if a.Turn? {
        TurnKept(s, a.socketOk, a.recvs, a.sends);
        OneMorePiece(s0.dispatched, text, Received(a.recvs).value);
        Regroup(s0.buffered, AllReceived(actions, k - 1), Received(a.recvs).value);
      } else {
        Regroup(s0.buffered, AllReceived(actions, k - 1), "");
        assert text + "" == text;
      }
    }
  }

  lemma NothingRead(s: State)
    requires s.Valid()
    ensures s.dispatched + Dispatched(s.buffered + "") == s.dispatched && Unfinished(s.buffered + "") == s.buffered
  {
    assert s.buffered + "" == s.buffered && s.buffered[..|s.buffered|] == s.buffered;
    FindIs(s.buffered, '\n', |s.buffered|);
  }

  lemma OneMorePiece(before: seq<seq<Byte>>, text: string, piece: string)
    ensures before + Dispatched(text) + Dispatched(Unfinished(text) + piece) == before + Dispatched(text + piece)
    ensures Unfinished(Unfinished(text) + piece) == Unfinished(text + piece)
  {
    hide Dispatched, Unfinished;
    DispatchInPieces(text, piece);
  }

  lemma Regroup(a: string, b: string, c: string)
    ensures a + (b + c) == a + b + c
  {
  }

  // ---------- What is sent ----------

  /** What a client queues on a connection. */
  datatype Entry = Hello | Sig(peer: string, data: seq<Byte>)

  function Text(greeting: string, e: Entry): string {
    match e
    case Hello => greeting
    case Sig(peer, data) => Signal(peer, data)
  }

  function Texts(greeting: string, es: seq<Entry>): (ts: seq<string>)
    ensures |ts| == |es|
  {
    if es == [] then [] else Texts(greeting, es[..|es| - 1]) + [Text(greeting, es[|es| - 1])]
  }

  /** All that is queued on a connection in its first k actions. */
  function Entries(actions: seq<Action>, k: nat): (es: seq<Entry>)
    requires k <= |actions|
    ensures |es| > 0 && es[0] == Hello && forall j | 0 < j < |es| :: es[j].Sig?
  {
    if k == 0 then [Hello]
    else Entries(actions, k - 1) + if actions[k - 1].Send? then [Sig(actions[k - 1].peer, actions[k - 1].data)] else []
  }

  /** A signal finds the queue backed up. */
  predicate Overflows(s0: State, actions: seq<Action>, i: nat)
    requires i < |actions|
  {
    actions[i].Send? && |StateAfter(s0, actions, i).queue| > MAX_BACKLOG
  }

  /** The entries that are never sent: whenever a signal finds the queue backed up, the entry 33
      places before it. */
  ghost function Gone(s0: State, actions: seq<Action>, k: nat): set<int>
    requires k <= |actions|
  {
    set i | 0 <= i < k && Overflows(s0, actions, i) :: |Entries(actions, i)| - 33
  }

  /** The entries that are left, by their places from the first on. */
  ghost function Kept(es: seq<Entry>, gone: set<int>): (r: seq<Entry>)
    ensures |r| <= |es|
  {
    if es == [] then []
    else Kept(es[..|es| - 1], gone) + if |es| - 1 in gone then [] else [es[|es| - 1]]
  }

  lemma {:induction false} TextsAt(greeting: string, es: seq<Entry>, j: nat)
    requires j < |es|
    ensures Texts(greeting, es)[j] == Text(greeting, es[j])
  {
    if j < |es| - 1 {
      TextsAt(greeting, es[..|es| - 1], j);
    }
  }

  lemma {:induction false} TextsOfParts(greeting: string, a: seq<Entry>, b: seq<Entry>)
    ensures Texts(greeting, a + b) == Texts(greeting, a) + Texts(greeting, b)
    decreases |b|
  {
    if b == [] {
      assert a + b == a;
    } else {
      assert (a + b)[..|a + b| - 1] == a + b[..|b| - 1];
      TextsOfParts(greeting, a, b[..|b| - 1]);
    }
  }

  lemma {:induction false} ConcatParts(a: seq<string>, b: seq<string>)
    ensures Concat(a + b) == Concat(a) + Concat(b)
  {
    assert (a + b)[..|a|] == a && (a + b)[|a|..] == b;
    ConcatSplit(a + b, |a|);
  }

  /** Places from which nothing is gone are kept as they are. */
  lemma {:induction false} KeptRest(es: seq<Entry>, n: nat, gone: set<int>)
    requires n <= |es| && forall j | j in gone :: j < n || |es| <= j
    ensures Kept(es, gone) == Kept(es[..n], gone) + es[n..]
    decreases |es|
  {
    if n == |es| {
      assert es[..n] == es && es[n..] == [];
    } else {
      var front := es[..|es| - 1];
      KeptRest(front, n, gone);
      assert front[..n] == es[..n] && front[n..] + [es[|es| - 1]] == es[n..];
    }
  }

  lemma {:induction false} KeptSame(es: seq<Entry>, a: set<int>, b: set<int>)
    requires forall j | 0 <= j < |es| :: j in a <==> j in b
    ensures Kept(es, a) == Kept(es, b)
  {
    if es != [] {
      KeptSame(es[..|es| - 1], a, b);
    }
  }

  /** The first n entries have left the queue, by going out or for good; the others wait. */
  ghost predicate Accounted(s: State, es: seq<Entry>, gone: set<int>) {
    && |s.queue| <= 33 && |s.queue| <= |es|
    && var n := |es| - |s.queue|;
       && s.queue == Texts(s.greeting, es[n..])
       && s.transmitted == Concat(Texts(s.greeting, Kept(es[..n], gone)))
       && forall j | j in gone :: 0 <= j < n
  }

  /** On a connection that is kept, exactly the entries that are not gone go out, in order. */
  lemma {:induction false} AllAccounted(s0: State, actions: seq<Action>, k: nat)
    requires s0.Valid() && JustOpened(s0) && k <= |actions| && Live(s0, actions, k)
    ensures Accounted(StateAfter(s0, actions, k), Entries(actions, k), Gone(s0, actions, k))
    decreases k
  {
    hide AfterTurn, Accounted, Signal, Backlog;
    if k == 0 {
      AtFirst(s0);
      assert Gone(s0, actions, k) == {};
    } else {
      AllAccounted(s0, actions, k - 1);
      ValidAfter(s0, actions, k - 1);
      var s, es, gone := StateAfter(s0, actions, k - 1), Entries(actions, k - 1), Gone(s0, actions, k - 1);
      assert StateAfter(s0, actions, k) == Do(s, actions[k - 1]);
      match actions[k - 1] {
        case Send(peer, data) =>
          var more := if |s.queue| > MAX_BACKLOG then gone + {|es| - 33} else gone;
          assert Gone(s0, actions, k) == more by {
            GoneNext(s0, actions, k - 1);
          }
          AccountSend(s, es, gone, peer, data);
        case Turn(socketOk, recvs, sends) =>
          assert Gone(s0, actions, k) == gone by {
            GoneNext(s0, actions, k - 1);
          }
          AccountTurn(s, es, gone, socketOk, recvs, sends);
          assert es + [] == es;
      }
    }
  }

  lemma GoneNext(s0: State, actions: seq<Action>, k: nat)
    requires k < |actions|
    ensures Gone(s0, actions, k + 1)
         == Gone(s0, actions, k) + if Overflows(s0, actions, k) then {|Entries(actions, k)| - 33} else {}
  {
    hide Overflows;
  }

  lemma AtFirst(s: State)
    requires JustOpened(s)
    ensures Accounted(s, [Hello], {})
  {
    var es := [Hello];
    JustOne(s.greeting);
    assert es[..0] == [] && es[0..] == es && es[1..] == [] && es[..1] == es;
    assert Texts(s.greeting, es) == [s.greeting];
    assert Kept(es, {}) == es;
  }

  lemma AccountSend(s: State, es: seq<Entry>, gone: set<int>, peer: string, data: seq<Byte>)
    requires Accounted(s, es, gone)
    ensures var more := if |s.queue| > MAX_BACKLOG then gone + {|es| - 33} else gone;
            Accounted(Queued(s, Signal(peer, data)), es + [Sig(peer, data)], more)
  {
    hide Signal, Concat, Texts, Kept;
    var e := Sig(peer, data);
    OneMoreText(s.greeting, es, |es| - |s.queue|, e);
    assert Text(s.greeting, e) == Signal(peer, data);
    hide Text;
    if |s.queue| > MAX_BACKLOG {
      FirstForGood(s.greeting, es + [e], |es| - 33, gone);
    }
  }

  lemma OneMoreText(greeting: string, es: seq<Entry>, n: nat, e: Entry)
    requires n <= |es|
    ensures (es + [e])[..n] == es[..n]
    ensures Texts(greeting, (es + [e])[n..]) == Texts(greeting, es[n..]) + [Text(greeting, e)]
  {
    assert (es + [e])[n..] == es[n..] + [e];
    TextsOfParts(greeting, es[n..], [e]);
    hide Text;
  }

  /** The first entry of the queue goes for good. */
  lemma FirstForGood(greeting: string, es: seq<Entry>, n: nat, gone: set<int>)
    requires n < |es|
    ensures Kept(es[..n + 1], gone + {n}) == Kept(es[..n], gone)
    ensures Texts(greeting, es[n + 1..]) == Texts(greeting, es[n..])[1..]
  {
    assert es[..n + 1][..n] == es[..n];
    KeptSame(es[..n], gone, gone + {n});
    assert [es[n]] + es[n + 1..] == es[n..];
    TextsOfParts(greeting, [es[n]], es[n + 1..]);
    hide Texts;
  }

  lemma AccountTurn(s: State, es: seq<Entry>, gone: set<int>, socketOk: bool, recvs: seq<RecvResult>,
                    sends: seq<SendResult>)
    requires Accounted(s, es, gone) && s.connected && AfterTurn(s, socketOk, recvs, sends).connected
    ensures Accounted(AfterTurn(s, socketOk, recvs, sends), es, gone)
  {
    hide Concat, Received, SentCount, Dispatched, Unfinished, Texts, Kept;
    var n, c := |es| - |s.queue|, SentCount(|s.queue|, sends).0;
    var t := AfterTurn(s, socketOk, recvs, sends);
    assert t.queue == s.queue[c..] && t.transmitted == s.transmitted + Concat(s.queue[..c]);
    KeptRest(es[..n + c], n, gone);
    assert es[..n + c][..n] == es[..n];
    var sent, kept := es[n..n + c], Kept(es[..n], gone);
    TextsOfParts(s.greeting, sent, es[n + c..]);
    assert sent + es[n + c..] == es[n..];
    TextsOfParts(s.greeting, kept, sent);
    ConcatParts(Texts(s.greeting, kept), Texts(s.greeting, sent));
  }

  // ---------- Nothing is lost, just when ----------

  /** All that was queued, in order: sent, or still waiting. */
  ghost predicate NothingLost(s0: State, actions: seq<Action>, k: nat)
    requires k <= |actions|
  {
    var s := StateAfter(s0, actions, k);
    s.transmitted + Concat(s.queue) == Concat(Texts(s.greeting, Entries(actions, k)))
  }

  lemma {:induction false} KeptLength(greeting: string, es: seq<Entry>, gone: set<int>)
    requires greeting != ""
    ensures var kept, all := Concat(Texts(greeting, Kept(es, gone))), Concat(Texts(greeting, es));
            && |kept| <= |all| && (|kept| == |all| ==> forall j | 0 <= j < |es| :: j !in gone)
  {
    if es != [] {
      hide Concat;
      var front, last := es[..|es| - 1], es[|es| - 1];
      KeptLength(greeting, front, gone);
      ConcatAdds(Texts(greeting, front), Text(greeting, last));
      if |es| - 1 in gone {
        assert Kept(es, gone) == Kept(front, gone);
      } else {
        var kept := Kept(front, gone);
        assert (kept + [last])[..|kept|] == kept;
        ConcatAdds(Texts(greeting, kept), Text(greeting, last));
      }
    }
  }

  /** On a connection that is kept, everything queued goes out or waits, in order, iff no signal
      has found more than 32 waiting. */
  lemma LostIffBackedUp(s0: State, actions: seq<Action>, k: nat)
    requires s0.Valid() && JustOpened(s0) && s0.greeting != "" && k <= |actions| && Live(s0, actions, k)
    ensures NothingLost(s0, actions, k) <==> forall i | 0 <= i < k :: !Overflows(s0, actions, i)
  {
    hide Overflows, StateAfter, Entries, Concat, Texts, Kept;
    AllAccounted(s0, actions, k);
    ValidAfter(s0, actions, k);
    var s, es, gone := StateAfter(s0, actions, k), Entries(actions, k), Gone(s0, actions, k);
    var n := |es| - |s.queue|;
    KeptRest(es, n, gone);
    TextsOfParts(s.greeting, Kept(es[..n], gone), es[n..]);
    ConcatParts(Texts(s.greeting, Kept(es[..n], gone)), s.queue);
    KeptLength(s.greeting, es, gone);
    if i :| 0 <= i < k && Overflows(s0, actions, i) {
      assert |Entries(actions, i)| - 33 in gone;
    } else {
      assert gone == {};
      KeptRest(es, 0, gone);
      assert es[..0] == [] && [] + es[0..] == es;
    }
  }

  lemma OneMoreSend(s0: State, actions: seq<Action>, k: nat)
    requires k < |actions| && actions[k].Send?
    ensures var s, es := StateAfter(s0, actions, k), Entries(actions, k);
            var e := Sig(actions[k].peer, actions[k].data);
            && StateAfter(s0, actions, k + 1) == Queued(s, Text(s.greeting, e)) && Entries(actions, k + 1) == es + [e]
  {
    hide Signal, Queued;
  }

  lemma QueueTexts(s: State, es: seq<Entry>, e: Entry)
    requires |s.queue| <= MAX_BACKLOG && s.queue == Texts(s.greeting, es)
    ensures Queued(s, Text(s.greeting, e)).queue == Texts(s.greeting, es + [e])
  {
    hide Texts, Text;
    OneMoreText(s.greeting, es, 0, e);
    assert (es + [e])[0..] == es + [e] && es[0..] == es;
  }

  lemma HelloText(greeting: string)
    ensures Texts(greeting, [Hello]) == [greeting]
  {
    assert [Hello][..0] == [];
  }

  lemma {:induction false} FirstSignals(s0: State, actions: seq<Action>, k: nat, n: nat)
    requires s0.queue == [s0.greeting] && k <= |actions| && k <= n == MAX_BACKLOG
    requires forall i | 0 <= i < k :: actions[i].Send?
    ensures var s, es := StateAfter(s0, actions, k), Entries(actions, k);
            |es| == k + 1 && s.greeting == s0.greeting && s.queue == Texts(s.greeting, es)
    decreases k
  {
    hide Texts, Text, Do;
    if k == 0 {
      HelloText(s0.greeting);
    } else {
      FirstSignals(s0, actions, k - 1, n);
      OneMoreSend(s0, actions, k - 1);
      hide StateAfter, Entries;
      var s := StateAfter(s0, actions, k - 1);
      QueueTexts(s, Entries(actions, k - 1), Sig(actions[k - 1].peer, actions[k - 1].data));
    }
  }

  /** 33 signals before the first one can be sent push the greeting out of the queue. */
  lemma GreetingPushedOut(s0: State, actions: seq<Action>, k: nat)
    requires s0.queue == [s0.greeting] && 33 <= k <= |actions| && forall i | 0 <= i < 33 :: actions[i].Send?
    ensures StateAfter(s0, actions, 33).queue == Texts(s0.greeting, Entries(actions, 33)[1..])
    ensures 0 in Gone(s0, actions, k)
  {
    hide StateAfter, Entries, Texts;
    var n := MAX_BACKLOG;
    FirstSignals(s0, actions, n, n);
    LastSignal(s0, actions, n);
    assert Overflows(s0, actions, n);
  }

  lemma LastSignal(s0: State, actions: seq<Action>, n: nat)
    requires n == MAX_BACKLOG && n < |actions| && actions[n].Send?
    requires var s, es := StateAfter(s0, actions, n), Entries(actions, n);
             |es| == n + 1 && s.greeting == s0.greeting && s.queue == Texts(s.greeting, es)
    ensures StateAfter(s0, actions, n + 1).queue == Texts(s0.greeting, Entries(actions, n + 1)[1..])
  {
    hide StateAfter, Entries, Texts, Text;
    var s, es := StateAfter(s0, actions, n), Entries(actions, n);
    OneMoreSend(s0, actions, n);
    var e := Sig(actions[n].peer, actions[n].data);
    OneMoreText(s.greeting, es, 0, e);
    assert (es + [e])[0..] == es + [e] && es[0..] == es;
    FirstForGood(s.greeting, es + [e], 0, {});
    assert Backlog(s.queue) == s.queue[1..];
  }
}
