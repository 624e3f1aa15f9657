/** The per-link sequence number tracker: duplicate rejection over two paths with 64-bit masks,
    and the counters of lost, late and repeated packets. */
module LinkStats {
  import opened ReceiveWindow
  import opened LinkSpec
  import opened Wrappers

  class LinkStatsTracker {
    // Sending side
    var nextSendSequenceNumber: int

    // Receiving side
    var maxRecvPktNum: int
    var lastInitMaxRecvPktNum: int
    const recvPktNumberMask: array<bv64>
    const recvPktNumberMaskMultiPath: array2<bv64>
    var multiPathRecvLater: seq<int>
    var multiPathRecvSeq: seq<int>

    // Statistics
    var seqPktCounters: SequencedPacketCounters
    var pktsRecvSequenced: int
    var pktsRecvInOrder: int
    var pktsRecvDroppedAccumulator: int
    var pktsRecvOutOfOrderAccumulator: int
    var pktsRecvDuplicateAccumulator: int
    var pktsRecvLurchAccumulator: int

    /** The packet numbers tracked since the last re-base, and up to it. */
    ghost var processed: set<int>
    /** The numbers seen on each path, whether they were tracked then or only recognised. */
    ghost var seen: seq<set<int>>

    /** The state that the fields stand for. */
    ghost function View(): Link
      reads this
    {
      Link(maxRecvPktNum, lastInitMaxRecvPktNum, processed, seen, seqPktCounters,
           Totals(pktsRecvDroppedAccumulator, pktsRecvOutOfOrderAccumulator,
                  pktsRecvDuplicateAccumulator, pktsRecvLurchAccumulator),
           pktsRecvSequenced, pktsRecvInOrder, multiPathRecvSeq, multiPathRecvLater)
    }

    ghost predicate Shape()
      reads this
    {
      && recvPktNumberMask.Length == 2
      && recvPktNumberMaskMultiPath.Length0 == 2 && recvPktNumberMaskMultiPath.Length1 == 2
      && |multiPathRecvLater| == 2 && |multiPathRecvSeq| == 2
      && |seen| == 2
    }

    /** The words of path p show the numbers seen on it, up to max. */
    ghost predicate PathMask(p: int, max: int)
      requires 0 <= p < 2 && |seen| == 2
      requires recvPktNumberMaskMultiPath.Length0 == 2 && recvPktNumberMaskMultiPath.Length1 == 2
      reads this`lastInitMaxRecvPktNum, this`seen, recvPktNumberMaskMultiPath
    {
      && Window(recvPktNumberMaskMultiPath[p, 0], recvPktNumberMaskMultiPath[p, 1], max, lastInitMaxRecvPktNum, seen[p])
      && forall k | k in seen[p] :: k <= max
    }

    ghost predicate Masks(max: int)
      requires recvPktNumberMask.Length == 2 && |seen| == 2
      requires recvPktNumberMaskMultiPath.Length0 == 2 && recvPktNumberMaskMultiPath.Length1 == 2
      reads this`lastInitMaxRecvPktNum, this`processed, this`seen, recvPktNumberMask, recvPktNumberMaskMultiPath
    {
      && Window(recvPktNumberMask[0], recvPktNumberMask[1], max, lastInitMaxRecvPktNum, processed)
      && PathMask(0, max) && PathMask(1, max)
      && processed == seen[0] + seen[1]
    }

    function PktsRecvDropped(): int
      reads this
    {
      pktsRecvDroppedAccumulator + seqPktCounters.dropped
    }

    ghost predicate Valid()
      reads this, recvPktNumberMask, recvPktNumberMaskMultiPath
    {
      Shape() && Masks(maxRecvPktNum) && View().Valid()
    }

    constructor ()
      ensures Valid() && IsStart(View()) && nextSendSequenceNumber == 1
      ensures fresh(recvPktNumberMask) && fresh(recvPktNumberMaskMultiPath)
    {
      nextSendSequenceNumber := 1;
      recvPktNumberMask := new bv64[2];
      recvPktNumberMaskMultiPath := new bv64[2, 2];
      multiPathRecvLater, multiPathRecvSeq := [0, 0], [0, 0];
      maxRecvPktNum, lastInitMaxRecvPktNum := 0, 0;
      seqPktCounters := NO_COUNTS;
      pktsRecvSequenced, pktsRecvInOrder := 0, 0;
      pktsRecvDroppedAccumulator, pktsRecvOutOfOrderAccumulator := 0, 0;
      pktsRecvDuplicateAccumulator, pktsRecvLurchAccumulator := 0, 0;
      processed, seen := {}, [{}, {}];
      new;
      hide Window, Masks, PathMask, Rebase, UpTo, Link.Valid;
      StartInPlace(View());
      hide IsStart;
      InitMaxRecvPktNum(maxRecvPktNum);
    }

    /** Fill all three windows as if every number up to n had been received. */
    method SetMasks(n: int)
      requires Shape() && n >= 0
      requires n == maxRecvPktNum == lastInitMaxRecvPktNum
      requires forall k | k in processed :: k <= n
      requires processed == seen[0] + seen[1]
      modifies recvPktNumberMask, recvPktNumberMaskMultiPath
      ensures Masks(n)
    {
      hide Window, InitLow, InitHigh;
      var low, high := InitLow(), InitHigh(n % 64 + 1);
      recvPktNumberMask[0], recvPktNumberMask[1] := low, high;
      recvPktNumberMaskMultiPath[0, 0], recvPktNumberMaskMultiPath[1, 0] := low, low;
      recvPktNumberMaskMultiPath[0, 1], recvPktNumberMaskMultiPath[1, 1] := high, high;
      InitWindow(n, processed);
      InitWindow(n, seen[0]);
      InitWindow(n, seen[1]);
    }

    /** Expect n + 1 next and discard everything up to n. */
    method InitMaxRecvPktNum(n: int)
      requires Shape() && n >= 0 && processed == seen[0] + seen[1]
      modifies this`maxRecvPktNum, this`lastInitMaxRecvPktNum, this`processed, this`seen
      modifies recvPktNumberMask, recvPktNumberMaskMultiPath
      ensures Shape() && Masks(n) && View() == Rebase(old(View()), n)
    {
      maxRecvPktNum := n;
      lastInitMaxRecvPktNum := n;
      processed, seen := UpTo(processed, n), [UpTo(seen[0], n), UpTo(seen[1], n)];
      SetMasks(n);
    }

    method InternalProcessSequencedPacketCount(path: int)
      requires Shape() && 0 <= path < 2
      modifies this`seqPktCounters, this`pktsRecvSequenced, this`multiPathRecvSeq
      ensures seqPktCounters == old(seqPktCounters).OnRecv() && pktsRecvSequenced == old(pktsRecvSequenced) + 1
      ensures multiPathRecvSeq == old(multiPathRecvSeq)[path := old(multiPathRecvSeq)[path] + 1]
    {
      seqPktCounters := seqPktCounters.OnRecv();
      pktsRecvSequenced := pktsRecvSequenced + 1;
      multiPathRecvSeq := multiPathRecvSeq[path := multiPathRecvSeq[path] + 1];
    }

    /** The bit of a number k of the window is set iff k has been processed or lies at or
        below the last initialisation; bits above the maximum are clear. */
    lemma MarkedBit(k: int)
      requires Shape() && Masks(maxRecvPktNum)
      requires Base(maxRecvPktNum) - 64 <= k < Base(maxRecvPktNum) + 64
      ensures var idx := WordIndex(k, maxRecvPktNum);
              && 0 <= idx < 2
              && (Bit(recvPktNumberMask[idx], k % 64)
                  <==> k <= maxRecvPktNum && (k <= lastInitMaxRecvPktNum || k in processed))
              && forall p | 0 <= p < 2 ::
                   Bit(recvPktNumberMaskMultiPath[p, idx], k % 64)
                   <==> k <= maxRecvPktNum && (k <= lastInitMaxRecvPktNum || k in seen[p])
    {
      hide Bits, Bit, SetBit, Window, Base, WordIndex;
      WordIndexRange(k, maxRecvPktNum);
      WindowBit(recvPktNumberMask[0], recvPktNumberMask[1], maxRecvPktNum, lastInitMaxRecvPktNum, processed, k);
      forall p | 0 <= p < 2
        ensures Bit(recvPktNumberMaskMultiPath[p, WordIndex(k, maxRecvPktNum)], k % 64)
           <==> Marked(k, maxRecvPktNum, lastInitMaxRecvPktNum, seen[p])
      {
        WindowBit(recvPktNumberMaskMultiPath[p, 0], recvPktNumberMaskMultiPath[p, 1],
                  maxRecvPktNum, lastInitMaxRecvPktNum, seen[p], k);
      }
    }

    /** Bit for bit, the combined mask is the union of the masks of the two paths. */
    lemma CombinedMaskIsUnion(idx: int, slot: nat)
      requires Valid() && 0 <= idx < 2 && slot < 64
      ensures Bit(recvPktNumberMask[idx], slot)
         <==> Bit(recvPktNumberMaskMultiPath[0, idx], slot) || Bit(recvPktNumberMaskMultiPath[1, idx], slot)
    {
      var k := Base(maxRecvPktNum) + 64 * (idx - 1) + slot;
      BaseAligned(maxRecvPktNum);
      hide Window, Bit, Base, Link.Valid;
      MarkedBit(k);
    }

    static lemma BaseAligned(m: int)
      ensures Base(m) % 64 == 0 && Base(m) <= m < Base(m) + 64
    {
    }

    /** Note that a packet the other path delivered first has now come by this path too. */
    method MarkOnPath(e: int, path: int, idx: int)
      requires Shape() && Masks(maxRecvPktNum) && 0 <= path < 2
      requires Base(maxRecvPktNum) - 64 <= e <= maxRecvPktNum && e in processed
      requires idx == WordIndex(e, maxRecvPktNum)
      modifies recvPktNumberMaskMultiPath, this`seen
      ensures Shape() && Masks(maxRecvPktNum)
      ensures seen == old(seen)[path := old(seen)[path] + {e}]
    {
      hide Window, Bits, Bit, SetBit, Base, WordIndex;
      WordIndexRange(e, maxRecvPktNum);
      ghost var w0, w1 := recvPktNumberMaskMultiPath[path, 0], recvPktNumberMaskMultiPath[path, 1];
      recvPktNumberMaskMultiPath[path, idx] := SetBit(recvPktNumberMaskMultiPath[path, idx], e % 64);
      BitsOfSetBit(if idx == 0 then w0 else w1, e % 64);
      MarkInWindow(w0, w1, maxRecvPktNum, lastInitMaxRecvPktNum, seen[path], e,
                   recvPktNumberMaskMultiPath[path, 0], recvPktNumberMaskMultiPath[path, 1]);
      seen := seen[path := seen[path] + {e}];
    }

    /** Expand the number on the wire and say whether the packet should be processed; the
        result is 0 for a packet that is a duplicate or too old. */
    method ExpandWirePacketNumberAndCheck(wire: int, path: int) returns (n: int)
      requires Valid() && 0 <= wire < 0x1_0000 && 0 <= path < 2
      modifies this`seqPktCounters, this`pktsRecvSequenced, this`multiPathRecvSeq, this`multiPathRecvLater, this`seen
      modifies recvPktNumberMaskMultiPath
      ensures Valid() && (View(), n) == Check(old(View()), wire, path)
    {
      hide Window, Masks, Bits, Bit, SetBit, Expand, Base, WordIndex, Check, Link.Valid, Link.Fresh, Link.Excess;
      var e := Expand(wire, maxRecvPktNum);
      CheckKeeps(View(), wire, path);
      CheckCases(View(), wire, path, e);
      InternalProcessSequencedPacketCount(path);
      if e > maxRecvPktNum {
        return e;
      }

      var idx := WordIndex(e, maxRecvPktNum);
      WordIndexRange(e, maxRecvPktNum);
      if idx < 0 {
        seqPktCounters := seqPktCounters.OnLurch();
        return 0;
      }
      MarkedBit(e);
      if Bit(recvPktNumberMask[idx], e % 64) {
        if Bit(recvPktNumberMaskMultiPath[path, idx], e % 64) {
          seqPktCounters := seqPktCounters.OnDuplicate();
        } else {
          multiPathRecvLater := multiPathRecvLater[path := multiPathRecvLater[path] + 1];
          MarkOnPath(e, path, idx);
        }
        return 0;
      }
      assert 0 < e < maxRecvPktNum;
      return e;
    }

    /** Move the mask words forward if n lies beyond them. */
    method SlideMasks(n: int)
      requires Shape() && Masks(maxRecvPktNum) && View().Valid()
      modifies recvPktNumberMask, recvPktNumberMaskMultiPath
      ensures Masks(if n > maxRecvPktNum then n else maxRecvPktNum)
    {
      hide Window, Base, WordIndex;
      WordIndexRange(n, maxRecvPktNum);
      ghost var c, m := recvPktNumberMask, recvPktNumberMaskMultiPath;
      if n > maxRecvPktNum {
        SlideWindow(c[0], c[1], maxRecvPktNum, lastInitMaxRecvPktNum, processed, n);
        SlideWindow(m[0, 0], m[0, 1], maxRecvPktNum, lastInitMaxRecvPktNum, seen[0], n);
        SlideWindow(m[1, 0], m[1, 1], maxRecvPktNum, lastInitMaxRecvPktNum, seen[1], n);
      }
      var idx := WordIndex(n, maxRecvPktNum);
      if idx >= 2 {
        if idx == 2 {
          recvPktNumberMask[0] := recvPktNumberMask[1];
          recvPktNumberMaskMultiPath[0, 0] := recvPktNumberMaskMultiPath[0, 1];
          recvPktNumberMaskMultiPath[1, 0] := recvPktNumberMaskMultiPath[1, 1];
        } else {
          recvPktNumberMask[0] := 0;
          recvPktNumberMaskMultiPath[0, 0] := 0;
          recvPktNumberMaskMultiPath[1, 0] := 0;
        }
        recvPktNumberMask[1] := 0;
        recvPktNumberMaskMultiPath[0, 1] := 0;
        recvPktNumberMaskMultiPath[1, 1] := 0;
      }
    }

    /** Set the bit of n in the combined mask and in the mask of its path. */
    method SetMaskBit(n: int, path: int, idx: int, ghost max: int)
      requires Shape() && Masks(max) && 0 <= path < 2
      requires Base(max) - 64 <= n <= max && idx == WordIndex(n, max)
      modifies recvPktNumberMask, recvPktNumberMaskMultiPath, this`processed, this`seen
      ensures Shape() && Masks(max)
      ensures processed == old(processed) + {n} && seen == old(seen)[path := old(seen)[path] + {n}]
    {
      hide Window, Bits, SetBit, Base, WordIndex;
      WordIndexRange(n, max);
      ghost var c, m := recvPktNumberMask, recvPktNumberMaskMultiPath;
      ghost var c0, c1, m0, m1 := c[0], c[1], m[path, 0], m[path, 1];
      recvPktNumberMask[idx] := SetBit(recvPktNumberMask[idx], n % 64);
      recvPktNumberMaskMultiPath[path, idx] := SetBit(recvPktNumberMaskMultiPath[path, idx], n % 64);
      BitsOfSetBit(if idx == 0 then c0 else c1, n % 64);
      BitsOfSetBit(if idx == 0 then m0 else m1, n % 64);
      MarkInWindow(c0, c1, max, lastInitMaxRecvPktNum, processed, n, c[0], c[1]);
      MarkInWindow(m0, m1, max, lastInitMaxRecvPktNum, seen[path], n, m[path, 0], m[path, 1]);
      processed := processed + {n};
      seen := seen[path := seen[path] + {n}];
    }

    /** Update the bitmasks for a packet that has been processed. */
    method MarkReceived(n: int, path: int, ghost max: int)
      requires Valid() && View().Fresh(n) && 0 <= path < 2
      requires max == if n > maxRecvPktNum then n else maxRecvPktNum
      modifies recvPktNumberMask, recvPktNumberMaskMultiPath, this`processed, this`seen
      ensures Shape() && Masks(max) && processed == seen[0] + seen[1]
      ensures processed == old(processed) + {n} && seen == old(seen)[path := old(seen)[path] + {n}]
    {
      hide Window, PathMask, Base, WordIndex, Bit;
      WordIndexRange(n, maxRecvPktNum);
      WordIndexRange(n, max);
      var idx := WordIndex(n, maxRecvPktNum);
      assert idx >= 0;
      SlideMasks(n);
      if idx >= 2 {
        idx := 1;
      }
      WindowBit(recvPktNumberMask[0], recvPktNumberMask[1], max, lastInitMaxRecvPktNum, processed, n);
      assert !Bit(recvPktNumberMask[idx], n % 64);
      SetMaskBit(n, path, idx, max);
    }

    /** Update the masks and the counters for a packet that has been processed.  To be called
        only with a number that ExpandWirePacketNumberAndCheck has just passed. */
    method TrackProcessSequencedPacket(n: int, path: int)
      requires Valid() && n > 0 && View().Fresh(n) && 0 <= path < 2
      requires seqPktCounters.Weird() < seqPktCounters.recv
      modifies this`processed, this`seen, this`maxRecvPktNum, this`lastInitMaxRecvPktNum
      modifies this`seqPktCounters, this`pktsRecvInOrder, recvPktNumberMask, recvPktNumberMaskMultiPath
      ensures Valid() && View() == Track(old(View()), n, path)
    {
      hide Masks, PathMask, Window, Base, Missing;
      ghost var max := if n > maxRecvPktNum then n else maxRecvPktNum;
      TrackKeeps(View(), n, path);
      MarkReceived(n, path, max);
      var gap := n - maxRecvPktNum;
      if gap == 1 {
        pktsRecvInOrder := pktsRecvInOrder + 1;
      } else if gap <= 0 {
        assert gap != 0;
        AboveWindowStart(n, maxRecvPktNum);
        assert gap >= -8 * 16;
        assert PktsRecvDropped() != 0;
        seqPktCounters := seqPktCounters.OnOutOfOrder();
        return;
      } else {
        if gap >= 100 {
          seqPktCounters := seqPktCounters.OnLurch();
          InitMaxRecvPktNum(n);
          return;
        }
        seqPktCounters := seqPktCounters.OnDropped(gap - 1);
      }
      maxRecvPktNum := n;
    }

    /** The same check, which first adopts the wire number if nothing was received before. */
    method ExpandWirePacketNumberAndCheckMaybeInitialize(wire: int, path: int) returns (n: int)
      requires Valid() && 0 <= wire < 0x1_0000 && 0 <= path < 2
      modifies this, recvPktNumberMask, recvPktNumberMaskMultiPath
      ensures Valid() && (View(), n) == Check(MaybeInitialize(old(View()), wire), wire, path)
      ensures nextSendSequenceNumber == old(nextSendSequenceNumber)
    {
      hide PathMask, Window, Check, Link.Valid;
      if maxRecvPktNum == 0 {
        FirstRebase(View(), (wire - 1) % 0x1_0000);
        UnionOfPaths();
        InitMaxRecvPktNum((wire - 1) % 0x1_0000);
      }
      n := ExpandWirePacketNumberAndCheck(wire, path);
    }

    lemma UnionOfPaths()
      requires Shape() && Masks(maxRecvPktNum)
      ensures processed == seen[0] + seen[1]
    {
    }

    /** Roll the interval counters into the lifetime totals. */
    method StartNextInterval()
      requires Valid()
      modifies this`seqPktCounters, this`pktsRecvDroppedAccumulator, this`pktsRecvOutOfOrderAccumulator
      modifies this`pktsRecvDuplicateAccumulator, this`pktsRecvLurchAccumulator
      ensures Valid() && View() == EndInterval(old(View()))
    {
      hide Masks, Link.Valid;
      EndIntervalKeeps(View());
      pktsRecvDroppedAccumulator := pktsRecvDroppedAccumulator + seqPktCounters.dropped;
      pktsRecvOutOfOrderAccumulator := pktsRecvOutOfOrderAccumulator + seqPktCounters.outOfOrder;
      pktsRecvDuplicateAccumulator := pktsRecvDuplicateAccumulator + seqPktCounters.duplicate;
      pktsRecvLurchAccumulator := pktsRecvLurchAccumulator + seqPktCounters.lurch;
      seqPktCounters := NO_COUNTS;
    }

    /** Close the interval and give a quality sample if one is due. */
    method UpdateInterval(elapsed: real, peerLooksDead: bool) returns (sample: Option<int>)
      requires Valid()
      modifies this`seqPktCounters, this`pktsRecvDroppedAccumulator, this`pktsRecvOutOfOrderAccumulator
      modifies this`pktsRecvDuplicateAccumulator, this`pktsRecvLurchAccumulator
      ensures Valid() && View() == EndInterval(old(View())) && PktsRecvDropped() == old(PktsRecvDropped())
      ensures sample == Sample(old(seqPktCounters), elapsed, peerLooksDead)
      ensures elapsed > 4.5 && old(seqPktCounters).recv > 5 ==>
                var c := old(seqPktCounters);
                var bad := c.dropped + c.outOfOrder + c.lurch + c.duplicate;
                var sent, good := c.recv + c.dropped, c.recv - c.outOfOrder - c.lurch - c.duplicate;
                && sample.Some? && 1 <= sample.value <= 100 && (sample.value == 100 <==> bad == 0)
                && (sample.value == 99 <==> bad > 0 && 99 * sent <= 100 * good)
                && (sample.value == 1 <==> 100 * good < 2 * sent)
                && (1 < sample.value < 99 ==> sample.value * sent <= 100 * good < (sample.value + 1) * sent)
    {
      hide Masks, Missing;
      SampleMeaning(seqPktCounters, elapsed, peerLooksDead);
      sample := None;
      if elapsed > 4.5 {
        var c := seqPktCounters;
        if c.recv > 5 {
          var nWeird := c.Weird();
          var nBad := c.dropped + nWeird;
          if nBad == 0 {
            sample := Some(100);
          } else {
            var nTotalSent, nRecvGood := c.recv + c.dropped, c.recv - nWeird;
            var quality := nRecvGood * 100 / nTotalSent;
            sample := Some(if quality >= 99 then 99 else if quality <= 1 then 1 else quality);
          }
        } else if peerLooksDead {
          sample := Some(0);
        }
      }
      assert seqPktCounters.Weird() <= seqPktCounters.recv;
      StartNextInterval();
    }

    /** From protocol 10 on the handshake itself counts as packet 1 in both directions. */
    method SetPeerProtocol(protocol: int)
      requires Valid() && nextSendSequenceNumber >= 1
      modifies this, recvPktNumberMask, recvPktNumberMaskMultiPath
      ensures Valid() && View() == OnHandshake(old(View()), protocol)
      ensures nextSendSequenceNumber
           == if protocol >= 10 && old(nextSendSequenceNumber) == 1 then 2 else old(nextSendSequenceNumber)
    {
      hide PathMask, Window, Link.Valid;
      if protocol >= 10 {
        if nextSendSequenceNumber == 1 {
          nextSendSequenceNumber := 2;
        }
        if maxRecvPktNum == 0 {
          FirstRebase(View(), 1);
          UnionOfPaths();
          InitMaxRecvPktNum(1);
        }
      }
    }

    /** The next number this side sends, cut to the 16 bits that go on the wire. */
    method ConsumeSendPacketNumberAndGetWireFmt() returns (wire: int)
      requires Valid()
      modifies this`nextSendSequenceNumber
      ensures Valid() && nextSendSequenceNumber == old(nextSendSequenceNumber) + 1
      ensures wire == old(nextSendSequenceNumber) % 0x1_0000
    {
      wire := nextSendSequenceNumber % 0x1_0000;
      nextSendSequenceNumber := nextSendSequenceNumber + 1;
    }

    /** One packet: the check and, if the packet turns out to be authentic, its tracking. */
    method Receive(wire: int, path: int, authentic: bool, mayInitialize: bool) returns (outcome: Outcome)
      requires Valid() && 0 <= wire < 0x1_0000 && 0 <= path < 2
      modifies this, recvPktNumberMask, recvPktNumberMaskMultiPath
      ensures Valid() && (View(), outcome) == LinkSpec.Receive(old(View()), wire, path, authentic, mayInitialize)
      ensures nextSendSequenceNumber == old(nextSendSequenceNumber)
    {
      hide Masks, Check, Track, Link.Valid, Link.Fresh;
      var n;
      if mayInitialize {
        AdoptionKeeps(View(), wire);
        CheckKeeps(MaybeInitialize(View(), wire), wire, path);
        n := ExpandWirePacketNumberAndCheckMaybeInitialize(wire, path);
      } else {
        CheckKeeps(View(), wire, path);
        n := ExpandWirePacketNumberAndCheck(wire, path);
      }
      if n != 0 && authentic {
        TrackProcessSequencedPacket(n, path);
        outcome := Accepted(n);
      } else {
        outcome := Rejected;
      }
    }
  }

  // ---------- Whole runs ----------

  /** Whatever happens to a tracker, its state and what comes of each event are those of the
      run. */
  method Run(t: LinkStatsTracker, events: seq<Event>) returns (outcomes: seq<Outcome>)
    requires t.Valid() && t.View().Valid() && t.nextSendSequenceNumber >= 1 && Possible(events)
    modifies t, t.recvPktNumberMask, t.recvPktNumberMaskMultiPath
    ensures t.Valid() && t.View() == State(old(t.View()), events, |events|)
    ensures |outcomes| == |events|
    ensures forall k | 0 <= k < |events| :: outcomes[k] == OutcomeOf(old(t.View()), events, k)
  {
    outcomes := [];
    hide After, OutcomeOf, LinkStatsTracker.Valid, Link.Valid;
    ghost var s0 := t.View();
    for k := 0 to |events|
      invariant t.Valid() && t.View() == State(s0, events, k) && t.nextSendSequenceNumber >= 1
      invariant |outcomes| == k && forall i | 0 <= i < k :: outcomes[i] == OutcomeOf(s0, events, i)
    {
      RunStep(s0, events, k);
      var outcome := TakeStep(t, events[k]);
      outcomes := outcomes + [outcome];
    }
  }

  method TakeStep(t: LinkStatsTracker, e: Event) returns (outcome: Outcome)
    requires t.Valid() && e.Possible() && t.nextSendSequenceNumber >= 1
    modifies t, t.recvPktNumberMask, t.recvPktNumberMaskMultiPath
    ensures t.Valid() && t.View().Valid() && old(t.View()).Valid() && (t.View(), outcome) == After(old(t.View()), e)
    ensures t.nextSendSequenceNumber >= 1
  {
    match e {
      case Packet(wire, path, authentic, mayInitialize) =>
        outcome := t.Receive(wire, path, authentic, mayInitialize);
      case IntervalEnd(elapsed, dead) =>
        var sample := t.UpdateInterval(elapsed, dead);
        outcome := Sampled(sample);
      case Handshake(protocol) =>
        t.SetPeerProtocol(protocol);
        outcome := Settled;
    }
  }
}
