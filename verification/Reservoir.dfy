/** Keeping a random subset of a stream: which samples are kept, counted over every outcome of
    the draws. */
module Reservoir {

  /** The samples kept after sample k arrives, given the draw made for it. */
  function Step(table: seq<nat>, k: nat, r: nat, max: nat): (t: seq<nat>)
    requires |table| <= max
    ensures |t| == if |table| < max then |table| + 1 else max
  {
    if |table| < max then table + [k] else if r < max then table[r := k] else table
  }

  /** Rearranging a table; it may depend on all draws so far, as sorting on demand does. */
  type Shuffle = (seq<nat>, seq<nat>) -> seq<nat>

  ghost predicate Rearranges(shuffle: Shuffle) {
    forall draws: seq<nat>, table: seq<nat> :: multiset(shuffle(draws, table)) == multiset(table)
  }

  /** Of all ways to draw for samples k to n - 1, the number that leave sample i in the table.
      Sample j is drawn for uniformly from 0 to j once the table is full. */
  ghost function Retained(i: nat, k: nat, n: nat, max: nat, draws: seq<nat>, table: seq<nat>, shuffle: Shuffle): nat
    requires k <= n
    decreases n - k, k + 2
  {
    if k == n then if i in table then 1 else 0
    else if |table| < max then Retained(i, k + 1, n, max, draws, shuffle(draws, Step(table, k, 0, max)), shuffle)
    else RetainedBelow(i, k, n, max, draws, table, shuffle, k + 1)
  }

  /** The same, for draws below bound for sample k. */
  ghost function RetainedBelow(i: nat, k: nat, n: nat, max: nat, draws: seq<nat>, table: seq<nat>, shuffle: Shuffle,
                               bound: nat): nat
    requires k < n
    decreases n - k, bound
  {
    if bound == 0 || |table| > max then 0
    else
      RetainedBelow(i, k, n, max, draws, table, shuffle, bound - 1)
      + Retained(i, k + 1, n, max, draws + [bound - 1],
                 shuffle(draws + [bound - 1], Step(table, k, bound - 1, max)), shuffle)
  }

  /** The number of ways to draw for samples k to n - 1 in a full table. */
  function Outcomes(k: nat, n: nat): nat
    requires k <= n
    decreases n - k
  {
    if k == n then 1 else (k + 1) * Outcomes(k + 1, n)
  }

  /** The number of those that leave a given slot alone. */
  function Survivals(k: nat, n: nat): nat
    requires k <= n
    decreases n - k
  {
    if k == n then 1 else k * Survivals(k + 1, n)
  }

  /** A table before sample k arrives. */
  ghost predicate IsTable(table: seq<nat>, k: nat, max: nat) {
    && |table| == (if k < max then k else max)
    && (forall x | x in table :: x < k)
    && (forall x: nat :: multiset(table)[x] <= 1)
  }

  lemma Rearranged(shuffle: Shuffle, draws: seq<nat>, table: seq<nat>)
    requires Rearranges(shuffle)
    ensures var t := shuffle(draws, table);
            && |t| == |table| && multiset(t) == multiset(table) && forall x: nat :: x in t <==> x in table
  {
    var t := shuffle(draws, table);
    assert multiset(t) == multiset(table);
    assert |t| == |multiset(t)| && |table| == |multiset(table)|;
    assert forall x: nat :: x in t <==> x in multiset(t);
  }

  /** What one arrival does to the membership of each sample. */
  lemma StepTable(table: seq<nat>, k: nat, r: nat, max: nat)
    requires IsTable(table, k, max) && r <= k
    ensures IsTable(Step(table, k, r, max), k + 1, max)
    ensures k in Step(table, k, r, max) <==> k < max || r < max
    ensures forall i | i < k :: i in Step(table, k, r, max) <==> i in table && !(k >= max > r && table[r] == i)
  {
    var t := Step(table, k, r, max);
    assert forall x: nat :: x in t <==> x in multiset(t);
    assert forall x: nat :: x in table <==> x in multiset(table);
    if k >= max > r {
      assert multiset(t) == multiset(table) - multiset{table[r]} + multiset{k};
    }
  }

  lemma TwoSlots(table: seq<nat>, p: nat, q: nat)
    requires p < q < |table| && table[p] == table[q]
    ensures multiset(table)[table[p]] >= 2
  {
    assert table == table[..q] + table[q..];
    assert table[..q][p] == table[q..][0] == table[p];
    assert multiset(table) == multiset(table[..q]) + multiset(table[q..]);
  }

  /** The table of the next round, after the draw r and any rearrangement. */
  ghost function Next(k: nat, r: nat, max: nat, draws: seq<nat>, table: seq<nat>, shuffle: Shuffle): seq<nat>
    requires |table| <= max
  {
    shuffle(draws + [r], Step(table, k, r, max))
  }

  /** In a full table, draw r replaces what is in slot r. */
  lemma NextTable(k: nat, r: nat, max: nat, draws: seq<nat>, table: seq<nat>, shuffle: Shuffle)
    requires Rearranges(shuffle) && IsTable(table, k, max) && max <= k && r <= k
    ensures var t := Next(k, r, max, draws, table, shuffle);
            && IsTable(t, k + 1, max) && (k in t <==> r < max)
            && forall i | i < k :: i in t <==> i in table && !(r < max && table[r] == i)
  {
    StepTable(table, k, r, max);
    Rearranged(shuffle, draws + [r], Step(table, k, r, max));
  }

  predicate SlotOf(table: seq<nat>, i: nat, p: nat) {
    if i in table then p < |table| && table[p] == i else p == |table|
  }

  lemma NextKeeps(i: nat, k: nat, r: nat, max: nat, draws: seq<nat>, table: seq<nat>, shuffle: Shuffle, p: nat)
    requires Rearranges(shuffle) && IsTable(table, k, max) && max <= k && r <= k && i < k && SlotOf(table, i, p)
    ensures var t := Next(k, r, max, draws, table, shuffle);
            IsTable(t, k + 1, max) && (i in t <==> i in table && r != p)
  {
    NextTable(k, r, max, draws, table, shuffle);
    hide Next;
    if r < p < |table| && table[r] == i {
      TwoSlots(table, r, p);
    }
    if p < r < |table| && table[r] == i {
      TwoSlots(table, p, r);
    }
  }

  lemma BelowNext(i: nat, k: nat, n: nat, max: nat, draws: seq<nat>, table: seq<nat>, shuffle: Shuffle, r: nat)
    requires k < n && |table| <= max
    ensures RetainedBelow(i, k, n, max, draws, table, shuffle, r + 1)
         == RetainedBelow(i, k, n, max, draws, table, shuffle, r)
            + Retained(i, k + 1, n, max, draws + [r], Next(k, r, max, draws, table, shuffle), shuffle)
  {
  }

  /** A sample that has been drawn for stays kept in exactly the outcomes that spare its slot,
      and never comes back. */
  lemma {:induction false} RetainedKnown(i: nat, k: nat, n: nat, max: nat, draws: seq<nat>,
      table: seq<nat>, shuffle: Shuffle)
    requires Rearranges(shuffle) && IsTable(table, k, max) && max <= k <= n && i < k
    ensures Retained(i, k, n, max, draws, table, shuffle) == if i in table then Survivals(k, n) else 0
    decreases n - k, k + 2
  {
    if k < n {
      if p: nat :| p < |table| && table[p] == i {
        RetainedKnownBelow(i, k, n, max, draws, table, shuffle, k + 1, p);
        assert (k + 1 - 1) * Survivals(k + 1, n) == Survivals(k, n);
      } else {
        RetainedKnownBelow(i, k, n, max, draws, table, shuffle, k + 1, |table|);
      }
    }
  }

  /** p is the slot of sample i, or the size of the table if i is not kept. */
  lemma {:induction false} RetainedKnownBelow(i: nat, k: nat, n: nat, max: nat, draws: seq<nat>,
      table: seq<nat>, shuffle: Shuffle, bound: nat, p: nat)
    requires Rearranges(shuffle) && IsTable(table, k, max) && max <= k < n && i < k && bound <= k + 1
    requires SlotOf(table, i, p)
    ensures RetainedBelow(i, k, n, max, draws, table, shuffle, bound)
         == if i in table then Sparing(p, bound) * Survivals(k + 1, n) else 0
    decreases n - k, bound
  {
    if bound == 0 {
      NoDraws(p, Survivals(k + 1, n));
    } else {
      hide Retained, Next, Step, Survivals, SlotOf, Sparing;
      var r := bound - 1;
      BelowNext(i, k, n, max, draws, table, shuffle, r);
      hide RetainedBelow, IsTable, Rearranges;
      RetainedKnownBelow(i, k, n, max, draws, table, shuffle, r, p);
      NextKeeps(i, k, r, max, draws, table, shuffle, p);
      RetainedKnown(i, k + 1, n, max, draws + [r], Next(k, r, max, draws, table, shuffle), shuffle);
      OneMoreButOne(r, p, Survivals(k + 1, n));
    }
  }

  /** The number of draws below a bound that spare slot p. */
  function Sparing(p: nat, bound: nat): nat {
    if p < bound then bound - 1 else bound
  }

  lemma NoDraws(p: nat, x: nat)
    ensures Sparing(p, 0) * x == 0
  {
  }

  lemma OneMoreButOne(r: nat, p: nat, x: nat)
    ensures Sparing(p, r + 1) * x == Sparing(p, r) * x + if r == p then 0 else x
  {
    if p < r {
      OneMore(r - 1, x);
    } else if r < p {
      OneMore(r, x);
    }
  }

  /** A sample yet to come is kept in the outcomes that draw it a slot and spare it after. */
  lemma {:induction false} RetainedLater(i: nat, k: nat, n: nat, max: nat, draws: seq<nat>,
      table: seq<nat>, shuffle: Shuffle)
    requires Rearranges(shuffle) && IsTable(table, k, max) && max <= k <= i < n
    ensures Retained(i, k, n, max, draws, table, shuffle) == Outcomes(k, i) * (max * Survivals(i + 1, n))
    decreases n - k, k + 2
  {
    RetainedLaterBelow(i, k, n, max, draws, table, shuffle, k + 1);
    if k < i {
      Associate(k + 1, Outcomes(k + 1, i), max * Survivals(i + 1, n));
    }
  }

  lemma Associate(a: nat, b: nat, c: nat)
    ensures a * (b * c) == a * b * c
  {
  }

  /** How many outcomes of the draws from sample k on keep sample i, for the draws below bound
      for sample k. */
  function LaterBelow(i: nat, k: nat, n: nat, max: nat, bound: nat): nat
    requires k <= i < n
  {
    if k < i then bound * (Outcomes(k + 1, i) * (max * Survivals(i + 1, n)))
    else (if bound < max then bound else max) * Survivals(i + 1, n)
  }

  lemma NoneBelow(i: nat, k: nat, n: nat, max: nat)
    requires k <= i < n
    ensures LaterBelow(i, k, n, max, 0) == 0
  {
    hide Outcomes, Survivals;
  }

  lemma OneMoreBelow(i: nat, k: nat, n: nat, max: nat, r: nat)
    requires k <= i < n
    ensures LaterBelow(i, k, n, max, r + 1)
         == LaterBelow(i, k, n, max, r)
            + if k < i then Outcomes(k + 1, i) * (max * Survivals(i + 1, n))
              else if r < max then Survivals(i + 1, n) else 0
  {
    OneMore(r, if k < i then Outcomes(k + 1, i) * (max * Survivals(i + 1, n)) else Survivals(i + 1, n));
    hide Outcomes, Survivals;
  }

  lemma {:induction false} RetainedLaterBelow(i: nat, k: nat, n: nat, max: nat, draws: seq<nat>,
      table: seq<nat>, shuffle: Shuffle, bound: nat)
    requires Rearranges(shuffle) && IsTable(table, k, max) && max <= k <= i < n && bound <= k + 1
    ensures RetainedBelow(i, k, n, max, draws, table, shuffle, bound) == LaterBelow(i, k, n, max, bound)
    decreases n - k, bound
  {
    hide Retained, Next, Step, Survivals, Outcomes, LaterBelow;
    if bound == 0 {
      NoneBelow(i, k, n, max);
    } else {
      var r := bound - 1;
      BelowNext(i, k, n, max, draws, table, shuffle, r);
      OneMoreBelow(i, k, n, max, r);
      hide RetainedBelow, IsTable, Rearranges;
      RetainedLaterBelow(i, k, n, max, draws, table, shuffle, r);
      NextTable(k, r, max, draws, table, shuffle);
      if k < i {
        RetainedLater(i, k + 1, n, max, draws + [r], Next(k, r, max, draws, table, shuffle), shuffle);
      } else {
        RetainedKnown(i, k + 1, n, max, draws + [r], Next(k, r, max, draws, table, shuffle), shuffle);
      }
    }
  }

  lemma OneMore(m: nat, x: nat)
    ensures (m + 1) * x == m * x + x
  {
  }

  /** Surviving the draws for samples k to n - 1 has probability k / n. */
  lemma {:induction false} SurvivalRate(k: nat, n: nat)
    requires k <= n
    ensures Survivals(k, n) * n == k * Outcomes(k, n)
    decreases n - k
  {
    if k < n {
      SurvivalRate(k + 1, n);
      Associate(k, Survivals(k + 1, n), n);
      Associate(k, k + 1, Outcomes(k + 1, n));
    }
  }

  lemma {:induction false} OutcomesSplit(k: nat, i: nat, n: nat)
    requires k <= i <= n
    ensures Outcomes(k, n) == Outcomes(k, i) * Outcomes(i, n)
    decreases i - k
  {
    if k < i {
      OutcomesSplit(k + 1, i, n);
      Associate(k + 1, Outcomes(k + 1, i), Outcomes(i, n));
    }
  }

  /** Filling the table keeps everything. */
  lemma {:induction false} RetainedFilling(i: nat, k: nat, n: nat, max: nat, draws: seq<nat>,
      table: seq<nat>, shuffle: Shuffle)
    requires Rearranges(shuffle) && IsTable(table, k, max) && k <= max <= n && i < n && (i < k ==> i in table)
    ensures Retained(i, k, n, max, draws, table, shuffle)
         == if i < max then Survivals(max, n) else Outcomes(max, i) * (max * Survivals(i + 1, n))
    decreases max - k
  {
    if k < max {
      var next := Step(table, k, 0, max);
      StepTable(table, k, 0, max);
      Rearranged(shuffle, draws, next);
      RetainedFilling(i, k + 1, n, max, draws, shuffle(draws, next), shuffle);
    } else if i < max {
      RetainedKnown(i, k, n, max, draws, table, shuffle);
    } else {
      RetainedLater(i, k, n, max, draws, table, shuffle);
    }
  }

  /** Fairness: of all equally likely outcomes, exactly max out of n keep any given sample,
      however the table is rearranged in between. */
  lemma EverySampleEqual(i: nat, n: nat, max: nat, shuffle: Shuffle)
    requires Rearranges(shuffle) && max <= n && i < n
    ensures Retained(i, 0, n, max, [], [], shuffle) * n == max * Outcomes(max, n)
  {
    RetainedFilling(i, 0, n, max, [], [], shuffle);
    if i < max {
      SurvivalRate(max, n);
    } else {
      SurvivalRate(i + 1, n);
      OutcomesSplit(max, i, n);
      var a, s, o := Outcomes(max, i), Survivals(i + 1, n), Outcomes(i + 1, n);
      Regroup(a, max, s, n, i + 1, o);
    }
  }

  lemma Regroup(a: nat, max: nat, s: nat, n: nat, j: nat, o: nat)
    requires s * n == j * o
    ensures a * (max * s) * n == max * (a * (j * o))
  {
    calc {
      a * (max * s) * n;
      max * a * (s * n);
      max * (a * (j * o));
    }
  }

  // ---------- The draws as a set ----------

  /** Every way to draw for samples k to n - 1 in a full table. */
  ghost function Draws(k: nat, n: nat): set<seq<nat>>
    requires k <= n
    decreases n - k
  {
    if k == n then {[]} else set r, d | 0 <= r <= k && d in Draws(k + 1, n) :: [r] + d
  }

  /** Draws for samples k to n - 1, the first of them below bound. */
  ghost function DrawsBelow(k: nat, n: nat, bound: nat): set<seq<nat>>
    requires k < n
  {
    set r, d | 0 <= r < bound && d in Draws(k + 1, n) :: [r] + d
  }

  ghost function Prepend(r: nat, s: set<seq<nat>>): set<seq<nat>> {
    set d | d in s :: [r] + d
  }

  lemma {:induction false} PrependCounts(r: nat, s: set<seq<nat>>)
    ensures |Prepend(r, s)| == |s|
    decreases |s|
  {
    if s != {} {
      var d :| d in s;
      PrependCounts(r, s - {d});
      assert forall e: seq<nat> :: ([r] + e)[1..] == e;
      assert Prepend(r, s) == Prepend(r, s - {d}) + {[r] + d};
    }
  }

  /** The table after the draws d for samples k and later, starting with a full one. */
  ghost function Follow(k: nat, d: seq<nat>, max: nat, draws: seq<nat>, table: seq<nat>, shuffle: Shuffle): seq<nat>
    decreases |d|
  {
    if d == [] || |table| > max then table
    else Follow(k + 1, d[1..], max, draws + [d[0]], Next(k, d[0], max, draws, table, shuffle), shuffle)
  }

  /** The draws among s that leave sample i in the table. */
  ghost function Keeping(i: nat, k: nat, s: set<seq<nat>>, max: nat, draws: seq<nat>, table: seq<nat>,
                         shuffle: Shuffle): set<seq<nat>> {
    set d | d in s && i in Follow(k, d, max, draws, table, shuffle)
  }

  /** Outcomes counts the ways to draw. */
  lemma {:induction false} OutcomesCount(k: nat, n: nat)
    requires k <= n
    ensures |Draws(k, n)| == Outcomes(k, n)
    decreases n - k
  {
    if k < n {
      OutcomesCount(k + 1, n);
      DrawsBelowCount(k, n, k + 1);
      assert Draws(k, n) == DrawsBelow(k, n, k + 1);
    }
  }

  lemma {:induction false} DrawsBelowCount(k: nat, n: nat, bound: nat)
    requires k < n
    ensures |DrawsBelow(k, n, bound)| == bound * |Draws(k + 1, n)|
  {
    hide Draws;
    if bound > 0 {
      DrawsSplit(k, n, bound - 1);
      hide DrawsBelow, Prepend;
      DrawsBelowCount(k, n, bound - 1);
      PrependCounts(bound - 1, Draws(k + 1, n));
      OneMore(bound - 1, |Draws(k + 1, n)|);
    }
  }

  lemma DrawsSplit(k: nat, n: nat, r: nat)
    requires k < n
    ensures DrawsBelow(k, n, r + 1) == DrawsBelow(k, n, r) + Prepend(r, Draws(k + 1, n))
    ensures DrawsBelow(k, n, r) !! Prepend(r, Draws(k + 1, n))
  {
    forall d | d in DrawsBelow(k, n, r)
      ensures d !in Prepend(r, Draws(k + 1, n))
    {
      assert d[0] < r;
    }
  }

  /** Retained counts the draws that keep a sample. */
  lemma {:induction false} RetainedCounts(i: nat, k: nat, n: nat, max: nat, draws: seq<nat>, table: seq<nat>,
                                          shuffle: Shuffle)
    requires Rearranges(shuffle) && |table| == max && k <= n
    ensures Retained(i, k, n, max, draws, table, shuffle) == |Keeping(i, k, Draws(k, n), max, draws, table, shuffle)|
    decreases n - k, k + 2
  {
    if k == n {
      assert Keeping(i, k, Draws(k, n), max, draws, table, shuffle) == if i in table then {[]} else {};
    } else {
      RetainedBelowCounts(i, k, n, max, draws, table, shuffle, k + 1);
      assert Draws(k, n) == DrawsBelow(k, n, k + 1);
    }
  }

  lemma {:induction false} RetainedBelowCounts(i: nat, k: nat, n: nat, max: nat, draws: seq<nat>, table: seq<nat>,
                                               shuffle: Shuffle, bound: nat)
    requires Rearranges(shuffle) && |table| == max && k < n
    ensures RetainedBelow(i, k, n, max, draws, table, shuffle, bound)
         == |Keeping(i, k, DrawsBelow(k, n, bound), max, draws, table, shuffle)|
    decreases n - k, bound
  {
    if bound == 0 {
      assert Keeping(i, k, DrawsBelow(k, n, bound), max, draws, table, shuffle) == {};
    } else {
      hide Retained, Next, Step;
      var r := bound - 1;
      BelowNext(i, k, n, max, draws, table, shuffle, r);
      hide RetainedBelow, Rearranges;
      NextIsFull(k, r, max, draws, table, shuffle);
      RetainedBelowCounts(i, k, n, max, draws, table, shuffle, r);
      var next := Next(k, r, max, draws, table, shuffle);
      RetainedCounts(i, k + 1, n, max, draws + [r], next, shuffle);
      var later := Keeping(i, k + 1, Draws(k + 1, n), max, draws + [r], next, shuffle);
      PrependCounts(r, later);
      KeepingSplit(i, k, n, max, draws, table, shuffle, r);
    }
  }

  lemma NextIsFull(k: nat, r: nat, max: nat, draws: seq<nat>, table: seq<nat>, shuffle: Shuffle)
    requires Rearranges(shuffle) && |table| == max
    ensures |Next(k, r, max, draws, table, shuffle)| == max
  {
    Rearranged(shuffle, draws + [r], Step(table, k, r, max));
  }

  lemma KeepingSplit(i: nat, k: nat, n: nat, max: nat, draws: seq<nat>, table: seq<nat>, shuffle: Shuffle, r: nat)
    requires k < n && |table| == max
    ensures var next := Next(k, r, max, draws, table, shuffle);
            var later := Keeping(i, k + 1, Draws(k + 1, n), max, draws + [r], next, shuffle);
            && Keeping(i, k, DrawsBelow(k, n, r + 1), max, draws, table, shuffle)
               == Keeping(i, k, DrawsBelow(k, n, r), max, draws, table, shuffle) + Prepend(r, later)
            && Keeping(i, k, DrawsBelow(k, n, r), max, draws, table, shuffle) !! Prepend(r, later)
  {
    DrawsSplit(k, n, r);
    hide Next, Draws, DrawsBelow;
    var next := Next(k, r, max, draws, table, shuffle);
    var later := Keeping(i, k + 1, Draws(k + 1, n), max, draws + [r], next, shuffle);
    forall e: seq<nat>
      ensures Follow(k, [r] + e, max, draws, table, shuffle) == Follow(k + 1, e, max, draws + [r], next, shuffle)
    {
      assert ([r] + e)[1..] == e;
    }
    assert Keeping(i, k, Prepend(r, Draws(k + 1, n)), max, draws, table, shuffle) == Prepend(r, later);
  }

  /** The table after samples 0 to n - 1, given the draws for those that found it full. */
  ghost function After(n: nat, d: seq<nat>, max: nat, shuffle: Shuffle): seq<nat> {
    Follow(max, d, max, [], Filled(if n < max then n else max, max, shuffle), shuffle)
  }

  /** The first k samples, all of which are kept. */
  ghost function Filled(k: nat, max: nat, shuffle: Shuffle): seq<nat> {
    if k == 0 then [] else
      var t := Filled(k - 1, max, shuffle);
      if |t| < max then shuffle([], Step(t, k - 1, 0, max)) else t
  }

  lemma {:induction false} FilledTable(i: nat, k: nat, n: nat, max: nat, shuffle: Shuffle)
    requires Rearranges(shuffle) && k <= max <= n
    ensures IsTable(Filled(k, max, shuffle), k, max)
    ensures Retained(i, 0, n, max, [], [], shuffle) == Retained(i, k, n, max, [], Filled(k, max, shuffle), shuffle)
  {
    if k > 0 {
      hide Retained, Step, IsTable, Rearranges;
      FilledTable(i, k - 1, n, max, shuffle);
      NextFilling(i, k - 1, n, max, [], Filled(k - 1, max, shuffle), shuffle);
    } else {
      NoTable(max);
    }
  }

  lemma NoTable(max: nat)
    ensures IsTable([], 0, max)
  {
  }

  lemma NextFilling(i: nat, k: nat, n: nat, max: nat, draws: seq<nat>, table: seq<nat>, shuffle: Shuffle)
    requires Rearranges(shuffle) && k < max <= n && IsTable(table, k, max)
    ensures |table| == k
    ensures var t := shuffle(draws, Step(table, k, 0, max));
            IsTable(t, k + 1, max) && Retained(i, k, n, max, draws, table, shuffle)
                == Retained(i, k + 1, n, max, draws, t, shuffle)
  {
    var t := Step(table, k, 0, max);
    StepTable(table, k, 0, max);
    Rearranged(shuffle, draws, t);
    SameTable(t, shuffle(draws, t), k + 1, max);
    hide IsTable, Step;
  }

  /** Fairness, on runs: of all sequences of draws, those after which a given sample is in the
      table are the fraction max / n. */
  lemma RunsAreFair(i: nat, n: nat, max: nat, shuffle: Shuffle)
    requires Rearranges(shuffle) && max <= n && i < n
    ensures |set d | d in Draws(max, n) && i in After(n, d, max, shuffle)| * n == max * |Draws(max, n)|
  {
    hide Retained, Outcomes, Draws, Follow, Rearranges;
    EverySampleEqual(i, n, max, shuffle);
    OutcomesCount(max, n);
    FilledTable(i, max, n, max, shuffle);
    var table := Filled(max, max, shuffle);
    RetainedCounts(i, max, n, max, [], table, shuffle);
    assert (set d | d in Draws(max, n) && i in After(n, d, max, shuffle))
           == Keeping(i, max, Draws(max, n), max, [], table, shuffle);
  }

  // ---------- Sorting, as a rearrangement ----------

  function Value(all: seq<int>, x: nat): int {
    if x < |all| then all[x] else 0
  }

  function Exchanged(t: seq<nat>, i: nat, j: nat): (u: seq<nat>)
    requires i < j < |t|
    ensures |u| == |t| && multiset(u) == multiset(t)
  {
    t[i := t[j]][j := t[i]]
  }

  lemma ExchangedAt(t: seq<nat>, i: nat, j: nat)
    requires i < j < |t|
    ensures forall k | 0 <= k < |t| :: Exchanged(t, i, j)[k] == t[if k == i then j else if k == j then i else k]
  {
  }

  /** Slot i compared with slots i + 1 to j - 1. */
  function Compared(all: seq<int>, t: seq<nat>, i: nat, j: nat): (u: seq<nat>)
    requires i < |t| && j <= |t|
    ensures |u| == |t| && multiset(u) == multiset(t)
  {
    if j <= i + 1 then t
    else
      var u := Compared(all, t, i, j - 1);
      if Value(all, u[j - 1]) < Value(all, u[i]) then Exchanged(u, i, j - 1) else u
  }

  lemma ComparedFirst(all: seq<int>, t: seq<nat>, i: nat)
    requires i < |t|
    ensures Compared(all, t, i, i + 1) == t
  {
  }

  lemma ComparedNext(all: seq<int>, t: seq<nat>, i: nat, j: nat)
    requires i < j < |t|
    ensures var u := Compared(all, t, i, j);
            Compared(all, t, i, j + 1) == if Value(all, u[j]) < Value(all, u[i]) then Exchanged(u, i, j) else u
  {
  }

  /** Slots 0 to i - 1 in place. */
  function Placed(all: seq<int>, t: seq<nat>, i: nat): (u: seq<nat>)
    requires i <= |t|
    ensures |u| == |t| && multiset(u) == multiset(t)
  {
    if i == 0 then t else Compared(all, Placed(all, t, i - 1), i - 1, |t|)
  }

  /** The table in the order of the sample values. */
  function Arranged(all: seq<int>, t: seq<nat>): (u: seq<nat>)
    ensures |u| == |t| && multiset(u) == multiset(t)
  {
    Placed(all, t, |t|)
  }

  lemma {:induction false} ComparedInOrder(all: seq<int>, t: seq<nat>, i: nat, j: nat)
    requires i < |t| && j <= |t| && forall p, q | 0 <= p < q < |t| :: Value(all, t[p]) <= Value(all, t[q])
    ensures Compared(all, t, i, j) == t
  {
    if j > i + 1 {
      ComparedInOrder(all, t, i, j - 1);
    }
  }

  lemma {:induction false} PlacedInOrder(all: seq<int>, t: seq<nat>, i: nat)
    requires i <= |t| && forall p, q | 0 <= p < q < |t| :: Value(all, t[p]) <= Value(all, t[q])
    ensures Placed(all, t, i) == t
  {
    hide Compared, Value;
    if i > 0 {
      PlacedInOrder(all, t, i - 1);
      ComparedInOrder(all, t, i - 1, |t|);
    }
  }

  /** The rearrangement that a plan of sorting amounts to: sorts[k] says whether the table is
      sorted once sample k has been added. */
  ghost function Plan(xs: seq<int>, sorts: seq<bool>): Shuffle {
    (draws: seq<nat>, table: seq<nat>) =>
      var k := |draws| + |table|;
      if 0 < k <= |xs| && k <= |sorts| && sorts[k - 1] then Arranged(xs[..k], table) else table
  }

  lemma PlanRearranges(xs: seq<int>, sorts: seq<bool>)
    ensures Rearranges(Plan(xs, sorts))
  {
  }

  // ---------- The table in memory ----------

  ghost predicate SortedUpTo(a: array<int>, lo: nat, hi: nat)
    reads a
    requires hi <= a.Length
  {
    forall i, j | 0 <= i < lo && i < j < hi :: a[i] <= a[j]
  }

  lemma OnePlaced(a: array<int>, i: nat, hi: nat)
    requires i < hi <= a.Length && SortedUpTo(a, i, hi) && forall k | i < k < hi :: a[i] <= a[k]
    ensures SortedUpTo(a, i + 1, hi)
  {
  }

  class PercentileGenerator {
    const max: nat
    const samples: array<int>
    var nSamples: nat
    var nSamplesTotal: nat
    var needSort: bool
    ghost var all: seq<int>
    ghost var kept: seq<nat>

    /** Slot j holds sample number kept[j] of all samples that were added. */
    ghost predicate Holds()
      reads this, samples
    {
      && samples.Length == max && nSamples == |kept| <= max && nSamplesTotal == |all|
      && IsTable(kept, nSamplesTotal, max)
      && forall j | 0 <= j < nSamples :: kept[j] < |all| && samples[j] == all[kept[j]]
    }

    ghost predicate Valid()
      reads this, samples
    {
      Holds() && (!needSort ==> SortedUpTo(samples, nSamples, nSamples))
    }

    constructor (max: nat)
      ensures Valid() && all == [] && kept == [] && this.max == max && fresh(samples)
    {
      this.max := max;
      samples := new int[max];
      nSamples, nSamplesTotal, needSort, all, kept := 0, 0, false, [], [];
    }

    /** Add a sample; r is the number drawn from 0 to nSamplesTotal if the table is full. */
    method AddSample(x: int, r: nat)
      requires Valid() && r <= nSamplesTotal
      modifies this, samples
      ensures Valid() && all == old(all) + [x] && kept == Step(old(kept), old(nSamplesTotal), r, max)
    {
      StepTable(kept, nSamplesTotal, r, max);
      hide IsTable;
      kept := Step(kept, nSamplesTotal, r, max);
      all := all + [x];
      if nSamples < max {
        samples[nSamples] := x;
        nSamples := nSamples + 1;
        needSort := true;
      } else if r < max {
        samples[r] := x;
        needSort := true;
      }
      nSamplesTotal := nSamplesTotal + 1;
    }

    method Exchange(i: nat, j: nat)
      requires Holds() && i < j < nSamples && SortedUpTo(samples, i, nSamples)
      modifies samples, this`kept
      ensures Holds() && kept == Exchanged(old(kept), i, j) && SortedUpTo(samples, i, nSamples)
      ensures samples[i] == old(samples[j]) && samples[j] == old(samples[i])
      ensures forall k | 0 <= k < samples.Length && k != i && k != j :: samples[k] == old(samples[k])
    {
      hide IsTable, Exchanged;
      ghost var before := kept;
      ExchangedAt(before, i, j);
      SameTable(before, Exchanged(before, i, j), nSamplesTotal, max);
      samples[i], samples[j] := samples[j], samples[i];
      kept := Exchanged(kept, i, j);
    }

    /** Add a sample and perhaps sort, as asking for a percentile does. */
    method Take(x: int, r: nat, sort: bool)
      requires Valid() && r <= nSamplesTotal
      modifies this, samples
      ensures Valid() && all == old(all) + [x] && nSamplesTotal == old(nSamplesTotal) + 1
      ensures |old(kept)| <= max && kept == Taken(all, old(kept), r, max, sort)
    {
      hide IsTable, Step, Arranged;
      AddSample(x, r);
      if sort {
        Sort(false);
      }
    }

    /** Bring the least of the samples from slot i on to slot i. */
    method Place(i: nat)
      requires Holds() && i < nSamples && SortedUpTo(samples, i, nSamples)
      modifies samples, this`kept
      ensures Holds() && |kept| == |old(kept)| && kept == Compared(all, old(kept), i, nSamples)
      ensures SortedUpTo(samples, i + 1, nSamples)
    {
      hide IsTable, Compared, Exchanged, SortedUpTo;
      ComparedFirst(all, kept, i);
      for j := i + 1 to nSamples
        invariant Holds() && |kept| == |old(kept)| && kept == Compared(all, old(kept), i, j)
        invariant SortedUpTo(samples, i, nSamples) && forall k | i < k < j :: samples[i] <= samples[k]
      {
        assert samples[j] == Value(all, kept[j]) && samples[i] == Value(all, kept[i]);
        ComparedNext(all, old(kept), i, j);
        if samples[j] < samples[i] {
          Exchange(i, j);
        }
      }
      OnePlaced(samples, i, nSamples);
    }

    /** Sorting rearranges what is kept; a table already in order stays as it is. */
    method Sort(force: bool)
      requires Valid()
      modifies samples, this`kept, this`needSort
      ensures Valid() && kept == Arranged(all, old(kept)) && multiset(kept) == multiset(old(kept))
      ensures force || old(needSort) ==> !needSort
    {
      hide IsTable, Compared;
      if force || needSort {
        for i := 0 to nSamples
          invariant Holds() && |kept| == |old(kept)| && kept == Placed(all, old(kept), i)
          invariant SortedUpTo(samples, i, nSamples)
        {
          Place(i);
        }
        needSort := false;
      } else {
        assert forall j | 0 <= j < nSamples :: samples[j] == Value(all, kept[j]);
        PlacedInOrder(all, kept, |kept|);
      }
    }
  }

  /** The table after sample k, which comes with draw r and may be followed by a sort. */
  function Taken(all: seq<int>, table: seq<nat>, r: nat, max: nat, sort: bool): seq<nat>
    requires all != [] && |table| <= max
  {
    var t := Step(table, |all| - 1, r, max);
    if sort then Arranged(all, t) else t
  }

  /** How many of the first k samples find the table full. */
  function Excess(k: nat, max: nat): nat {
    if k < max then 0 else k - max
  }

  lemma {:induction false} DrawsRange(k: nat, n: nat, d: seq<nat>)
    requires k <= n && d in Draws(k, n)
    ensures |d| == n - k && forall j | 0 <= j < |d| :: d[j] <= k + j
    decreases n - k
  {
    if k < n {
      DrawsRange(k + 1, n, d[1..]);
    }
  }

  lemma {:induction false} FollowNext(k: nat, p: seq<nat>, r: nat, max: nat, draws: seq<nat>, table: seq<nat>,
                                      shuffle: Shuffle)
    requires Rearranges(shuffle) && |table| == max
    ensures var t := Follow(k, p, max, draws, table, shuffle);
            && |t| == max
            && Follow(k, p + [r], max, draws, table, shuffle) == Next(k + |p|, r, max, draws + p, t, shuffle)
    decreases |p|
  {
    hide Next, Rearranges;
    if p == [] {
      assert draws + p == draws;
      assert ([r])[1..] == [];
    } else {
      NextIsFull(k, p[0], max, draws, table, shuffle);
      FollowNext(k + 1, p[1..], r, max, draws + [p[0]], Next(k, p[0], max, draws, table, shuffle), shuffle);
      assert (p + [r])[1..] == p[1..] + [r];
      assert draws + [p[0]] + p[1..] == draws + p;
    }
  }

  /** One sample more: a step of the table and a rearrangement. */
  lemma AfterNext(k: nat, p: seq<nat>, r: nat, max: nat, shuffle: Shuffle)
    requires Rearranges(shuffle) && |p| == Excess(k, max)
    ensures var t, q := After(k, p, max, shuffle), if k < max then p else p + [r];
            && |t| == (if k < max then k else max)
            && After(k + 1, q, max, shuffle) == shuffle(q, Step(t, k, if k < max then 0 else r, max))
  {
    hide Rearranges, Step, IsTable, Retained;
    if k < max {
      AfterFilling(k, max, shuffle);
      AfterFilling(k + 1, max, shuffle);
      FilledSize(k, max, shuffle);
    } else {
      FilledSize(max, max, shuffle);
      hide Filled;
      FollowNext(max, p, r, max, [], Filled(max, max, shuffle), shuffle);
      assert [] + p == p;
    }
  }

  lemma FilledSize(k: nat, max: nat, shuffle: Shuffle)
    requires Rearranges(shuffle) && k <= max
    ensures |Filled(k, max, shuffle)| == k
  {
    FilledTable(0, k, max, max, shuffle);
  }

  lemma AfterFilling(k: nat, max: nat, shuffle: Shuffle)
    requires k <= max
    ensures After(k, [], max, shuffle) == Filled(k, max, shuffle)
  {
  }

  lemma AfterTaking(xs: seq<int>, sorts: seq<bool>, k: nat, p: seq<nat>, r: nat, max: nat)
    requires k < |xs| == |sorts| && |p| == Excess(k, max) && (k < max ==> r == 0)
    ensures var t := After(k, p, max, Plan(xs, sorts));
            && |t| == (if k < max then k else max)
            && After(k + 1, if k < max then p else p + [r], max, Plan(xs, sorts))
                == Taken(xs[..k + 1], t, r, max, sorts[k])
  {
    hide After, Arranged, Step, Rearranges;
    PlanRearranges(xs, sorts);
    AfterNext(k, p, r, max, Plan(xs, sorts));
  }

  lemma NothingTaken(max: nat, xs: seq<int>, sorts: seq<bool>)
    ensures After(0, [], max, Plan(xs, sorts)) == []
  {
  }

  /** A run: add the samples in turn, sorting when the plan says so.  The samples kept are those
      that follow from the draws, so that RunsAreFair speaks about this run. */
  method Run(max: nat, xs: seq<int>, sorts: seq<bool>, d: seq<nat>) returns (g: PercentileGenerator)
    requires |sorts| == |xs| && (|xs| <= max ==> d == []) && (|xs| > max ==> d in Draws(max, |xs|))
    ensures fresh(g) && g.Valid() && g.max == max && g.all == xs
    ensures g.kept == After(|xs|, d, max, Plan(xs, sorts))
  {
    hide After, Taken, Plan, Draws, Step, Arranged;
    if |xs| > max {
      DrawsRange(max, |xs|, d);
    }
    NothingTaken(max, xs, sorts);
    g := new PercentileGenerator(max);
    assert d[..0] == [];
    for k := 0 to |xs|
      invariant fresh(g) && fresh(g.samples) && g.Valid() && g.max == max && g.all == xs[..k]
      invariant g.kept == After(k, d[..Excess(k, max)], max, Plan(xs, sorts))
    {
      var r := if k < max then 0 else d[k - max];
      ghost var p := d[..Excess(k, max)];
      AfterTaking(xs, sorts, k, p, r, max);
      assert k >= max ==> d[..k + 1 - max] == p + [r];
      assert xs[..k] + [xs[k]] == xs[..k + 1];
      g.Take(xs[k], r, sorts[k]);
    }
    assert xs[..|xs|] == xs && d[..|d|] == d;
  }

  lemma SameTable(a: seq<nat>, b: seq<nat>, k: nat, max: nat)
    requires IsTable(a, k, max) && multiset(a) == multiset(b)
    ensures IsTable(b, k, max)
  {
    assert |a| == |multiset(a)| && |b| == |multiset(b)|;
    assert forall x: nat :: x in b <==> x in multiset(b);
    assert forall x: nat :: x in a <==> x in multiset(a);
  }
}
