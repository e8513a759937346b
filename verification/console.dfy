/**
 * The console variant of the program (`afk_blade_dark_wizard.py`): a table
 * of due times holding only the keys whose first interval was positive, in
 * `INTERVAL` order; a poll loop that prints the counters at most once per
 * second and fires and re-arms every due key; and the counter line itself.
 *
 * As in the status-window variant, the clock readings and random samples
 * consumed while arming are supplied as `Draw`s.
 */
module Console {
  import opened Optional
  import opened Text
  import opened Numbers
  import opened Intervals

  /** One `key: due` item of `schedule`, the due time on the monotonic clock. */
  datatype Timer = Timer(key: Key, due: real)

  /** `schedule`: a dict, so its items keep the order in which they were inserted. */
  type Table = seq<Timer>

  function KeysOf(tbl: Table): (ks: seq<Key>)
    ensures |ks| == |tbl| && forall i :: 0 <= i < |tbl| ==> ks[i] == tbl[i].key
  {
    seq(|tbl|, i requires 0 <= i < |tbl| => tbl[i].key)
  }

  /** One draw per item of `INTERVAL`, each a sample its value can produce. */
  predicate Samples(cfgs: seq<Setting>, draws: seq<Draw>) {
    |draws| == |cfgs| && forall i :: 0 <= i < |cfgs| ==> Fits(cfgs[i].cfg, draws[i].sample)
  }

  /**
   * What one item of `INTERVAL` contributes at start-up: a timer for its key,
   * due the drawn interval after the arming instant, when that interval is
   * positive; nothing otherwise.
   */
  function Offer(item: Setting, d: Draw): (o: Option<Timer>)
    requires Fits(item.cfg, d.sample)
    ensures o.None? <==> NextInterval(item.cfg, d.sample) <= 0.0
    ensures o.Some? ==>
      o.value.key == item.key && o.value.due > d.at && o.value.due - d.at == NextInterval(item.cfg, d.sample)
  {
    var iv := NextInterval(item.cfg, d.sample);
    if iv > 0.0 then Some(Timer(item.key, d.at + iv)) else None
  }

  function Offers(cfgs: seq<Setting>, draws: seq<Draw>): (os: seq<Option<Timer>>)
    requires Samples(cfgs, draws)
    ensures |os| == |cfgs| && forall i :: 0 <= i < |cfgs| ==> os[i] == Offer(cfgs[i], draws[i])
  {
    seq(|cfgs|, i requires 0 <= i < |cfgs| => Offer(cfgs[i], draws[i]))
  }

  /**
   * The start-up loop over the items of `INTERVAL`: a key whose interval
   * comes out positive is inserted with due time `now() + iv`; any other key
   * is left out of the table for good.
   */
  function Init(cfgs: seq<Setting>, draws: seq<Draw>): (tbl: Table)
    requires Samples(cfgs, draws)
    ensures |tbl| <= |cfgs|
    ensures forall i :: 0 <= i < |cfgs| && Offer(cfgs[i], draws[i]).Some? ==>
      Offer(cfgs[i], draws[i]).value in tbl
    ensures forall j :: 0 <= j < |tbl| ==> Some(tbl[j]) in Offers(cfgs, draws)
  {
    SomesComplete(Offers(cfgs, draws));
    SomesSound(Offers(cfgs, draws));
    Somes(Offers(cfgs, draws))
  }

  /**
   * Items are inserted in `INTERVAL` order: one more item at the end of the
   * dict adds its timer, if any, at the end of the table.
   */
  lemma InitAppends(cfgs: seq<Setting>, draws: seq<Draw>, item: Setting, d: Draw)
    requires Samples(cfgs, draws) && Fits(item.cfg, d.sample)
    ensures Samples(cfgs + [item], draws + [d])
    ensures Init(cfgs + [item], draws + [d]) ==
      Init(cfgs, draws) + (if Offer(item, d).Some? then [Offer(item, d).value] else [])
  {
    assert Samples(cfgs + [item], draws + [d]) by {
      forall i | 0 <= i < |cfgs| + 1 ensures Fits((cfgs + [item])[i].cfg, (draws + [d])[i].sample) {
        if i < |cfgs| {
          assert (cfgs + [item])[i] == cfgs[i] && (draws + [d])[i] == draws[i];
        }
      }
    }
    assert Offers(cfgs + [item], draws + [d]) == Offers(cfgs, draws) + [Offer(item, d)];
    SomesAppend(Offers(cfgs, draws), Offer(item, d));
  }

  /** Since `INTERVAL` is a dict, the start-up table names each key once, and only keys it holds. */
  lemma InitKeys(cfgs: seq<Setting>, draws: seq<Draw>)
    requires Samples(cfgs, draws) && DistinctKeys(cfgs)
    ensures Distinct(KeysOf(Init(cfgs, draws)))
    ensures Covered(cfgs, Init(cfgs, draws))
  {
    var os, tbl := Offers(cfgs, draws), Init(cfgs, draws);
    SomesDistinctBy(os, (tm: Timer) => tm.key);
    forall j | 0 <= j < |tbl| ensures HasKey(cfgs, tbl[j].key) {
      var i :| 0 <= i < |os| && os[i] == Some(tbl[j]);
      assert cfgs[i].key == tbl[j].key;
    }
  }

  /** Every key of the table has an item in `INTERVAL`, so `INTERVAL[key]` cannot fail. */
  predicate Covered(cfgs: seq<Setting>, tbl: Table) {
    forall i :: 0 <= i < |tbl| ==> HasKey(cfgs, tbl[i].key)
  }

  /** One draw per timer, each a sample the timer's own `INTERVAL[key]` can produce. */
  predicate FireDraws(cfgs: seq<Setting>, tbl: Table, draws: seq<Draw>) {
    |draws| == |tbl| && forall i :: 0 <= i < |tbl| ==> Fits(CfgOf(cfgs, tbl[i].key), draws[i].sample)
  }

  lemma FireDrawsTail(cfgs: seq<Setting>, tbl: Table, draws: seq<Draw>)
    requires FireDraws(cfgs, tbl, draws) && tbl != []
    ensures FireDraws(cfgs, tbl[1..], draws[1..])
  {
    forall i | 0 <= i < |tbl| - 1 ensures Fits(CfgOf(cfgs, tbl[1..][i].key), draws[1..][i].sample) {
      assert tbl[1..][i] == tbl[i + 1] && draws[1..][i] == draws[i + 1];
    }
  }

  /** `t >= schedule[key]`. */
  predicate Due(tm: Timer, t: real) {
    t >= tm.due
  }

  /** Some timer of the table for key `k` is due at `t`. */
  predicate DueIn(tbl: Table, k: Key, t: real) {
    exists i :: 0 <= i < |tbl| && tbl[i].key == k && Due(tbl[i], t)
  }

  /** The keys of the timers due at `t`, in table order. */
  function DueKeys(tbl: Table, t: real): (r: seq<Key>)
    ensures |r| <= |tbl|
    ensures forall k :: k in r <==> DueIn(tbl, k, t)
    decreases |tbl|
  {
    if tbl == [] then []
    else
      var rest := DueKeys(tbl[1..], t);
      forall k ensures DueIn(tbl, k, t) <==> (tbl[0].key == k && Due(tbl[0], t)) || DueIn(tbl[1..], k, t) {
        if DueIn(tbl, k, t) {
          var i :| 0 <= i < |tbl| && tbl[i].key == k && Due(tbl[i], t);
          if i > 0 {
            assert tbl[1..][i - 1] == tbl[i];
          }
        }
        if DueIn(tbl[1..], k, t) {
          var i :| 0 <= i < |tbl| - 1 && tbl[1..][i].key == k && Due(tbl[1..][i], t);
          assert tbl[i + 1] == tbl[1..][i];
        }
      }
      (if Due(tbl[0], t) then [tbl[0].key] else []) + rest
  }

  /** The table and the presses after the firing loop. */
  datatype Fired = Fired(table: Table, fired: seq<Key>)

  /**
   * The firing loop over a snapshot of the table's keys: every timer due at
   * the snapshot `t` is pressed and replaced by `now() + next_interval(INTERVAL[key])`
   * — with no check that this interval is positive; any other timer stays.
   */
  function Fire(cfgs: seq<Setting>, tbl: Table, t: real, draws: seq<Draw>): (r: Fired)
    requires Covered(cfgs, tbl) && FireDraws(cfgs, tbl, draws)
    ensures |r.table| == |tbl|
    ensures forall i :: 0 <= i < |tbl| ==> r.table[i].key == tbl[i].key
    ensures forall i :: 0 <= i < |tbl| && !Due(tbl[i], t) ==> r.table[i] == tbl[i]
    ensures forall i :: 0 <= i < |tbl| && Due(tbl[i], t) ==>
      r.table[i].due - draws[i].at == NextInterval(CfgOf(cfgs, tbl[i].key), draws[i].sample)
    ensures r.fired == DueKeys(tbl, t)
    decreases |tbl|
  {
    if tbl == [] then Fired([], [])
    else
      FireDrawsTail(cfgs, tbl, draws);
      var rest := Fire(cfgs, tbl[1..], t, draws[1..]);
      var k := tbl[0].key;
      if Due(tbl[0], t) then
        Fired([Timer(k, draws[0].at + NextInterval(CfgOf(cfgs, k), draws[0].sample))] + rest.table, [k] + rest.fired)
      else
        Fired([tbl[0]] + rest.table, rest.fired)
  }

  /** Firing keeps the table's keys, in order, so it keeps both table invariants. */
  lemma FireKeepsKeys(cfgs: seq<Setting>, tbl: Table, t: real, draws: seq<Draw>)
    requires Covered(cfgs, tbl) && FireDraws(cfgs, tbl, draws)
    ensures KeysOf(Fire(cfgs, tbl, t, draws).table) == KeysOf(tbl)
    ensures Covered(cfgs, Fire(cfgs, tbl, t, draws).table)
  {
  }

  /**
   * A re-armed key whose every sample is positive is due strictly after
   * the instant it was re-armed, and so strictly after the snapshot.
   */
  lemma RearmStrictlyLater(cfgs: seq<Setting>, tbl: Table, t: real, draws: seq<Draw>, i: nat)
    requires Covered(cfgs, tbl) && FireDraws(cfgs, tbl, draws)
    requires i < |tbl| && Due(tbl[i], t) && t <= draws[i].at && Steady(CfgOf(cfgs, tbl[i].key))
    ensures Fire(cfgs, tbl, t, draws).table[i].due > draws[i].at >= t
  {
    SteadyIffAlwaysPositive(CfgOf(cfgs, tbl[i].key));
  }

  /**
   * Without the positivity check a range that reaches down to zero can
   * re-arm a key at the very instant it fired: `(0, 2)` armed at start-up
   * with sample 1, then re-armed with sample 0, is due again at once and
   * fires on the next poll too.
   */
  lemma RearmAtOnce()
    ensures var cfgs := [Setting("F1", Span(Int(0), Int(2)))];
      var tbl := Init(cfgs, [Draw(0.0, 1.0)]);
      tbl == [Timer("F1", 1.0)] &&
      Fire(cfgs, tbl, 5.0, [Draw(5.0, 0.0)]).table == [Timer("F1", 5.0)] &&
      Due(Fire(cfgs, tbl, 5.0, [Draw(5.0, 0.0)]).table[0], 5.0)
  {
    var cfgs := [Setting("F1", Span(Int(0), Int(2)))];
    assert Fits(cfgs[0].cfg, 1.0) && Fits(cfgs[0].cfg, 0.0);
    assert Find(cfgs, "F1") == Some(cfgs[0].cfg);
  }

  /** `int(due - current) >= 0`: the timer is listed by `print_counters`. */
  predicate Shown(tm: Timer, current: real) {
    Trunc(tm.due - current) >= 0
  }

  /** Because `int()` rounds toward zero, a timer overdue by less than a second is still listed. */
  lemma ShownIff(tm: Timer, current: real)
    ensures Shown(tm, current) <==> tm.due - current > -1.0
  {
  }

  /** `f"{key} en {remaining}s"`. */
  function Segment(k: Key, n: nat): string {
    k + " en " + NatText(n) + "s"
  }

  /** The timers `print_counters` lists, in table order. */
  function Listed(current: real, tbl: Table): (ls: Table)
    ensures |ls| <= |tbl|
    ensures forall j :: 0 <= j < |ls| ==> ls[j] in tbl && Shown(ls[j], current)
    ensures forall i :: 0 <= i < |tbl| && Shown(tbl[i], current) ==> tbl[i] in ls
    decreases |tbl|
  {
    if tbl == [] then []
    else
      var rest := Listed(current, tbl[1..]);
      assert forall i :: 1 <= i < |tbl| ==> tbl[i] == tbl[1..][i - 1];
      (if Shown(tbl[0], current) then [tbl[0]] else []) + rest
  }

  /** `print_counters` walks the table in order: one more timer at the end is listed, if at all, last. */
  lemma {:induction false} ListedAppend(current: real, tbl: Table, tm: Timer)
    ensures Listed(current, tbl + [tm]) == Listed(current, tbl) + (if Shown(tm, current) then [tm] else [])
    decreases |tbl|
  {
    if tbl == [] {
      assert tbl + [tm] == [tm];
      assert Listed(current, [tm]) == (if Shown(tm, current) then [tm] else []) + Listed(current, []);
    } else {
      assert (tbl + [tm])[0] == tbl[0];
      assert (tbl + [tm])[1..] == tbl[1..] + [tm];
      ListedAppend(current, tbl[1..], tm);
    }
  }

  /** The entries `print_counters` builds: one per listed timer, with its whole seconds left. */
  function Counters(current: real, tbl: Table): (segs: seq<string>)
    ensures var ls := Listed(current, tbl);
      |segs| == |ls| && forall j :: 0 <= j < |ls| ==> segs[j] == Segment(ls[j].key, Trunc(ls[j].due - current))
  {
    var ls := Listed(current, tbl);
    seq(|ls|, j requires 0 <= j < |ls| => Segment(ls[j].key, Trunc(ls[j].due - current)))
  }

  lemma SegmentNoBar(k: Key, n: nat)
    requires '|' !in k
    ensures '|' !in Segment(k, n)
  {
    var d := NatText(n);
    forall p | 0 <= p < |d| ensures d[p] != '|' {
      assert IsDigit(d[p]);
    }
  }

  /** The line `print_counters` prints, or nothing when no timer is listed. */
  function CounterLine(current: real, tbl: Table): (line: Option<string>)
    ensures line.None? <==> forall i :: 0 <= i < |tbl| ==> !Shown(tbl[i], current)
  {
    var segs := Counters(current, tbl);
    if segs == [] then None
    else Some(Join(segs))
  }

  /**
   * When no key contains `'|'`, the printed line splits back into its
   * entries, and each entry shows the whole seconds left on its timer.
   */
  lemma CounterLineSplits(current: real, tbl: Table)
    requires forall i :: 0 <= i < |tbl| ==> '|' !in tbl[i].key
    requires CounterLine(current, tbl).Some?
    ensures Split(CounterLine(current, tbl).value) == Counters(current, tbl)
  {
    var segs, ls := Counters(current, tbl), Listed(current, tbl);
    forall j | 0 <= j < |segs| ensures '|' !in segs[j] {
      assert ls[j] in tbl;
      SegmentNoBar(ls[j].key, Trunc(ls[j].due - current));
    }
    SplitJoin(segs);
  }

  /** A listed timer shows the whole seconds left, `0` once it is due. */
  lemma ShownSeconds(tm: Timer, current: real)
    requires Shown(tm, current)
    ensures var n := Trunc(tm.due - current);
      (tm.due <= current ==> n == 0)
      && (tm.due >= current ==> n as real <= tm.due - current < n as real + 1.0)
  {
  }

  /** The console loop's state: the table and `last_counter_print`. */
  datatype Loop = Loop(table: Table, lastPrint: real)

  /** What one pass of the loop did: its new state, the counter line printed (if any), the presses. */
  datatype Pass = Pass(loop: Loop, printed: Option<string>, fired: seq<Key>)

  /** The loop as it starts, right after the start-up table is built. */
  function Start(cfgs: seq<Setting>, draws: seq<Draw>): (l: Loop)
    requires Samples(cfgs, draws)
    ensures l.lastPrint == 0.0
  {
    Loop(Init(cfgs, draws), 0.0)
  }

  /** `t - last_counter_print >= 1.0`. */
  predicate CountersDue(l: Loop, t: real) {
    t - l.lastPrint >= 1.0
  }

  /**
   * One pass with `t = now()`: the counters are printed from the table as it
   * stood before firing, at most once per second; then the due keys fire.
   */
  function Step(cfgs: seq<Setting>, l: Loop, t: real, draws: seq<Draw>): (p: Pass)
    requires Covered(cfgs, l.table) && FireDraws(cfgs, l.table, draws)
    ensures CountersDue(l, t) ==> p.loop.lastPrint == t && p.printed == CounterLine(t, l.table)
    ensures !CountersDue(l, t) ==> p.loop.lastPrint == l.lastPrint && p.printed.None?
    ensures p.loop.table == Fire(cfgs, l.table, t, draws).table && p.fired == DueKeys(l.table, t)
  {
    var f := Fire(cfgs, l.table, t, draws);
    if CountersDue(l, t) then Pass(Loop(f.table, t), CounterLine(t, l.table), f.fired)
    else Pass(Loop(f.table, l.lastPrint), None, f.fired)
  }

  /** One pass of the loop: its `now()` and the draws its re-arms consume. */
  datatype Poll = Poll(t: real, draws: seq<Draw>)

  /** The instants at which the counters were printed, and every key pressed, in order. */
  datatype Trace = Trace(loop: Loop, printedAt: seq<real>, fired: seq<Key>)

  /** Draws fitting the table, for each pass; the table's keys never change, so one check suffices. */
  predicate Polls(cfgs: seq<Setting>, tbl: Table, polls: seq<Poll>) {
    forall j :: 0 <= j < |polls| ==> FireDraws(cfgs, tbl, polls[j].draws)
  }

  lemma FireDrawsSameKeys(cfgs: seq<Setting>, a: Table, b: Table, draws: seq<Draw>)
    requires FireDraws(cfgs, a, draws) && KeysOf(a) == KeysOf(b)
    ensures FireDraws(cfgs, b, draws)
  {
    forall i | 0 <= i < |b| ensures b[i].key == a[i].key {
      assert KeysOf(a)[i] == KeysOf(b)[i];
    }
  }

  /** After one pass the remaining polls still fit the table, and every key still has an `INTERVAL` item. */
  lemma StepKeepsPolls(cfgs: seq<Setting>, l: Loop, polls: seq<Poll>)
    requires Covered(cfgs, l.table) && Polls(cfgs, l.table, polls) && polls != []
    ensures var p := Step(cfgs, l, polls[0].t, polls[0].draws);
      Covered(cfgs, p.loop.table) && Polls(cfgs, p.loop.table, polls[1..])
      && KeysOf(p.loop.table) == KeysOf(l.table)
  {
    var p := Step(cfgs, l, polls[0].t, polls[0].draws);
    FireKeepsKeys(cfgs, l.table, polls[0].t, polls[0].draws);
    forall j | 0 <= j < |polls| - 1 ensures FireDraws(cfgs, p.loop.table, polls[1..][j].draws) {
      assert polls[1..][j] == polls[j + 1];
      FireDrawsSameKeys(cfgs, l.table, p.loop.table, polls[j + 1].draws);
    }
  }

  /** The `now()` readings of the passes, in order. */
  function Times(polls: seq<Poll>): (ts: seq<real>)
    ensures |ts| == |polls| && forall i :: 0 <= i < |polls| ==> ts[i] == polls[i].t
  {
    seq(|polls|, i requires 0 <= i < |polls| => polls[i].t)
  }

  /**
   * The `while True` loop over a finite prefix of its passes: `printedAt`
   * records every pass that ran `print_counters`, `fired` every press.
   */
  function Run(cfgs: seq<Setting>, l: Loop, polls: seq<Poll>): (tr: Trace)
    requires Covered(cfgs, l.table) && Polls(cfgs, l.table, polls)
    ensures KeysOf(tr.loop.table) == KeysOf(l.table)
    ensures |tr.printedAt| <= |polls|
    decreases |polls|
  {
    if polls == [] then Trace(l, [], [])
    else
      var p := Step(cfgs, l, polls[0].t, polls[0].draws);
      StepKeepsPolls(cfgs, l, polls);
      var rest := Run(cfgs, p.loop, polls[1..]);
      Trace(rest.loop, (if CountersDue(l, polls[0].t) then [polls[0].t] else []) + rest.printedAt,
        p.fired + rest.fired)
  }

  /** `print_counters` runs only at the `now()` of some pass. */
  lemma {:induction false} RunPrintsAtPolls(cfgs: seq<Setting>, l: Loop, polls: seq<Poll>)
    requires Covered(cfgs, l.table) && Polls(cfgs, l.table, polls)
    ensures forall x :: x in Run(cfgs, l, polls).printedAt ==> x in Times(polls)
    decreases |polls|
  {
    if polls != [] {
      var p := Step(cfgs, l, polls[0].t, polls[0].draws);
      StepKeepsPolls(cfgs, l, polls);
      RunPrintsAtPolls(cfgs, p.loop, polls[1..]);
      assert Times(polls) == [polls[0].t] + Times(polls[1..]);
    }
  }

  /**
   * Over any run `print_counters` runs at least one second apart, the
   * first time at least one second after its last run before this one,
   * and `last_counter_print` ends at the last of those instants.
   */
  lemma {:induction false} CountersSpaced(cfgs: seq<Setting>, l: Loop, polls: seq<Poll>)
    requires Covered(cfgs, l.table) && Polls(cfgs, l.table, polls)
    ensures var pa := Run(cfgs, l, polls).printedAt;
      && (|pa| > 0 ==> pa[0] >= l.lastPrint + 1.0)
      && (forall j :: 0 <= j < |pa| - 1 ==> pa[j] + 1.0 <= pa[j + 1])
      && Run(cfgs, l, polls).loop.lastPrint == if pa == [] then l.lastPrint else pa[|pa| - 1]
    decreases |polls|
  {
    if polls != [] {
      var p := Step(cfgs, l, polls[0].t, polls[0].draws);
      StepKeepsPolls(cfgs, l, polls);
      CountersSpaced(cfgs, p.loop, polls[1..]);
    }
  }

  /** Every key pressed during a run is a key of the table, so one whose first interval was positive. */
  lemma {:induction false} RunFiresTableKeys(cfgs: seq<Setting>, l: Loop, polls: seq<Poll>)
    requires Covered(cfgs, l.table) && Polls(cfgs, l.table, polls)
    ensures forall k :: k in Run(cfgs, l, polls).fired ==> k in KeysOf(l.table)
    decreases |polls|
  {
    if polls != [] {
      var p := Step(cfgs, l, polls[0].t, polls[0].draws);
      StepKeepsPolls(cfgs, l, polls);
      RunFiresTableKeys(cfgs, p.loop, polls[1..]);
      forall k | k in p.fired ensures k in KeysOf(l.table) {
        assert DueIn(l.table, k, polls[0].t);
        var i :| 0 <= i < |l.table| && l.table[i].key == k && Due(l.table[i], polls[0].t);
        assert KeysOf(l.table)[i] == k;
      }
    }
  }

  /** From start-up, `print_counters` first runs at least one second after the clock's zero. */
  lemma StartFirstPrint(cfgs: seq<Setting>, draws: seq<Draw>, polls: seq<Poll>)
    requires Samples(cfgs, draws) && DistinctKeys(cfgs)
    requires Polls(cfgs, Start(cfgs, draws).table, polls)
    ensures Covered(cfgs, Start(cfgs, draws).table)
    ensures var pa := Run(cfgs, Start(cfgs, draws), polls).printedAt;
      |pa| > 0 ==> pa[0] >= 1.0
  {
    InitKeys(cfgs, draws);
    CountersSpaced(cfgs, Start(cfgs, draws), polls);
  }

  /** A key of the start-up table is one whose first interval came out positive. */
  lemma InitKeyArmed(cfgs: seq<Setting>, draws: seq<Draw>, k: Key)
    requires Samples(cfgs, draws) && k in KeysOf(Init(cfgs, draws))
    ensures exists i :: 0 <= i < |cfgs| && cfgs[i].key == k && NextInterval(cfgs[i].cfg, draws[i].sample) > 0.0
  {
    var tbl := Init(cfgs, draws);
    var j :| 0 <= j < |tbl| && KeysOf(tbl)[j] == k;
    var i :| 0 <= i < |cfgs| && Offers(cfgs, draws)[i] == Some(tbl[j]);
    assert Offer(cfgs[i], draws[i]) == Some(tbl[j]);
  }

  /** From start-up, every key ever pressed is one whose first interval came out positive. */
  lemma StartFiresArmedKeys(cfgs: seq<Setting>, draws: seq<Draw>, polls: seq<Poll>)
    requires Samples(cfgs, draws) && DistinctKeys(cfgs)
    requires Polls(cfgs, Start(cfgs, draws).table, polls)
    ensures Covered(cfgs, Start(cfgs, draws).table)
    ensures forall k :: k in Run(cfgs, Start(cfgs, draws), polls).fired ==>
      exists i :: 0 <= i < |cfgs| && cfgs[i].key == k && NextInterval(cfgs[i].cfg, draws[i].sample) > 0.0
  {
    InitKeys(cfgs, draws);
    var fired := Run(cfgs, Start(cfgs, draws), polls).fired;
    RunFiresTableKeys(cfgs, Start(cfgs, draws), polls);
    forall k | k in fired
      ensures exists i :: 0 <= i < |cfgs| && cfgs[i].key == k && NextInterval(cfgs[i].cfg, draws[i].sample) > 0.0
    {
      InitKeyArmed(cfgs, draws, k);
    }
  }

  /**
   * With the shipped `INTERVAL`, only F3, F4, F7, F10 and F12 enter the
   * table, whatever the samples.
   */
  lemma ShippedTable(draws: seq<Draw>)
    requires Samples(Intervals.Shipped, draws)
    ensures forall k :: k in KeysOf(Init(Intervals.Shipped, draws)) ==> k in {"F3", "F4", "F7", "F10", "F12"}
  {
    var os, tbl := Offers(Intervals.Shipped, draws), Init(Intervals.Shipped, draws);
    ShippedEnabled();
    forall k | k in KeysOf(tbl) ensures k in {"F3", "F4", "F7", "F10", "F12"} {
      var j :| 0 <= j < |tbl| && KeysOf(tbl)[j] == k;
      var i :| 0 <= i < |os| && os[i] == Some(tbl[j]);
      assert Enabled(Intervals.Shipped[i].cfg);
    }
  }
}
