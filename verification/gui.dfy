/**
 * The status-window variant of the program (`afk_interfaz.py`): a shared
 * state holding one schedule entry per key of `ALL_KEYS` (`None` when the
 * key is not armed), armed when the serial port opens, fired and re-armed
 * on every poll tick, and read by the window to show each key's cooldown.
 *
 * Time is the monotonic clock as a real number. The clock readings and
 * random samples consumed while arming keys are supplied as `Draw`s, one per
 * key of `ALL_KEYS`; the one for a key is used only if that key is armed.
 */
module Gui {
  import opened Optional
  import opened Text
  import opened Numbers
  import opened Intervals
  import opened Press

  /** `STATE.schedule`: each key's next due time, `None` when the key is not armed. */
  type Schedule = map<Key, Option<real>>

  /**
   * The program's two configuration constants: `ALL_KEYS`, the order in
   * which keys are armed, fired and shown, and the `INTERVAL` dict.
   */
  datatype Config = Config(keys: seq<Key>, intervals: seq<Setting>) {

    /** `INTERVAL.get(key, 0)`. */
    function Of(k: Key): Cfg {
      CfgOf(intervals, k)
    }

    function KeySet(): set<Key> {
      set k | k in keys
    }

    /** `ALL_KEYS` names each key once, and `INTERVAL` is a dict. */
    predicate Valid() {
      Distinct(keys) && DistinctKeys(intervals)
    }
  }

  /** The configuration both constants ship with. */
  const Shipped: Config := Config(AllKeys, Intervals.Shipped)

  /**
   * The shipped configuration is valid, its literals print in the short
   * form, and no key text contains a newline or a `'|'`.
   */
  lemma ShippedConfigValid()
    ensures Shipped.Valid() && ValidConfig(Shipped.intervals)
    ensures forall i :: 0 <= i < |Shipped.keys| ==> '\n' !in Shipped.keys[i] && '|' !in Shipped.keys[i]
  {
    AllKeysDistinct();
    ShippedValid();
    AllKeysPlain();
  }

  /** `SharedState`, without its lock and its never-displayed press timestamps. */
  datatype State = State(
    running: bool,
    connected: bool,
    status: string,
    schedule: Schedule,
    lastAction: string)

  const ConnectedStatus: string := "Conectado a COM17 @ 9600"

  /** The shared state as the program creates it at start-up. */
  function Initial(conf: Config): (s: State)
    ensures s.running && !s.connected && s.lastAction == "-"
    ensures s.schedule.Keys == conf.KeySet()
    ensures forall k :: k in s.schedule ==> s.schedule[k].None?
  {
    State(true, false, "Iniciando...", map k | k in conf.keys :: None, "-")
  }

  /** The entry a key gets when it is (re)armed: `now() + iv` if `iv > 0`, otherwise `None`. */
  function Arm(c: Cfg, d: Draw): (due: Option<real>)
    requires Fits(c, d.sample)
    ensures due.None? <==> NextInterval(c, d.sample) <= 0.0
    ensures due.Some? ==> due.value - d.at == NextInterval(c, d.sample) && due.value > d.at
  {
    var iv := NextInterval(c, d.sample);
    if iv > 0.0 then Some(d.at + iv) else None
  }

  /** One draw per key of `ks`, each a sample the key's configuration can produce. */
  predicate Drawable(conf: Config, ks: seq<Key>, draws: seq<Draw>) {
    |draws| == |ks| && forall i :: 0 <= i < |ks| ==> Fits(conf.Of(ks[i]), draws[i].sample)
  }

  lemma DrawableTail(conf: Config, ks: seq<Key>, draws: seq<Draw>)
    requires Drawable(conf, ks, draws) && ks != []
    ensures Drawable(conf, ks[1..], draws[1..])
  {
    forall i | 0 <= i < |ks| - 1 ensures Fits(conf.Of(ks[1..][i]), draws[1..][i].sample) {
      assert ks[1..][i] == ks[i + 1] && draws[1..][i] == draws[i + 1];
    }
  }

  /** The initialisation loop: each key of `ks`, in order, gets a fresh entry. */
  function ArmAll(conf: Config, sched: Schedule, ks: seq<Key>, draws: seq<Draw>): Schedule
    requires Drawable(conf, ks, draws)
    decreases |ks|
  {
    if ks == [] then sched
    else
      DrawableTail(conf, ks, draws);
      ArmAll(conf, sched[ks[0] := Arm(conf.Of(ks[0]), draws[0])], ks[1..], draws[1..])
  }

  lemma {:induction false} ArmAllSpec(conf: Config, sched: Schedule, ks: seq<Key>, draws: seq<Draw>)
    requires Drawable(conf, ks, draws) && Distinct(ks)
    ensures ArmAll(conf, sched, ks, draws).Keys == sched.Keys + set k | k in ks
    ensures forall i :: 0 <= i < |ks| ==>
      ArmAll(conf, sched, ks, draws)[ks[i]] == Arm(conf.Of(ks[i]), draws[i])
    ensures forall k :: k in sched && k !in ks ==> ArmAll(conf, sched, ks, draws)[k] == sched[k]
    decreases |ks|
  {
    if ks != [] {
      DrawableTail(conf, ks, draws);
      var k := ks[0];
      var next := sched[k := Arm(conf.Of(k), draws[0])];
      assert Distinct(ks[1..]);
      ArmAllSpec(conf, next, ks[1..], draws[1..]);
      var r := ArmAll(conf, sched, ks, draws);
      assert r == ArmAll(conf, next, ks[1..], draws[1..]);
      assert k !in ks[1..];
      forall i | 0 <= i < |ks| ensures r[ks[i]] == Arm(conf.Of(ks[i]), draws[i]) {
        if i > 0 {
          assert ks[1..][i - 1] == ks[i];
        }
      }
      assert r.Keys == sched.Keys + set k | k in ks;
    }
  }

  /**
   * The port has opened: mark the state connected, set the status line and
   * give every key of `ALL_KEYS` one entry, `None` when its interval is not
   * positive and otherwise its arming instant plus that interval.
   */
  function Connect(s: State, conf: Config, draws: seq<Draw>): (r: State)
    requires conf.Valid() && Drawable(conf, conf.keys, draws)
    ensures r.connected && r.running == s.running && r.lastAction == s.lastAction
    ensures r.schedule.Keys == s.schedule.Keys + conf.KeySet()
    ensures forall i :: 0 <= i < |conf.keys| ==>
      (r.schedule[conf.keys[i]].None? <==> NextInterval(conf.Of(conf.keys[i]), draws[i].sample) <= 0.0)
    ensures forall i :: 0 <= i < |conf.keys| && r.schedule[conf.keys[i]].Some? ==>
      r.schedule[conf.keys[i]].value == draws[i].at + NextInterval(conf.Of(conf.keys[i]), draws[i].sample)
      && r.schedule[conf.keys[i]].value > draws[i].at
  {
    ArmAllSpec(conf, s.schedule, conf.keys, draws);
    s.(connected := true, status := ConnectedStatus, schedule := ArmAll(conf, s.schedule, conf.keys, draws))
  }

  /** A key of `ALL_KEYS` missing from `INTERVAL` reads as `0` and gets no due time. */
  lemma MissingKeyNotArmed(s: State, conf: Config, draws: seq<Draw>, i: nat)
    requires conf.Valid() && Drawable(conf, conf.keys, draws) && i < |conf.keys| && !HasKey(conf.intervals, conf.keys[i])
    ensures Connect(s, conf, draws).schedule[conf.keys[i]] == None
  {
  }

  /** `schedule.get(k)` holds a time no later than `t`. */
  predicate IsDue(sched: Schedule, k: Key, t: real) {
    k in sched && sched[k].Some? && sched[k].value <= t
  }

  /** The keys of `ks` that are due at `t`, in the order of `ks`. */
  function DueKeys(sched: Schedule, ks: seq<Key>, t: real): (r: seq<Key>)
    ensures forall k :: k in r ==> k in ks && IsDue(sched, k, t)
    ensures forall k :: k in ks && IsDue(sched, k, t) ==> k in r
    decreases |ks|
  {
    if ks == [] then []
    else (if IsDue(sched, ks[0], t) then [ks[0]] else []) + DueKeys(sched, ks[1..], t)
  }

  /** Re-arming a key leaves the verdict on every other key alone. */
  lemma {:induction false} DueKeysElsewhere(sched: Schedule, k: Key, v: Option<real>, ks: seq<Key>, t: real)
    requires k in sched && k !in ks
    ensures DueKeys(sched[k := v], ks, t) == DueKeys(sched, ks, t)
    decreases |ks|
  {
    if ks != [] {
      assert IsDue(sched[k := v], ks[0], t) == IsDue(sched, ks[0], t);
      DueKeysElsewhere(sched, k, v, ks[1..], t);
    }
  }

  /** The schedule, last key and presses after the firing loop has visited some keys. */
  datatype Walked = Walked(schedule: Schedule, lastAction: string, fired: seq<Key>)

  /**
   * The firing loop of one poll tick over `ks`: a key whose entry is a time
   * no later than the snapshot `t` is pressed, becomes the last action and
   * is re-armed; any other key is skipped.
   */
  function Walk(conf: Config, t: real, ks: seq<Key>, draws: seq<Draw>, sched: Schedule, last: string): Walked
    requires Drawable(conf, ks, draws)
    decreases |ks|
  {
    if ks == [] then Walked(sched, last, [])
    else
      DrawableTail(conf, ks, draws);
      var k := ks[0];
      var due := if k in sched then sched[k] else None;
      if due.Some? && t >= due.value then
        var w := Walk(conf, t, ks[1..], draws[1..], sched[k := Arm(conf.Of(k), draws[0])], k);
        w.(fired := [k] + w.fired)
      else
        Walk(conf, t, ks[1..], draws[1..], sched, last)
  }

  /** The firing loop changes no key outside `ks` or not due, and adds or removes none. */
  lemma {:induction false} WalkFrame(conf: Config, t: real, ks: seq<Key>, draws: seq<Draw>, sched: Schedule, last: string)
    requires Drawable(conf, ks, draws) && Distinct(ks)
    ensures Walk(conf, t, ks, draws, sched, last).schedule.Keys == sched.Keys
    ensures forall k :: k in sched && (k !in ks || !IsDue(sched, k, t)) ==>
      Walk(conf, t, ks, draws, sched, last).schedule[k] == sched[k]
    decreases |ks|
  {
    if ks != [] {
      DrawableTail(conf, ks, draws);
      assert Distinct(ks[1..]);
      var k := ks[0];
      if IsDue(sched, k, t) {
        var next := sched[k := Arm(conf.Of(k), draws[0])];
        WalkFrame(conf, t, ks[1..], draws[1..], next, k);
        forall j | j in sched && j != k ensures IsDue(next, j, t) == IsDue(sched, j, t) {
        }
      } else {
        WalkFrame(conf, t, ks[1..], draws[1..], sched, last);
      }
    }
  }

  /** The firing loop presses exactly the due keys of `ks`, in order. */
  lemma {:induction false} WalkFired(conf: Config, t: real, ks: seq<Key>, draws: seq<Draw>, sched: Schedule, last: string)
    requires Drawable(conf, ks, draws) && Distinct(ks)
    ensures Walk(conf, t, ks, draws, sched, last).fired == DueKeys(sched, ks, t)
    decreases |ks|
  {
    if ks != [] {
      DrawableTail(conf, ks, draws);
      assert Distinct(ks[1..]);
      var k := ks[0];
      assert k !in ks[1..];
      if IsDue(sched, k, t) {
        var v := Arm(conf.Of(k), draws[0]);
        WalkFired(conf, t, ks[1..], draws[1..], sched[k := v], k);
        DueKeysElsewhere(sched, k, v, ks[1..], t);
        assert Walk(conf, t, ks, draws, sched, last).fired == [k] + Walk(conf, t, ks[1..], draws[1..], sched[k := v], k).fired;
        assert DueKeys(sched, ks, t) == [k] + DueKeys(sched, ks[1..], t);
      } else {
        WalkFired(conf, t, ks[1..], draws[1..], sched, last);
        assert DueKeys(sched, ks, t) == DueKeys(sched, ks[1..], t);
      }
    }
  }

  /** The last key the firing loop presses becomes the last action; with no press it stays. */
  lemma {:induction false} WalkLast(conf: Config, t: real, ks: seq<Key>, draws: seq<Draw>, sched: Schedule, last: string)
    requires Drawable(conf, ks, draws)
    ensures var w := Walk(conf, t, ks, draws, sched, last);
      w.lastAction == if w.fired == [] then last else w.fired[|w.fired| - 1]
    decreases |ks|
  {
    if ks != [] {
      DrawableTail(conf, ks, draws);
      var k := ks[0];
      if IsDue(sched, k, t) {
        WalkLast(conf, t, ks[1..], draws[1..], sched[k := Arm(conf.Of(k), draws[0])], k);
      } else {
        WalkLast(conf, t, ks[1..], draws[1..], sched, last);
      }
    }
  }

  /** Every due key of `ks` is re-armed from its own draw. */
  lemma {:induction false} WalkRearmed(conf: Config, t: real, ks: seq<Key>, draws: seq<Draw>, sched: Schedule, last: string)
    requires Drawable(conf, ks, draws) && Distinct(ks)
    ensures forall i :: 0 <= i < |ks| && IsDue(sched, ks[i], t) ==>
      ks[i] in Walk(conf, t, ks, draws, sched, last).schedule &&
      Walk(conf, t, ks, draws, sched, last).schedule[ks[i]] == Arm(conf.Of(ks[i]), draws[i])
    decreases |ks|
  {
    WalkFrame(conf, t, ks, draws, sched, last);
    if ks != [] {
      DrawableTail(conf, ks, draws);
      assert Distinct(ks[1..]);
      var k := ks[0];
      assert k !in ks[1..];
      forall i | 1 <= i < |ks| ensures ks[1..][i - 1] == ks[i] && draws[1..][i - 1] == draws[i] {
      }
      if IsDue(sched, k, t) {
        var next := sched[k := Arm(conf.Of(k), draws[0])];
        WalkRearmed(conf, t, ks[1..], draws[1..], next, k);
        WalkFrame(conf, t, ks[1..], draws[1..], next, k);
        forall j | j in sched && j != k ensures IsDue(next, j, t) == IsDue(sched, j, t) {
        }
      } else {
        WalkRearmed(conf, t, ks[1..], draws[1..], sched, last);
      }
    }
  }

  /** The outcome of one poll tick: the new state and the keys pressed, in press order. */
  datatype Ticked = Ticked(state: State, fired: seq<Key>)

  /**
   * Draws for one tick: one per key of `ALL_KEYS`, each taken from the
   * monotonic clock no earlier than the tick's snapshot `t`.
   */
  predicate TickDraws(conf: Config, t: real, draws: seq<Draw>) {
    Drawable(conf, conf.keys, draws) && forall i :: 0 <= i < |draws| ==> t <= draws[i].at
  }

  /**
   * One poll tick with snapshot `t`: exactly the due keys fire, in
   * `ALL_KEYS` order; each is re-armed; every other entry is left as it
   * was; the last key fired becomes the last action.
   */
  function Tick(s: State, conf: Config, t: real, draws: seq<Draw>): (r: Ticked)
    requires conf.Valid() && TickDraws(conf, t, draws)
    ensures r.state.schedule.Keys == s.schedule.Keys
    ensures r.fired == DueKeys(s.schedule, conf.keys, t)
    ensures forall k :: k in s.schedule && (k !in conf.keys || !IsDue(s.schedule, k, t)) ==>
      r.state.schedule[k] == s.schedule[k]
    ensures forall i :: 0 <= i < |conf.keys| && IsDue(s.schedule, conf.keys[i], t) ==>
      r.state.schedule[conf.keys[i]] == Arm(conf.Of(conf.keys[i]), draws[i])
    ensures r.state.lastAction == if r.fired == [] then s.lastAction else r.fired[|r.fired| - 1]
    ensures r.state.running == s.running && r.state.connected == s.connected && r.state.status == s.status
  {
    WalkFrame(conf, t, conf.keys, draws, s.schedule, s.lastAction);
    WalkFired(conf, t, conf.keys, draws, s.schedule, s.lastAction);
    WalkLast(conf, t, conf.keys, draws, s.schedule, s.lastAction);
    WalkRearmed(conf, t, conf.keys, draws, s.schedule, s.lastAction);
    var w := Walk(conf, t, conf.keys, draws, s.schedule, s.lastAction);
    Ticked(s.(schedule := w.schedule, lastAction := w.lastAction), w.fired)
  }

  /** The frames written during a tick decode to the due keys, in `ALL_KEYS` order. */
  lemma TickWire(s: State, conf: Config, t: real, draws: seq<Draw>)
    requires conf.Valid() && TickDraws(conf, t, draws)
    requires forall i :: 0 <= i < |conf.keys| ==> '\n' !in conf.keys[i]
    ensures Lines(Wire(Tick(s, conf, t, draws).fired)) == DueKeys(s.schedule, conf.keys, t)
  {
    var fired := Tick(s, conf, t, draws).fired;
    forall i | 0 <= i < |fired| ensures '\n' !in fired[i] {
      assert fired[i] in fired;
      var j :| 0 <= j < |conf.keys| && conf.keys[j] == fired[i];
    }
    WireDecodes(fired);
  }

  /** The console lines a tick prints: `Acción <key>` exactly for the due keys in `PRINT_KEYS`. */
  lemma TickAnnounces(s: State, conf: Config, t: real, draws: seq<Draw>, k: Key)
    requires conf.Valid() && TickDraws(conf, t, draws)
    ensures "Acci\U{F3}n " + k in Log(Tick(s, conf, t, draws).fired) <==>
      k in conf.keys && IsDue(s.schedule, k, t) && k in PrintKeys
  {
    LogAnnounces(Tick(s, conf, t, draws).fired, k);
  }

  /** After a tick no entry is at or before the snapshot: every armed key is due strictly later. */
  lemma NothingOverdueAfterTick(s: State, conf: Config, t: real, draws: seq<Draw>)
    requires conf.Valid() && s.schedule.Keys <= conf.KeySet() && TickDraws(conf, t, draws)
    ensures forall k :: k in Tick(s, conf, t, draws).state.schedule ==>
      Tick(s, conf, t, draws).state.schedule[k].None? || Tick(s, conf, t, draws).state.schedule[k].value > t
  {
    var r := Tick(s, conf, t, draws).state.schedule;
    forall k | k in r ensures r[k].None? || r[k].value > t {
      var i :| 0 <= i < |conf.keys| && conf.keys[i] == k;
      if IsDue(s.schedule, k, t) {
        assert r[k] == Arm(conf.Of(k), draws[i]);
      }
    }
  }

  /**
   * What arming establishes and every tick keeps: exactly one entry per key
   * of `ALL_KEYS`, and `None` for every key whose configuration can never
   * yield a positive interval.
   */
  predicate Inv(conf: Config, sched: Schedule) {
    && sched.Keys == conf.KeySet()
    && forall k :: k in sched && Disarmed(conf.Of(k)) ==> sched[k].None?
  }

  lemma ConnectEstablishesInv(s: State, conf: Config, draws: seq<Draw>)
    requires conf.Valid() && s.schedule.Keys <= conf.KeySet() && Drawable(conf, conf.keys, draws)
    ensures Inv(conf, Connect(s, conf, draws).schedule)
  {
    var r := Connect(s, conf, draws).schedule;
    forall k | k in r && Disarmed(conf.Of(k)) ensures r[k].None? {
      var i :| 0 <= i < |conf.keys| && conf.keys[i] == k;
      DisarmedIffNeverPositive(conf.Of(k));
    }
  }

  /** A tick keeps the invariant, and every key it fires can be armed. */
  lemma TickKeepsInv(s: State, conf: Config, t: real, draws: seq<Draw>)
    requires conf.Valid() && Inv(conf, s.schedule) && TickDraws(conf, t, draws)
    ensures Inv(conf, Tick(s, conf, t, draws).state.schedule)
    ensures forall k :: k in Tick(s, conf, t, draws).fired ==> !Disarmed(conf.Of(k))
  {
    var r := Tick(s, conf, t, draws).state.schedule;
    forall k | k in r && Disarmed(conf.Of(k)) ensures r[k].None? {
      assert !IsDue(s.schedule, k, t);
    }
  }

  /** One poll of the main loop: the snapshot time and the draws its re-arms consume. */
  datatype Poll = Poll(t: real, draws: seq<Draw>)

  predicate Polls(conf: Config, polls: seq<Poll>) {
    forall j :: 0 <= j < |polls| ==> TickDraws(conf, polls[j].t, polls[j].draws)
  }

  /** The state after a run of ticks, and every key pressed during it, in press order. */
  datatype Ran = Ran(state: State, fired: seq<Key>)

  /**
   * The main loop: one tick per poll for as long as `running` holds. Ticks
   * never touch `running` or the connection, so a run stopped beforehand
   * presses nothing, and every press is of a key of `ALL_KEYS`.
   */
  function Run(s: State, conf: Config, polls: seq<Poll>): (r: Ran)
    requires conf.Valid() && Polls(conf, polls)
    ensures r.state.running == s.running && r.state.connected == s.connected && r.state.status == s.status
    ensures r.state.schedule.Keys == s.schedule.Keys
    ensures !s.running ==> r == Ran(s, [])
    ensures forall k :: k in r.fired ==> k in conf.keys
    decreases |polls|
  {
    if polls == [] || !s.running then Ran(s, [])
    else
      var r := Tick(s, conf, polls[0].t, polls[0].draws);
      assert Polls(conf, polls[1..]) by {
        forall j | 0 <= j < |polls| - 1 ensures TickDraws(conf, polls[1..][j].t, polls[1..][j].draws) {
          assert polls[1..][j] == polls[j + 1];
        }
      }
      var rest := Run(r.state, conf, polls[1..]);
      Ran(rest.state, r.fired + rest.fired)
  }

  /**
   * Over any run of ticks from a state satisfying the invariant, no key
   * whose configuration is disabled (or can only yield non-positive
   * intervals) is ever pressed, and the invariant still holds at the end.
   */
  lemma {:induction false} DisarmedNeverFires(s: State, conf: Config, polls: seq<Poll>)
    requires conf.Valid() && Inv(conf, s.schedule) && Polls(conf, polls)
    ensures Inv(conf, Run(s, conf, polls).state.schedule)
    ensures forall k :: k in Run(s, conf, polls).fired ==> !Disarmed(conf.Of(k))
    decreases |polls|
  {
    if polls != [] && s.running {
      var r := Tick(s, conf, polls[0].t, polls[0].draws);
      TickKeepsInv(s, conf, polls[0].t, polls[0].draws);
      DisarmedNeverFires(r.state, conf, polls[1..]);
    }
  }

  /** Every key whose every interval is positive has a due time. */
  predicate SteadyArmed(conf: Config, sched: Schedule) {
    forall k :: k in sched && Steady(conf.Of(k)) ==> sched[k].Some?
  }

  lemma ConnectArmsSteady(s: State, conf: Config, draws: seq<Draw>)
    requires conf.Valid() && s.schedule.Keys <= conf.KeySet() && Drawable(conf, conf.keys, draws)
    ensures SteadyArmed(conf, Connect(s, conf, draws).schedule)
  {
    var r := Connect(s, conf, draws).schedule;
    forall k | k in r && Steady(conf.Of(k)) ensures r[k].Some? {
      var i :| 0 <= i < |conf.keys| && conf.keys[i] == k;
      SteadyIffAlwaysPositive(conf.Of(k));
    }
  }

  /** A key armed with a steady configuration stays armed through any run of ticks. */
  lemma {:induction false} SteadyStaysArmed(s: State, conf: Config, polls: seq<Poll>)
    requires conf.Valid() && s.schedule.Keys <= conf.KeySet() && SteadyArmed(conf, s.schedule) && Polls(conf, polls)
    ensures SteadyArmed(conf, Run(s, conf, polls).state.schedule)
    decreases |polls|
  {
    if polls != [] && s.running {
      var t, draws := polls[0].t, polls[0].draws;
      var r := Tick(s, conf, t, draws);
      forall k | k in r.state.schedule && Steady(conf.Of(k)) ensures r.state.schedule[k].Some? {
        var i :| 0 <= i < |conf.keys| && conf.keys[i] == k;
        if IsDue(s.schedule, k, t) {
          SteadyIffAlwaysPositive(conf.Of(k));
          assert r.state.schedule[k] == Arm(conf.Of(k), draws[i]);
        }
      }
      SteadyStaysArmed(r.state, conf, polls[1..]);
    }
  }

  /**
   * The "Cooldown (s)" cell of a key at refresh time `t`: `-` when the key
   * is disabled or has no due time, otherwise the whole seconds left,
   * shown as `0` once the due time is less than a second away or past.
   */
  function Cooldown(c: Cfg, due: Option<real>, t: real): (text: string)
    ensures text == "-" <==> !Enabled(c) || due.None?
    ensures text != "-" ==> ParseNat(text).Some?
    ensures text != "-" ==>
      var n := ParseNat(text).value as real;
      var left := due.value - t;
      n <= (if left > 0.0 then left else 0.0) < n + 1.0
  {
    if !Enabled(c) || due.None? then "-"
    else
      var remaining := Trunc(due.value - t);
      var shown: nat := if remaining <= 0 then 0 else remaining;
      NatTextRoundTrip(shown);
      NatText(shown)
  }

  /** Between two refreshes the cooldown of a key can only count down. */
  lemma CooldownCountsDown(c: Cfg, due: real, t1: real, t2: real)
    requires Enabled(c) && t1 <= t2
    ensures ParseNat(Cooldown(c, Some(due), t2)).value <= ParseNat(Cooldown(c, Some(due), t1)).value
  {
  }

  /** One row of the status table, without its wall-clock "last press" column. */
  datatype Row = Row(key: Key, enabled: string, interval: string, cooldown: string)

  /** `refresh`: one row per key of `ALL_KEYS`, from a snapshot of the schedule taken at `t`. */
  function Rows(s: State, conf: Config, t: real): (rows: seq<Row>)
    requires conf.Valid() && ValidConfig(conf.intervals)
    ensures |rows| == |conf.keys|
  {
    seq(|conf.keys|, i requires 0 <= i < |conf.keys| =>
      var k := conf.keys[i];
      FindWellFormed(conf.intervals, k);
      Row(k, EnabledText(conf.Of(k)), FormatInterval(conf.Of(k)),
        Cooldown(conf.Of(k), if k in s.schedule then s.schedule[k] else None, t)))
  }

  /**
   * Each row reads back as its key's configuration: the "Activa" cell says
   * whether the key is enabled, the interval cell parses to the configured
   * value (`Off` for a false one), and the cooldown is `-` exactly when the
   * key is disabled or has no due time.
   */
  lemma RowsShowConfig(s: State, conf: Config, t: real, i: nat)
    requires conf.Valid() && ValidConfig(conf.intervals) && i < |conf.keys|
    ensures var row, k := Rows(s, conf, t)[i], conf.keys[i];
      && row.key == k
      && (row.enabled == "S\U{ED}" <==> Enabled(conf.Of(k)))
      && ParseInterval(row.interval) == Some(Normal(conf.Of(k)))
      && (row.cooldown == "-" <==> !Enabled(conf.Of(k)) || k !in s.schedule || s.schedule[k].None?)
  {
    var k := conf.keys[i];
    FindWellFormed(conf.intervals, k);
    FormatIntervalRoundTrip(conf.Of(k));
  }

  /** The Stop/Start button: flips `running` and nothing else. */
  function ToggleRun(s: State): (r: State)
    ensures r.running == !s.running
    ensures r.(running := s.running) == s
  {
    s.(running := !s.running)
  }

  function RunButtonText(s: State): string {
    if s.running then "Stop" else "Start"
  }

  /** Pressing the button twice restores the state and the button text. */
  lemma ToggleTwice(s: State)
    ensures ToggleRun(ToggleRun(s)) == s
    ensures RunButtonText(ToggleRun(ToggleRun(s))) == RunButtonText(s)
    ensures RunButtonText(ToggleRun(s)) != RunButtonText(s)
  {
  }

  /** Closing the window: `running` becomes false and nothing else changes. */
  function Close(s: State): (r: State)
    ensures !r.running && r.(running := s.running) == s
  {
    s.(running := false)
  }

  /**
   * A serial error: the state becomes disconnected and reports the error;
   * `running` is untouched, so the loop retries the connection.
   */
  function SerialError(s: State, e: string): (r: State)
    ensures !r.connected && r.running == s.running
    ensures r.schedule == s.schedule && r.lastAction == s.lastAction
  {
    s.(connected := false, status := "Serial error: " + e + ". Reintentando...")
  }

  /** Any other error: disconnected, and `running` is cleared, which ends the loop for good. */
  function UnexpectedError(s: State, e: string): (r: State)
    ensures !r.connected && !r.running
    ensures r.schedule == s.schedule && r.lastAction == s.lastAction
  {
    s.(connected := false, running := false, status := "Error inesperado: " + e + ". Parando.")
  }
}
