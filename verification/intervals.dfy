/**
 * The per-key interval configuration (`INTERVAL`) and what both variants of
 * the program derive from one entry of it: Python truthiness ("is the key
 * enabled"), the next delay (`next_interval`) and the interval column text
 * (`format_interval`).
 */
module Intervals {
  import opened Optional
  import opened Text
  import opened Numbers

  /** A key identifier, as written on the wire (`"F1"` … `"F12"`). */
  type Key = string

  /** One configuration value: `0`/`None`, a number of seconds, or a `(lo, hi)` tuple. */
  datatype Cfg = Off | Fixed(v: Num) | Span(lo: Num, hi: Num)
  {
    predicate WellFormed() {
      match this
      case Off => true
      case Fixed(v) => v.WellFormed()
      case Span(lo, hi) => lo.WellFormed() && hi.WellFormed()
    }
  }

  /** One `key: value` item of the `INTERVAL` dict. */
  datatype Setting = Setting(key: Key, cfg: Cfg)

  /**
   * A dict, so no key twice, whose literals all print in the short form
   * `FormatInterval` models. Scheduling needs only `DistinctKeys`.
   */
  predicate ValidConfig(cfgs: seq<Setting>) {
    && DistinctKeys(cfgs)
    && forall i :: 0 <= i < |cfgs| ==> cfgs[i].cfg.WellFormed()
  }

  predicate DistinctKeys(cfgs: seq<Setting>) {
    forall i, j :: 0 <= i < j < |cfgs| ==> cfgs[i].key != cfgs[j].key
  }

  predicate HasKey(cfgs: seq<Setting>, k: Key) {
    exists i :: 0 <= i < |cfgs| && cfgs[i].key == k
  }

  /** `INTERVAL[key]`, or nothing when the key is absent. */
  function Find(cfgs: seq<Setting>, k: Key): (r: Option<Cfg>)
    ensures r.None? <==> !HasKey(cfgs, k)
    ensures r.Some? ==> exists i :: 0 <= i < |cfgs| && cfgs[i] == Setting(k, r.value)
  {
    if cfgs == [] then None
    else if cfgs[0].key == k then Some(cfgs[0].cfg)
    else
      var r := Find(cfgs[1..], k);
      assert HasKey(cfgs[1..], k) ==> HasKey(cfgs, k) by {
        if HasKey(cfgs[1..], k) {
          var i :| 0 <= i < |cfgs| - 1 && cfgs[1..][i].key == k;
          assert cfgs[i + 1].key == k;
        }
      }
      assert HasKey(cfgs, k) ==> HasKey(cfgs[1..], k) by {
        if HasKey(cfgs, k) {
          var i :| 0 <= i < |cfgs| && cfgs[i].key == k;
          assert cfgs[1..][i - 1].key == k;
        }
      }
      assert r.Some? ==> exists i :: 0 <= i < |cfgs| && cfgs[i] == Setting(k, r.value) by {
        if r.Some? {
          var i :| 0 <= i < |cfgs| - 1 && cfgs[1..][i] == Setting(k, r.value);
          assert cfgs[i + 1] == Setting(k, r.value);
        }
      }
      r
  }

  /** With distinct keys, `Find` returns the value stored under the key. */
  lemma {:induction false} FindAt(cfgs: seq<Setting>, i: nat)
    requires i < |cfgs| && DistinctKeys(cfgs)
    ensures Find(cfgs, cfgs[i].key) == Some(cfgs[i].cfg)
  {
    if i > 0 {
      assert cfgs[0].key != cfgs[i].key;
      FindAt(cfgs[1..], i - 1);
    }
  }

  /** `INTERVAL.get(key, 0)`: an absent key reads as `0`. */
  function CfgOf(cfgs: seq<Setting>, k: Key): (c: Cfg)
    ensures !HasKey(cfgs, k) ==> c == Fixed(Int(0))
    ensures HasKey(cfgs, k) ==> exists i :: 0 <= i < |cfgs| && cfgs[i] == Setting(k, c)
    ensures DistinctKeys(cfgs) ==> forall i :: 0 <= i < |cfgs| && cfgs[i].key == k ==> c == cfgs[i].cfg
  {
    assert DistinctKeys(cfgs) ==> forall i :: 0 <= i < |cfgs| && cfgs[i].key == k ==> Find(cfgs, k) == Some(cfgs[i].cfg) by {
      if DistinctKeys(cfgs) {
        forall i | 0 <= i < |cfgs| && cfgs[i].key == k ensures Find(cfgs, k) == Some(cfgs[i].cfg) {
          FindAt(cfgs, i);
        }
      }
    }
    Find(cfgs, k).GetOr(Fixed(Int(0)))
  }

  /** In a valid table, `INTERVAL.get(key, 0)` is a well-formed value. */
  lemma FindWellFormed(cfgs: seq<Setting>, k: Key)
    requires ValidConfig(cfgs)
    ensures CfgOf(cfgs, k).WellFormed()
  {
    if HasKey(cfgs, k) {
      var i :| 0 <= i < |cfgs| && cfgs[i] == Setting(k, Find(cfgs, k).value);
    }
  }

  /** Python truthiness: `None`, `0` and `0.0` are false, every tuple is true. */
  predicate Enabled(c: Cfg) {
    match c
    case Off => false
    case Fixed(v) => !(v.Int? && v.i == 0) && !(v.Float? && v.whole == 0 && v.frac == 0)
    case Span(_, _) => true
  }

  function Min(x: real, y: real): real { if x <= y then x else y }
  function Max(x: real, y: real): real { if x <= y then y else x }

  /**
   * A sample `random.uniform(lo, hi)` can return for this configuration:
   * a value between the two bounds, whichever is larger. Other
   * configurations draw no sample, so every value fits them.
   */
  predicate Fits(c: Cfg, d: real) {
    c.Span? ==> Min(c.lo.Value(), c.hi.Value()) <= d <= Max(c.lo.Value(), c.hi.Value())
  }

  /**
   * What arming a key consumes: the clock reading `now()` taken when the
   * new due time is computed, and the sample the random source returned.
   */
  datatype Draw = Draw(at: real, sample: real)

  /** `next_interval(value)`, with the random draw supplied as `d`. */
  function NextInterval(c: Cfg, d: real): (r: real)
    requires Fits(c, d)
    ensures !Enabled(c) ==> r == 0.0
    ensures Enabled(c) && c.Fixed? ==> r == c.v.Value()
    ensures c.Span? ==> Min(c.lo.Value(), c.hi.Value()) <= r <= Max(c.lo.Value(), c.hi.Value())
  {
    if !Enabled(c) then 0.0
    else match c
      case Off => 0.0
      case Fixed(v) => v.Value()
      case Span(_, _) => d
  }

  /** No sample ever yields a positive delay: the key is never armed. */
  predicate Disarmed(c: Cfg) {
    match c
    case Off => true
    case Fixed(v) => v.Value() <= 0.0
    case Span(lo, hi) => Max(lo.Value(), hi.Value()) <= 0.0
  }

  /** Every sample yields a positive delay: once armed, the key stays armed. */
  predicate Steady(c: Cfg) {
    match c
    case Off => false
    case Fixed(v) => v.Value() > 0.0
    case Span(lo, hi) => Min(lo.Value(), hi.Value()) > 0.0
  }

  lemma ZeroValue(v: Num)
    ensures v.Value() == 0.0 <==> !Enabled(Fixed(v))
  {
    if v.Float? {
      var x := v.whole as real + v.frac as real / Pow10(v.e) as real;
      if v.whole > 0 || v.frac > 0 {
        assert x > 0.0;
      }
    }
  }

  /** `Disarmed` holds exactly when no draw makes `next_interval` positive. */
  lemma DisarmedIffNeverPositive(c: Cfg)
    ensures Disarmed(c) <==> forall d :: Fits(c, d) ==> NextInterval(c, d) <= 0.0
  {
    if c.Fixed? {
      ZeroValue(c.v);
    }
    if !Disarmed(c) {
      var d := if c.Span? then Max(c.lo.Value(), c.hi.Value()) else 0.0;
      assert Fits(c, d) && NextInterval(c, d) > 0.0;
    }
  }

  /** `Steady` holds exactly when every draw makes `next_interval` positive. */
  lemma SteadyIffAlwaysPositive(c: Cfg)
    ensures Steady(c) <==> forall d :: Fits(c, d) ==> NextInterval(c, d) > 0.0
  {
    if c.Fixed? {
      ZeroValue(c.v);
      assert Fits(c, 0.0);
    }
    if !Steady(c) && c.Span? {
      var d := Min(c.lo.Value(), c.hi.Value());
      assert Fits(c, d) && NextInterval(c, d) <= 0.0;
    }
    if c.Off? {
      assert Fits(c, 0.0);
    }
  }

  /** The en dash `format_interval` puts between the bounds of a range. */
  const Dash: char := '\U{2013}'

  /** `format_interval(cfg)`: the "Intervalo" column of the status table. */
  function FormatInterval(c: Cfg): string
    requires c.WellFormed()
  {
    if !Enabled(c) then "-"
    else match c
      case Off => "-"
      case Fixed(v) => NumText(v) + "s"
      case Span(lo, hi) => NumText(lo) + [Dash] + NumText(hi) + "s"
  }

  /** The configuration with every false value collapsed to `Off`. */
  function Normal(c: Cfg): Cfg {
    if Enabled(c) then c else Off
  }

  /** Reads an interval text back into the configuration it shows. */
  function ParseInterval(s: string): Option<Cfg> {
    if s == "-" then Some(Off)
    else if |s| < 2 || s[|s| - 1] != 's' then None
    else
      var body := s[..|s| - 1];
      match IndexOf(body, Dash)
      case None =>
        (match ParseNum(body)
         case None => None
         case Some(v) => Some(Fixed(v)))
      case Some(p) =>
        (match (ParseNum(body[..p]), ParseNum(body[p + 1..]))
         case (Some(lo), Some(hi)) => Some(Span(lo, hi))
         case _ => None)
  }

  lemma NoDash(n: Num)
    requires n.WellFormed()
    ensures Dash !in NumText(n)
  {
    var s := NumText(n);
    forall j | 0 <= j < |s| ensures s[j] != Dash {
      assert NumChar(s[j]);
    }
  }

  /**
   * The interval text determines the configuration: reading back what
   * `format_interval` printed gives the configuration itself, or `Off` for
   * every false one.
   */
  lemma FormatIntervalRoundTrip(c: Cfg)
    requires c.WellFormed()
    ensures ParseInterval(FormatInterval(c)) == Some(Normal(c))
  {
    if Enabled(c) {
      match c
      case Fixed(v) => FixedRoundTrip(v);
      case Span(lo, hi) => SpanRoundTrip(lo, hi);
    }
  }

  lemma FixedRoundTrip(v: Num)
    requires v.WellFormed() && Enabled(Fixed(v))
    ensures ParseInterval(NumText(v) + "s") == Some(Fixed(v))
  {
    var s := NumText(v) + "s";
    assert s[..|s| - 1] == NumText(v);
    NoDash(v);
    NumTextRoundTrip(v);
  }

  lemma SpanRoundTrip(lo: Num, hi: Num)
    requires lo.WellFormed() && hi.WellFormed()
    ensures ParseInterval(NumText(lo) + [Dash] + NumText(hi) + "s") == Some(Span(lo, hi))
  {
    var a, b := NumText(lo), NumText(hi);
    var s := a + [Dash] + b + "s";
    var body := s[..|s| - 1];
    assert body == a + [Dash] + b;
    NoDash(lo);
    IndexOfAfter(a, Dash, b);
    assert body[..|a|] == a;
    assert body[|a| + 1..] == b;
    NumTextRoundTrip(lo);
    NumTextRoundTrip(hi);
  }

  /** Two enabled keys with the same interval text have the same configuration. */
  lemma FormatIntervalInjective(c1: Cfg, c2: Cfg)
    requires c1.WellFormed() && c2.WellFormed() && Enabled(c1) && Enabled(c2)
    requires FormatInterval(c1) == FormatInterval(c2)
    ensures c1 == c2
  {
    FormatIntervalRoundTrip(c1);
    FormatIntervalRoundTrip(c2);
  }

  /** The "Activa" column: `"Sí"` for a true configuration, `"No"` otherwise. */
  function EnabledText(c: Cfg): (s: string)
    ensures s == "S\U{ED}" <==> Enabled(c)
    ensures s == "No" <==> !Enabled(c)
  {
    if Enabled(c) then "S\U{ED}" else "No"
  }

  /** The `INTERVAL` table both programs ship with. */
  const Shipped: seq<Setting> := [
    Setting("F1", Fixed(Int(0))),
    Setting("F2", Fixed(Int(0))),
    Setting("F3", Span(Float(false, 0, 8, 1), Float(false, 2, 0, 1))),
    Setting("F4", Span(Float(false, 0, 8, 1), Float(false, 2, 0, 1))),
    Setting("F5", Fixed(Int(0))),
    Setting("F6", Fixed(Int(0))),
    Setting("F7", Span(Int(15), Int(20))),
    Setting("F8", Fixed(Int(0))),
    Setting("F9", Fixed(Int(0))),
    Setting("F10", Fixed(Int(120))),
    Setting("F11", Fixed(Int(0))),
    Setting("F12", Fixed(Int(180)))
  ]

  /** `ALL_KEYS`: the twelve function keys, in order. */
  const AllKeys: seq<Key> := ["F1", "F2", "F3", "F4", "F5", "F6", "F7", "F8", "F9", "F10", "F11", "F12"]

  lemma AllKeysDistinct()
    ensures Distinct(AllKeys)
  {
    forall i, j | 0 <= i < j < |AllKeys| ensures AllKeys[i] != AllKeys[j] {
      if |AllKeys[i]| == |AllKeys[j]| {
        assert AllKeys[i][|AllKeys[i]| - 1] != AllKeys[j][|AllKeys[j]| - 1];
      }
    }
  }

  lemma ShippedKeys()
    ensures |Shipped| == |AllKeys| && forall i :: 0 <= i < |Shipped| ==> Shipped[i].key == AllKeys[i]
  {
  }

  lemma ShippedLiterals()
    ensures forall i :: 0 <= i < |Shipped| ==> Shipped[i].cfg.WellFormed()
  {
    assert Float(false, 0, 8, 1).WellFormed() && Float(false, 2, 0, 1).WellFormed();
    forall i | 0 <= i < |Shipped| ensures Shipped[i].cfg.WellFormed() {
      assert Shipped[i].cfg.Fixed? ==> Shipped[i].cfg.v.Int?;
      assert Shipped[i].cfg.Span? ==> Shipped[i].cfg.lo.Int? || Shipped[i].cfg.lo == Float(false, 0, 8, 1);
      assert Shipped[i].cfg.Span? ==> Shipped[i].cfg.hi.Int? || Shipped[i].cfg.hi == Float(false, 2, 0, 1);
    }
  }

  /** The shipped table is a valid dict over exactly `ALL_KEYS`, in that order. */
  lemma ShippedValid()
    ensures |Shipped| == |AllKeys| && forall i :: 0 <= i < |Shipped| ==> Shipped[i].key == AllKeys[i]
    ensures ValidConfig(Shipped)
  {
    ShippedKeys();
    AllKeysDistinct();
    ShippedLiterals();
  }

  /**
   * In the shipped table exactly F3, F4, F7, F10 and F12 are enabled, and
   * every enabled key is steady.
   */
  lemma ShippedEnabled()
    ensures forall i :: 0 <= i < |Shipped| ==>
      (Enabled(Shipped[i].cfg) <==> Shipped[i].key in {"F3", "F4", "F7", "F10", "F12"})
    ensures forall i :: 0 <= i < |Shipped| && Enabled(Shipped[i].cfg) ==> Steady(Shipped[i].cfg)
  {
  }

  lemma ShippedNumberTexts()
    ensures NumText(Int(15)) == "15" && NumText(Int(20)) == "20"
    ensures NumText(Int(120)) == "120" && NumText(Int(180)) == "180"
    ensures NumText(Float(false, 0, 8, 1)) == "0.8" && NumText(Float(false, 2, 0, 1)) == "2.0"
  {
    assert NatText(12) == "12";
    assert NatText(18) == "18";
    assert FixedDigits(8, 1) == "8";
    assert FixedDigits(0, 1) == "0";
  }

  /** The status table shows the shipped intervals as `0.8–2.0s`, `15–20s`, `120s` and `180s`. */
  lemma ShippedIntervalTexts()
    ensures FormatInterval(Shipped[2].cfg) == "0.8" + [Dash] + "2.0s"
    ensures FormatInterval(Shipped[6].cfg) == "15" + [Dash] + "20s"
    ensures FormatInterval(Shipped[9].cfg) == "120s"
    ensures FormatInterval(Shipped[11].cfg) == "180s"
  {
    ShippedNumberTexts();
    var r, s, f, h := Shipped[2].cfg, Shipped[6].cfg, Shipped[9].cfg, Shipped[11].cfg;
    assert r == Span(Float(false, 0, 8, 1), Float(false, 2, 0, 1)) && s == Span(Int(15), Int(20));
    assert f == Fixed(Int(120)) && h == Fixed(Int(180));
  }
}
