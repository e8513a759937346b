/** Python's `None`-or-value, as a datatype. */
module Optional {

  datatype Option<+T> = None | Some(value: T) {

    /** The value, or `default` when there is none (`d.get(k, default)`). */
    function GetOr(default: T): T {
      match this
      case Some(v) => v
      case None => default
    }
  }

  /** The values present in `s`, in order: the shape of a loop that keeps some items and drops the rest. */
  function Somes<T>(s: seq<Option<T>>): (r: seq<T>)
    ensures |r| <= |s|
    decreases |s|
  {
    if s == [] then []
    else (if s[0].Some? then [s[0].value] else []) + Somes(s[1..])
  }

  /** Every value of `s` is kept. */
  lemma {:induction false} SomesComplete<T>(s: seq<Option<T>>)
    ensures forall i :: 0 <= i < |s| && s[i].Some? ==> s[i].value in Somes(s)
    decreases |s|
  {
    if s != [] {
      SomesComplete(s[1..]);
      forall i | 1 <= i < |s| && s[i].Some? ensures s[i].value in Somes(s) {
        assert s[1..][i - 1] == s[i];
      }
    }
  }

  /** Every kept value comes from `s`. */
  lemma {:induction false} SomesSound<T>(s: seq<Option<T>>)
    ensures forall j :: 0 <= j < |Somes(s)| ==> Some(Somes(s)[j]) in s
    decreases |s|
  {
    if s != [] {
      SomesSound(s[1..]);
      var r, rest := Somes(s), Somes(s[1..]);
      var off := if s[0].Some? then 1 else 0;
      assert |r| == |rest| + off && forall j :: off <= j < |r| ==> r[j] == rest[j - off];
      forall j | 0 <= j < |r| ensures Some(r[j]) in s {
        if j >= off {
          assert Some(rest[j - off]) in s[1..];
        }
      }
    }
  }

  /** Keeping the values of a longer sequence appends to what was kept before: order is preserved. */
  lemma {:induction false} SomesAppend<T>(s: seq<Option<T>>, o: Option<T>)
    ensures Somes(s + [o]) == Somes(s) + (if o.Some? then [o.value] else [])
    decreases |s|
  {
    var last := if o.Some? then [o.value] else [];
    if s == [] {
      assert s + [o] == [o];
      assert Somes([o]) == last + Somes([]);
    } else {
      var head := if s[0].Some? then [s[0].value] else [];
      assert (s + [o])[0] == s[0];
      assert (s + [o])[1..] == s[1..] + [o];
      SomesAppend(s[1..], o);
      calc {
        Somes(s + [o]);
        head + Somes(s[1..] + [o]);
        head + (Somes(s[1..]) + last);
        (head + Somes(s[1..])) + last;
      }
    }
  }

  /** When no two values of `s` share a key, no two kept values do either. */
  lemma {:induction false} SomesDistinctBy<T, K>(s: seq<Option<T>>, key: T -> K)
    requires forall i, j :: 0 <= i < j < |s| && s[i].Some? && s[j].Some? ==> key(s[i].value) != key(s[j].value)
    ensures forall j1, j2 :: 0 <= j1 < j2 < |Somes(s)| ==> key(Somes(s)[j1]) != key(Somes(s)[j2])
    decreases |s|
  {
    if s != [] {
      SomesDistinctBy(s[1..], key);
      SomesSound(s[1..]);
      var r, rest := Somes(s), Somes(s[1..]);
      if s[0].Some? {
        assert r == [s[0].value] + rest;
        forall j | 0 <= j < |rest| ensures key(rest[j]) != key(s[0].value) {
          var i :| 0 <= i < |s| - 1 && s[1..][i] == Some(rest[j]);
          assert s[i + 1] == Some(rest[j]);
        }
      }
    }
  }
}
