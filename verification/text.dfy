/**
 * String helpers shared by the wire protocol and the console output:
 * searching for a character, cutting a byte stream into newline-terminated
 * lines, and joining / splitting the `" | "`-separated counter line.
 */
module Text {
  import opened Optional

  predicate Distinct<T(==)>(s: seq<T>) {
    forall i, j :: 0 <= i < j < |s| ==> s[i] != s[j]
  }

  /** Position of the first `c` in `s`, if any. */
  function IndexOf(s: string, c: char): (r: Option<nat>)
    ensures r.None? <==> c !in s
    ensures r.Some? ==> r.value < |s| && s[r.value] == c && c !in s[..r.value]
  {
    if s == [] then None
    else if s[0] == c then Some(0)
    else match IndexOf(s[1..], c)
      case None => None
      case Some(p) => Some(p + 1)
  }

  /** The first `c` of `a + [c] + b` is the one right after `a`. */
  lemma IndexOfAfter(a: string, c: char, b: string)
    requires c !in a
    ensures IndexOf(a + [c] + b, c) == Some(|a|)
  {
    var s := a + [c] + b;
    assert s[|a|] == c;
    assert s[..|a|] == a;
  }

  /**
   * What a line-oriented reader makes of a character stream: every
   * newline-terminated line, without its terminator; an unterminated tail
   * is not (yet) a line.
   */
  function Lines(s: string): seq<string>
    decreases |s|
  {
    match IndexOf(s, '\n')
    case None => []
    case Some(p) => [s[..p]] + Lines(s[p + 1..])
  }

  /** The separator `print_counters` puts between entries. */
  const Bar: string := " | "

  /** `sep.join(parts)` with `sep = " | "`. */
  function Join(parts: seq<string>): string
  {
    if |parts| == 0 then ""
    else if |parts| == 1 then parts[0]
    else parts[0] + Bar + Join(parts[1..])
  }

  /** Position of the first `" | "` in `s`, if any. */
  function IndexOfBar(s: string): (r: Option<nat>)
    ensures r.Some? ==> r.value + |Bar| <= |s| && s[r.value..r.value + |Bar|] == Bar
    decreases |s|
  {
    if |s| < |Bar| then None
    else if s[..|Bar|] == Bar then Some(0)
    else match IndexOfBar(s[1..])
      case None => None
      case Some(p) => Some(p + 1)
  }

  /** `s.split(" | ")`. */
  function Split(s: string): seq<string>
    decreases |s|
  {
    match IndexOfBar(s)
    case None => [s]
    case Some(p) => [s[..p]] + Split(s[p + |Bar|..])
  }

  lemma {:induction false} NoBar(a: string)
    requires '|' !in a
    ensures IndexOfBar(a) == None
    decreases |a|
  {
    if |a| >= |Bar| {
      assert a[1] != '|';
      assert a[..|Bar|] != Bar;
      NoBar(a[1..]);
    }
  }

  /** A piece free of `'|'` is cut off exactly at the separator that follows it. */
  lemma {:induction false} FirstBar(a: string, b: string)
    requires '|' !in a
    ensures IndexOfBar(a + Bar + b) == Some(|a|)
    decreases |a|
  {
    var s := a + Bar + b;
    if a == [] {
      assert s[..|Bar|] == Bar;
    } else {
      assert s[1] != '|' by {
        if |a| == 1 { assert s[1] == ' '; } else { assert s[1] == a[1]; }
      }
      assert s[..|Bar|] != Bar;
      assert s[1..] == a[1..] + Bar + b;
      FirstBar(a[1..], b);
    }
  }

  /** Splitting undoes joining when no piece contains `'|'`. */
  lemma {:induction false} SplitJoin(parts: seq<string>)
    requires 1 <= |parts|
    requires forall i :: 0 <= i < |parts| ==> '|' !in parts[i]
    ensures Split(Join(parts)) == parts
    decreases |parts|
  {
    if |parts| == 1 {
      NoBar(parts[0]);
    } else {
      var rest := Join(parts[1..]);
      var s := parts[0] + Bar + rest;
      FirstBar(parts[0], rest);
      assert s[..|parts[0]|] == parts[0];
      assert s[|parts[0]| + |Bar|..] == rest;
      SplitJoin(parts[1..]);
    }
  }
}
