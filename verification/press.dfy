/**
 * `send_key`, minus its sleeps: the text frame written to the serial link
 * for one key press, and the console line printed for the keys in
 * `PRINT_KEYS`. Both variants of the program share this code.
 */
module Press {
  import opened Optional
  import opened Text
  import opened Intervals

  /** Keys whose press is announced on the console. */
  const PrintKeys: set<Key> := {"F7", "F10", "F12"}

  /** The wire frame for one press: the key text, then one newline. */
  function Frame(k: Key): string {
    k + "\n"
  }

  /** What one call of `send_key` produces besides its sleeps. */
  datatype Effect = Effect(frame: string, log: Option<string>)

  function Send(k: Key): (r: Effect)
    ensures '\n' !in k ==> Lines(r.frame) == [k]
    ensures r.log.Some? <==> k in PrintKeys
    ensures r.log.Some? ==> r.log.value == "Acci\U{F3}n " + k
  {
    assert '\n' !in k ==> Lines(Frame(k)) == [k] by {
      if '\n' !in k {
        FrameDecodes(k);
      }
    }
    Effect(Frame(k), if k in PrintKeys then Some("Acci\U{F3}n " + k) else None)
  }

  /** The console line of each press, if it has one. */
  function Announcements(keys: seq<Key>): (os: seq<Option<string>>)
    ensures |os| == |keys| && forall i :: 0 <= i < |keys| ==> os[i] == Send(keys[i]).log
  {
    seq(|keys|, i requires 0 <= i < |keys| => Send(keys[i]).log)
  }

  /** Everything printed to the console for a sequence of presses, in press order. */
  function Log(keys: seq<Key>): seq<string> {
    Somes(Announcements(keys))
  }

  /** The prefix of an announcement determines the key it names. */
  lemma AnnouncementNames(k1: Key, k2: Key)
    requires "Acci\U{F3}n " + k1 == "Acci\U{F3}n " + k2
    ensures k1 == k2
  {
    var p := "Acci\U{F3}n ";
    assert k1 == (p + k1)[|p|..];
    assert k2 == (p + k2)[|p|..];
  }

  /** A batch of presses announces exactly its keys that are in `PRINT_KEYS`. */
  lemma LogAnnounces(keys: seq<Key>, k: Key)
    ensures "Acci\U{F3}n " + k in Log(keys) <==> k in keys && k in PrintKeys
  {
    var os, lines := Announcements(keys), Log(keys);
    SomesComplete(os);
    SomesSound(os);
    if k in keys && k in PrintKeys {
      var i :| 0 <= i < |keys| && keys[i] == k;
      assert os[i] == Some("Acci\U{F3}n " + k);
    }
    if "Acci\U{F3}n " + k in lines {
      var j :| 0 <= j < |lines| && lines[j] == "Acci\U{F3}n " + k;
      var i :| 0 <= i < |os| && os[i] == Some(lines[j]);
      AnnouncementNames(keys[i], k);
    }
  }

  /** Everything written to the link for a sequence of presses. */
  function Wire(keys: seq<Key>): string {
    if keys == [] then "" else Frame(keys[0]) + Wire(keys[1..])
  }

  /**
   * A line reader on the other end of the link recovers exactly the keys
   * pressed, in order, as long as no key text contains a newline.
   */
  lemma {:induction false} WireDecodes(keys: seq<Key>)
    requires forall i :: 0 <= i < |keys| ==> '\n' !in keys[i]
    ensures Lines(Wire(keys)) == keys
    decreases |keys|
  {
    if keys != [] {
      var rest := Wire(keys[1..]);
      var s := keys[0] + "\n" + rest;
      assert Wire(keys) == s;
      IndexOfAfter(keys[0], '\n', rest);
      assert s[..|keys[0]|] == keys[0];
      assert s[|keys[0]| + 1..] == rest;
      WireDecodes(keys[1..]);
    }
  }

  /** One frame decodes to its key. */
  lemma FrameDecodes(k: Key)
    requires '\n' !in k
    ensures Lines(Frame(k)) == [k]
  {
    WireDecodes([k]);
    assert Wire([k]) == Frame(k) + "";
    assert Frame(k) + "" == Frame(k);
  }

  /** Wires of consecutive batches of presses concatenate. */
  lemma {:induction false} WireAppend(a: seq<Key>, b: seq<Key>)
    ensures Wire(a + b) == Wire(a) + Wire(b)
    decreases |a|
  {
    if a == [] {
      assert a + b == b;
    } else {
      assert (a + b)[0] == a[0];
      assert (a + b)[1..] == a[1..] + b;
      WireAppend(a[1..], b);
      calc {
        Wire(a + b);
        Frame(a[0]) + Wire(a[1..] + b);
        Frame(a[0]) + (Wire(a[1..]) + Wire(b));
        (Frame(a[0]) + Wire(a[1..])) + Wire(b);
      }
    }
  }

  lemma AllKeysPlain()
    ensures forall i :: 0 <= i < |AllKeys| ==> '\n' !in AllKeys[i] && '|' !in AllKeys[i]
  {
  }
}
