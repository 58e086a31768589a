/** Reference behaviour of a bounded FIFO of capacity `cap`, stated on plain
    sequences: appending to a full sequence drops the oldest element. The ring
    buffer's logical view is proved to follow these definitions. */
module BoundedSeq {

  /** The newest `cap` elements of `s` (all of `s` when it is short enough). */
  function Newest<T>(s: seq<T>, cap: nat): (r: seq<T>)
    ensures |r| == if |s| <= cap then |s| else cap
    ensures forall i :: 0 <= i < |r| ==> r[i] == s[|s| - |r| + i]
  {
    if |s| <= cap then s else s[|s| - cap..]
  }

  /** Appending one element to a bounded sequence. */
  function Append<T>(s: seq<T>, cap: nat, v: T): seq<T>
  {
    Newest(s + [v], cap)
  }

  /** Appending to a sequence that already holds `cap` elements evicts exactly
      the oldest one; appending to a shorter one keeps everything. */
  lemma AppendEvictsOldest<T>(s: seq<T>, cap: nat, v: T)
    requires 0 < cap && |s| <= cap
    ensures |s| == cap ==> Append(s, cap, v) == s[1..] + [v]
    ensures |s| < cap ==> Append(s, cap, v) == s + [v]
    ensures |Append(s, cap, v)| == if |s| == cap then cap else |s| + 1
  {
    if |s| == cap {
      assert (s + [v])[1..] == s[1..] + [v];
    }
  }

  /** Keeping the newest `cap` elements early does not change which elements
      survive once more are appended. */
  lemma NewestAbsorbs<T>(s: seq<T>, t: seq<T>, cap: nat)
    ensures Newest(Newest(s, cap) + t, cap) == Newest(s + t, cap)
  {
    if |s| > cap {
      var u := Newest(s, cap);
      var a := Newest(u + t, cap);
      var b := Newest(s + t, cap);
      assert |a| == |b|;
      forall i | 0 <= i < |a|
        ensures a[i] == b[i]
      {
        var k := |u + t| - |a| + i;
        if k < |u| {
          assert (u + t)[k] == u[k] == s[|s| - cap + k];
          assert (s + t)[|s + t| - |b| + i] == s[|s| - cap + k];
        } else {
          assert (u + t)[k] == t[k - |u|];
          assert (s + t)[|s + t| - |b| + i] == t[k - |u|];
        }
      }
    }
  }
}
