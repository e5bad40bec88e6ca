/** Serial number arithmetic, section 3.2 of RFC 1982, for the 16-bit sequence space. */
module Serial {
  import opened Prelude

  const SPACE := 0x1_0000
  const HALF := 0x8000

  /** The wire value of an unbounded counter. */
  function Wire(n: nat): U16 {
    n % SPACE
  }

  /** `wrapping_sub`. */
  function WrappingSub(a: U16, b: U16): U16 {
    (a - b + SPACE) % SPACE
  }

  /** `is_newer_than`. */
  predicate Newer(a: U16, b: U16) {
    WrappingSub(a, b) != 0 && WrappingSub(a, b) < HALF
  }

  /** `SerialTracker::accept`. */
  function Track(last: Option<U16>, value: U16): (Option<U16>, bool) {
    if last.None? || Newer(value, last.value) then (Some(value), true) else (last, false)
  }

  class SerialTracker {
    var last: Option<U16>

    constructor ()
      ensures last == None
    {
      last := None;
    }

    method Accept(value: U16) returns (ok: bool)
      modifies this
      ensures (last, ok) == Track(old(last), value)
    {
      match last
      case None =>
        last := Some(value);
        return true;
      case Some(previous) =>
        if Newer(value, previous) {
          last := Some(value);
          return true;
        }
        return false;
    }
  }

  lemma WireDifference(n: nat, m: nat, d: int)
    requires n - m == d && -HALF <= d <= HALF
    ensures WrappingSub(Wire(n), Wire(m)) == if d < 0 then d + SPACE else d
  {
    var a, b := n / SPACE, m / SPACE;
    assert n == a * SPACE + Wire(n) && m == b * SPACE + Wire(m);
    assert Wire(n) - Wire(m) == d - (a - b) * SPACE;
    assert -1 <= a - b <= 1;
  }

  /** Within half the space the 16-bit comparison is the comparison of the counters themselves. */
  lemma NewerRefines(n: nat, m: nat)
    requires -HALF <= n - m < HALF
    ensures Newer(Wire(n), Wire(m)) <==> n > m
  {
    WireDifference(n, m, n - m);
  }

  /** The bound is tight: half the space ahead is taken for stale. */
  lemma HalfAheadIsStale(n: nat)
    ensures !Newer(Wire(n + HALF), Wire(n)) && !Newer(Wire(n), Wire(n + HALF))
  {
    WireDifference(n + HALF, n, HALF);
    WireDifference(n, n + HALF, -HALF);
  }

  // ----- Runs -----

  function TrackAll(ns: seq<nat>): Option<U16> {
    if ns == [] then None else Track(TrackAll(ns[..|ns| - 1]), Wire(ns[|ns| - 1])).0
  }

  /** Whether the arrival at `i` was applied. */
  predicate Accepted(ns: seq<nat>, i: nat)
    requires i < |ns|
  {
    Track(TrackAll(ns[..i]), Wire(ns[i])).1
  }

  function Highest(ns: seq<nat>): nat
    requires ns != []
  {
    var last := ns[|ns| - 1];
    if |ns| == 1 then last else Max(Highest(ns[..|ns| - 1]), last)
  }

  lemma {:induction false} HighestFacts(ns: seq<nat>)
    requires ns != []
    ensures forall i :: 0 <= i < |ns| ==> ns[i] <= Highest(ns)
    ensures exists i :: 0 <= i < |ns| && ns[i] == Highest(ns)
    decreases |ns|
  {
    var n := |ns| - 1;
    if n == 0 {
      assert ns[0] == Highest(ns);
    } else {
      var pre := ns[..n];
      HighestFacts(pre);
      var i :| 0 <= i < |pre| && pre[i] == Highest(pre);
      assert ns[i] == pre[i];
      assert ns[if Highest(pre) < ns[n] then n else i] == Highest(ns);
      assert forall k :: 0 <= k < n ==> ns[k] == pre[k];
    }
  }

  /** No arrival is half the space or more away from the highest before it. */
  ghost predicate Near(ns: seq<nat>) {
    forall i :: 1 <= i < |ns| ==> -HALF <= ns[i] - Highest(ns[..i]) < HALF
  }

  lemma NearPrefix(ns: seq<nat>)
    requires ns != [] && Near(ns)
    ensures Near(ns[..|ns| - 1])
  {
    var pre := ns[..|ns| - 1];
    forall i | 1 <= i < |pre|
      ensures -HALF <= pre[i] - Highest(pre[..i]) < HALF
    {
      assert pre[..i] == ns[..i] && pre[i] == ns[i];
    }
  }

  /** The tracker remembers the wire value of the highest counter seen. */
  lemma {:induction false} TracksHighest(ns: seq<nat>)
    requires ns != [] && Near(ns)
    ensures TrackAll(ns) == Some(Wire(Highest(ns)))
    decreases |ns|
  {
    var n := |ns| - 1;
    var pre := ns[..n];
    if n > 0 {
      NearPrefix(ns);
      TracksHighest(pre);
      NewerRefines(ns[n], Highest(pre));
    }
  }

  /**
   The 16-bit tracker refines an unbounded one: in a run whose arrivals stay near the highest, an
   arrival is applied exactly when it is above everything before it.
   */
  lemma AcceptsExactlyNewMaxima(ns: seq<nat>, i: nat)
    requires i < |ns| && Near(ns)
    ensures Accepted(ns, i) <==> forall j :: 0 <= j < i ==> ns[j] < ns[i]
  {
    if i > 0 {
      var pre := ns[..i];
      assert Near(pre) by {
        forall k | 1 <= k < i
          ensures -HALF <= pre[k] - Highest(pre[..k]) < HALF
        {
          assert pre[..k] == ns[..k] && pre[k] == ns[k];
        }
      }
      TracksHighest(pre);
      NewerRefines(ns[i], Highest(pre));
      HighestFacts(pre);
      assert forall j :: 0 <= j < i ==> ns[j] == pre[j];
    }
  }
}
