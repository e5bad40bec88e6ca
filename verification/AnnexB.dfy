/** Splitting a byte stream into NAL units, Annex B of ITU-T H.264. */
module AnnexB {
  import opened Prelude

  /** A start code: where it begins and how long it is. */
  datatype Start = Start(offset: nat, len: nat)

  predicate IsShort(data: Bytes, i: nat) {
    i + 3 <= |data| && data[i] == 0 && data[i + 1] == 0 && data[i + 2] == 1
  }

  predicate IsLong(data: Bytes, i: nat) {
    i + 4 <= |data| && data[i] == 0 && data[i + 1] == 0 && data[i + 2] == 0 && data[i + 3] == 1
  }

  /** The length of the start code at `i`, or zero when there is none. */
  function CodeAt(data: Bytes, i: nat): (n: nat)
    ensures n == 0 || (n == 3 && IsShort(data, i)) || (n == 4 && IsLong(data, i))
    ensures i + n <= |data| || n == 0
  {
    if IsShort(data, i) then 3 else if IsLong(data, i) then 4 else 0
  }

  /** Every start code from `i` on, left to right. */
  function StartsFrom(data: Bytes, i: nat): (r: seq<Start>)
    decreases |data| - i
  {
    if i + 3 > |data| then []
    else if CodeAt(data, i) > 0 then [Start(i, CodeAt(data, i))] + StartsFrom(data, i + CodeAt(data, i))
    else StartsFrom(data, i + 1)
  }

  function BodyStart(starts: seq<Start>, n: nat): nat
    requires n < |starts|
  {
    starts[n].offset + starts[n].len
  }

  function BodyEnd(data: Bytes, starts: seq<Start>, n: nat): nat
    requires n < |starts|
  {
    if n + 1 < |starts| then starts[n + 1].offset else |data|
  }

  /** Start codes in order, none overlapping the next. */
  ghost predicate Spaced(data: Bytes, starts: seq<Start>, from: nat) {
    && (forall n :: 0 <= n < |starts| ==>
          from <= starts[n].offset && CodeAt(data, starts[n].offset) == starts[n].len > 0)
    && (forall n, m :: 0 <= n < m < |starts| ==> BodyStart(starts, n) <= starts[m].offset)
  }

  lemma {:induction false} StartsSpaced(data: Bytes, i: nat)
    ensures Spaced(data, StartsFrom(data, i), i)
    decreases |data| - i
  {
    if i + 3 <= |data| {
      var n := CodeAt(data, i);
      if n > 0 {
        StartsSpaced(data, i + n);
        SpacedCons(data, i, StartsFrom(data, i + n));
      } else {
        StartsSpaced(data, i + 1);
      }
    }
  }

  lemma SpacedCons(data: Bytes, i: nat, rest: seq<Start>)
    requires CodeAt(data, i) > 0 && Spaced(data, rest, i + CodeAt(data, i))
    ensures Spaced(data, [Start(i, CodeAt(data, i))] + rest, i)
  {
    var starts := [Start(i, CodeAt(data, i))] + rest;
    forall k, l | 0 <= k < l < |starts|
      ensures BodyStart(starts, k) <= starts[l].offset
    {
      assert starts[l] == rest[l - 1];
      if k > 0 {
        assert BodyStart(starts, k) == BodyStart(rest, k - 1);
      }
    }
  }

  /** The units, in order: the nonempty stretches between start codes. */
  function Bodies(data: Bytes, starts: seq<Start>, n: nat): seq<Bytes>
    requires n <= |starts| && (forall k :: 0 <= k < |starts| ==> starts[k].offset <= |data|)
    decreases |starts| - n
  {
    if n == |starts| then []
    else
      var lo, hi := BodyStart(starts, n), BodyEnd(data, starts, n);
      (if lo < hi then [data[lo..hi]] else []) + Bodies(data, starts, n + 1)
  }

  lemma StartsInside(data: Bytes, i: nat)
    ensures forall k :: 0 <= k < |StartsFrom(data, i)| ==>
              StartsFrom(data, i)[k].offset + StartsFrom(data, i)[k].len <= |data|
  {
    StartsSpaced(data, i);
  }

  /** `split_annex_b`. */
  function Split(data: Bytes): seq<Bytes> {
    StartsInside(data, 0);
    Bodies(data, StartsFrom(data, 0), 0)
  }

  /** The first loop: collect the start codes. */
  method FindStarts(data: Bytes) returns (starts: seq<Start>)
    ensures starts == StartsFrom(data, 0)
  {
    starts := [];
    var i := 0;
    while i + 3 <= |data|
      invariant starts + StartsFrom(data, i) == StartsFrom(data, 0)
      decreases |data| - i
    {
      if data[i] == 0 && data[i + 1] == 0 {
        if data[i + 2] == 1 {
          Grows(starts, Start(i, 3), StartsFrom(data, i + 3));
          starts := starts + [Start(i, 3)];
          i := i + 3;
          continue;
        }
        if i + 4 <= |data| && data[i + 2] == 0 && data[i + 3] == 1 {
          Grows(starts, Start(i, 4), StartsFrom(data, i + 4));
          starts := starts + [Start(i, 4)];
          i := i + 4;
          continue;
        }
      }
      i := i + 1;
    }
    assert starts + [] == starts;
  }

  lemma Grows<T>(done: seq<T>, x: T, rest: seq<T>)
    ensures done + ([x] + rest) == done + [x] + rest
  {
  }

  /** The second loop: cut out the nonempty bodies. */
  method CutBodies(data: Bytes, starts: seq<Start>) returns (units: seq<Bytes>)
    requires forall k :: 0 <= k < |starts| ==> starts[k].offset <= |data|
    ensures units == Bodies(data, starts, 0)
  {
    ghost var all := Bodies(data, starts, 0);
    units := [];
    assert units + all == all;
    for n := 0 to |starts|
      invariant units + Bodies(data, starts, n) == all
    {
      var body := starts[n].offset + starts[n].len;
      var end := if n + 1 < |starts| then starts[n + 1].offset else |data|;
      if body < end {
        Grows(units, data[body..end], Bodies(data, starts, n + 1));
        units := units + [data[body..end]];
      }
    }
    assert units + [] == units;
  }

  /** Both loops. */
  method SplitAnnexB(data: Bytes) returns (units: seq<Bytes>)
    ensures units == Split(data)
  {
    var starts := FindStarts(data);
    StartsInside(data, 0);
    units := CutBodies(data, starts);
  }

  // ----- Every input -----

  /** The scan misses nothing: outside the codes it found there is no start code. */
  lemma {:induction false} NoneMissed(data: Bytes, i: nat, k: nat)
    requires i <= k && CodeAt(data, k) > 0
    ensures exists n :: 0 <= n < |StartsFrom(data, i)| &&
              StartsFrom(data, i)[n].offset <= k < BodyStart(StartsFrom(data, i), n)
    decreases |data| - i
  {
    var starts := StartsFrom(data, i);
    var c := CodeAt(data, i);
    if c > 0 && k < i + c {
      assert starts[0].offset <= k < BodyStart(starts, 0);
    } else if c > 0 {
      NoneMissed(data, i + c, k);
      var rest := StartsFrom(data, i + c);
      var n :| 0 <= n < |rest| && rest[n].offset <= k < BodyStart(rest, n);
      assert starts[n + 1] == rest[n];
    } else {
      NoneMissed(data, i + 1, k);
    }
  }

  predicate CodeFree(unit: Bytes) {
    forall k :: 0 <= k < |unit| ==> !IsShort(unit, k)
  }

  lemma BodyAvoidsCodes(data: Bytes, starts: seq<Start>, n: nat, m: nat, x: nat)
    requires Spaced(data, starts, 0) && n < |starts| && m < |starts|
    requires BodyStart(starts, n) <= x < BodyEnd(data, starts, n)
    ensures x < starts[m].offset || BodyStart(starts, m) <= x
  {
    if m < n {
      assert BodyStart(starts, m) <= starts[n].offset;
    } else if m > n + 1 {
      assert BodyStart(starts, n + 1) <= starts[m].offset;
    }
  }

  lemma BodyIsCodeFree(data: Bytes, n: nat)
    requires n < |StartsFrom(data, 0)|
    requires BodyStart(StartsFrom(data, 0), n) <= BodyEnd(data, StartsFrom(data, 0), n) <= |data|
    ensures CodeFree(data[BodyStart(StartsFrom(data, 0), n)..BodyEnd(data, StartsFrom(data, 0), n)])
  {
    var starts := StartsFrom(data, 0);
    var lo, hi := BodyStart(starts, n), BodyEnd(data, starts, n);
    StartsSpaced(data, 0);
    var unit := data[lo..hi];
    forall k | 0 <= k < |unit|
      ensures !IsShort(unit, k)
    {
      if IsShort(unit, k) {
        assert unit[k] == data[lo + k] && unit[k + 1] == data[lo + k + 1] && unit[k + 2] == data[lo + k + 2];
        NoneMissed(data, 0, lo + k);
        var m :| 0 <= m < |starts| && starts[m].offset <= lo + k < BodyStart(starts, m);
        BodyAvoidsCodes(data, starts, n, m, lo + k);
        assert false;
      }
    }
  }

  /** Each unit is the nonempty stretch of the input at its range, with no start code inside. */
  ghost predicate Cuts(data: Bytes, ranges: seq<(nat, nat)>, units: seq<Bytes>) {
    && |ranges| == |units|
    && forall k :: 0 <= k < |units| ==>
         && ranges[k].0 < ranges[k].1 <= |data| && units[k] == data[ranges[k].0..ranges[k].1]
         && CodeFree(units[k])
  }

  ghost predicate Disjoint(ranges: seq<(nat, nat)>) {
    forall k, l :: 0 <= k < l < |ranges| ==> ranges[k].1 <= ranges[l].0
  }

  /** The units as ranges of the input, in order. */
  ghost predicate AreUnits(data: Bytes, ranges: seq<(nat, nat)>, units: seq<Bytes>) {
    Cuts(data, ranges, units) && Disjoint(ranges)
  }

  /** Start codes in order, and no start code in any body between them. */
  ghost predicate CleanBodies(data: Bytes, starts: seq<Start>) {
    && Spaced(data, starts, 0)
    && (forall k :: 0 <= k < |starts| ==> starts[k].offset <= |data|)
    && forall n: nat :: n < |starts| && BodyStart(starts, n) <= BodyEnd(data, starts, n) <= |data| ==>
         CodeFree(data[BodyStart(starts, n)..BodyEnd(data, starts, n)])
  }

  lemma ScanIsClean(data: Bytes)
    ensures CleanBodies(data, StartsFrom(data, 0))
  {
    var starts := StartsFrom(data, 0);
    StartsSpaced(data, 0);
    StartsInside(data, 0);
    forall n: nat | n < |starts| && BodyStart(starts, n) <= BodyEnd(data, starts, n) <= |data|
      ensures CodeFree(data[BodyStart(starts, n)..BodyEnd(data, starts, n)])
    {
      BodyIsCodeFree(data, n);
    }
  }

  /** The ranges of the nonempty bodies from the `n`th start code on. */
  function Ranges(data: Bytes, starts: seq<Start>, n: nat): seq<(nat, nat)>
    requires n <= |starts|
    decreases |starts| - n
  {
    if n == |starts| then []
    else
      var lo, hi := BodyStart(starts, n), BodyEnd(data, starts, n);
      (if lo < hi then [(lo, hi)] else []) + Ranges(data, starts, n + 1)
  }

  lemma CutsCons(data: Bytes, lo: nat, hi: nat, ranges: seq<(nat, nat)>, units: seq<Bytes>)
    requires lo < hi <= |data| && CodeFree(data[lo..hi]) && Cuts(data, ranges, units)
    ensures Cuts(data, [(lo, hi)] + ranges, [data[lo..hi]] + units)
  {
  }

  lemma {:induction false} RangesCut(data: Bytes, starts: seq<Start>, n: nat)
    requires CleanBodies(data, starts) && n <= |starts|
    ensures Cuts(data, Ranges(data, starts, n), Bodies(data, starts, n))
    decreases |starts| - n
  {
    if n < |starts| {
      RangesCut(data, starts, n + 1);
      var lo, hi := BodyStart(starts, n), BodyEnd(data, starts, n);
      if lo < hi {
        CutsCons(data, lo, hi, Ranges(data, starts, n + 1), Bodies(data, starts, n + 1));
      }
    }
  }

  ghost predicate AllFrom(ranges: seq<(nat, nat)>, lo: nat) {
    forall k :: 0 <= k < |ranges| ==> lo <= ranges[k].0
  }

  lemma DisjointCons(r: (nat, nat), ranges: seq<(nat, nat)>)
    requires Disjoint(ranges) && AllFrom(ranges, r.1)
    ensures Disjoint([r] + ranges)
  {
    var all := [r] + ranges;
    assert forall k :: 1 <= k < |all| ==> all[k] == ranges[k - 1];
  }

  lemma {:induction false} RangesDisjoint(data: Bytes, starts: seq<Start>, n: nat)
    requires Spaced(data, starts, 0) && n <= |starts|
    ensures Disjoint(Ranges(data, starts, n))
    ensures n < |starts| ==> AllFrom(Ranges(data, starts, n), starts[n].offset)
    decreases |starts| - n
  {
    if n < |starts| {
      RangesDisjoint(data, starts, n + 1);
      var lo, hi, rest := BodyStart(starts, n), BodyEnd(data, starts, n), Ranges(data, starts, n + 1);
      assert AllFrom(rest, hi);
      if lo < hi {
        DisjointCons((lo, hi), rest);
      }
    }
  }

  /** For every input the units are nonempty, in order, disjoint and free of start codes. */
  lemma SplitIsOrderly(data: Bytes)
    ensures exists ranges :: AreUnits(data, ranges, Split(data))
  {
    var starts := StartsFrom(data, 0);
    ScanIsClean(data);
    RangesCut(data, starts, 0);
    RangesDisjoint(data, starts, 0);
    assert AreUnits(data, Ranges(data, starts, 0), Split(data));
  }

  // ----- Round trip -----

  function Code(long: bool): Bytes {
    if long then [0, 0, 0, 1] else [0, 0, 1]
  }

  /** Units joined with a start code before each, of either length. */
  function Join(units: seq<Bytes>, longs: seq<bool>): Bytes
    requires |longs| == |units|
  {
    if units == [] then [] else Code(longs[0]) + units[0] + Join(units[1..], longs[1..])
  }

  /** `data` from `off` on is the join of the given units. */
  ghost predicate Carries(data: Bytes, off: nat, units: seq<Bytes>, longs: seq<bool>) {
    off <= |data| && |longs| == |units| && data[off..] == Join(units, longs)
  }

  lemma CodeLocated(data: Bytes, off: nat, code: Bytes, rest: Bytes, longer: bool)
    requires off <= |data| && code == Code(longer) && data[off..] == code + rest
    ensures CodeAt(data, off) == |code| && off + |code| <= |data| && data[off + |code|..] == rest
  {
    var tail := data[off..];
    assert forall k :: 0 <= k < |code| ==> data[off + k] == tail[k] && tail[k] == code[k];
    assert data[off + |code|..] == tail[|code|..];
  }

  /** The pieces of a nonempty join, located in the data. */
  lemma CarriesHead(data: Bytes, off: nat, units: seq<Bytes>, longs: seq<bool>)
    requires Carries(data, off, units, longs) && units != []
    ensures var body := off + |Code(longs[0])|;
            var end := body + |units[0]|;
            && end <= |data| && CodeAt(data, off) == |Code(longs[0])|
            && data[body..end] == units[0]
            && Carries(data, end, units[1..], longs[1..])
  {
    var code, unit, rest := Code(longs[0]), units[0], Join(units[1..], longs[1..]);
    assert code + unit + rest == code + (unit + rest);
    CodeLocated(data, off, code, unit + rest, longs[0]);
    var body := off + |code|;
    var tail := data[body..];
    assert data[body..body + |unit|] == tail[..|unit|];
    assert data[body + |unit|..] == tail[|unit|..];
  }

  /**
   What may follow a unit that ends at `end`: the end of the data, a long code, or a short code that the
   unit does not precede with a zero.
   */
  ghost predicate Followed(data: Bytes, end: nat, unit: Bytes) {
    || end == |data|
    || IsLong(data, end)
    || (IsShort(data, end) && (unit == [] || unit[|unit| - 1] != 0))
  }

  /** `data` holds `unit`, free of start codes, from `body` on, and a safe continuation after it. */
  ghost predicate Holds(data: Bytes, body: nat, unit: Bytes) {
    && body + |unit| <= |data| && data[body..body + |unit|] == unit && CodeFree(unit)
    && Followed(data, body + |unit|, unit)
  }

  /** No start code begins inside such a unit, not even one that runs past its end. */
  lemma UnitIsQuiet(data: Bytes, body: nat, unit: Bytes, i: nat)
    requires Holds(data, body, unit) && body <= i < body + |unit|
    ensures CodeAt(data, i) == 0
  {
    var end := body + |unit|;
    assert forall k :: body <= k < end ==> data[k] == unit[k - body];
    assert data[end - 1] == unit[|unit| - 1];
    assert !IsShort(unit, i - body) && (i + 1 < end ==> !IsShort(unit, i + 1 - body));
  }

  lemma {:induction false} ScanSkipsUnit(data: Bytes, body: nat, unit: Bytes, i: nat)
    requires Holds(data, body, unit) && body <= i <= body + |unit|
    ensures StartsFrom(data, i) == StartsFrom(data, body + |unit|)
    decreases body + |unit| - i
  {
    if i < body + |unit| {
      UnitIsQuiet(data, body, unit, i);
      ScanSkipsUnit(data, body, unit, i + 1);
    }
  }

  /** Where the start codes of a join lie. */
  function Layout(units: seq<Bytes>, longs: seq<bool>, off: nat): seq<Start>
    requires |longs| == |units|
  {
    if units == [] then []
    else [Start(off, |Code(longs[0])|)] + Layout(units[1..], longs[1..], AfterFirst(units, longs, off))
  }

  /** The scan of a start code and the unit after it finds that code and resumes after the unit. */
  lemma ScanTakesUnit(data: Bytes, off: nat, len: nat, unit: Bytes, rest: seq<Start>)
    requires len > 0 && CodeAt(data, off) == len && Holds(data, off + len, unit)
    requires StartsFrom(data, off + len + |unit|) == rest
    ensures StartsFrom(data, off) == [Start(off, len)] + rest
  {
    ScanSkipsUnit(data, off + len, unit, off + len);
  }

  /** Where the second unit's start code lies. */
  function AfterFirst(units: seq<Bytes>, longs: seq<bool>, off: nat): nat
    requires units != [] && |longs| == |units|
  {
    off + |Code(longs[0])| + |units[0]|
  }

  /** Units free of start codes, none of which puts a zero before a short code. */
  ghost predicate Safe(units: seq<Bytes>, longs: seq<bool>) {
    && |longs| == |units|
    && (forall k :: 0 <= k < |units| ==> CodeFree(units[k]))
    && forall k :: 0 <= k < |units| - 1 ==> !EndsInZero(units[k]) || longs[k + 1]
  }

  predicate EndsInZero(unit: Bytes) {
    unit != [] && unit[|unit| - 1] == 0
  }

  lemma SafeTail(units: seq<Bytes>, longs: seq<bool>)
    requires units != [] && Safe(units, longs)
    ensures CodeFree(units[0]) && Safe(units[1..], longs[1..])
    ensures |units| > 1 ==> !EndsInZero(units[0]) || longs[1]
  {
  }

  /** The first unit of a safe join stands in the data as `Holds` asks. */
  lemma FirstHolds(data: Bytes, off: nat, units: seq<Bytes>, longs: seq<bool>)
    requires Carries(data, off, units, longs) && units != [] && Safe(units, longs)
    ensures CodeAt(data, off) == |Code(longs[0])| && Holds(data, off + |Code(longs[0])|, units[0])
    ensures Carries(data, AfterFirst(units, longs, off), units[1..], longs[1..])
  {
    var next := AfterFirst(units, longs, off);
    SafeTail(units, longs);
    CarriesHead(data, off, units, longs);
    if |units| == 1 {
      assert |data[next..]| == 0;
    } else {
      CarriesHead(data, next, units[1..], longs[1..]);
    }
  }

  lemma {:induction false} ScanFindsLayout(data: Bytes, off: nat, units: seq<Bytes>, longs: seq<bool>)
    requires Carries(data, off, units, longs) && Safe(units, longs)
    ensures StartsFrom(data, off) == Layout(units, longs, off)
    decreases |units|
  {
    if units == [] {
      assert |data[off..]| == 0;
    } else {
      var len, next := |Code(longs[0])|, AfterFirst(units, longs, off);
      FirstHolds(data, off, units, longs);
      SafeTail(units, longs);
      ScanFindsLayout(data, next, units[1..], longs[1..]);
      ScanTakesUnit(data, off, len, units[0], Layout(units[1..], longs[1..], next));
    }
  }

  lemma {:induction false} LayoutHead(units: seq<Bytes>, longs: seq<bool>, off: nat)
    requires |longs| == |units|
    ensures |Layout(units, longs, off)| == |units|
    ensures units != [] ==> Layout(units, longs, off)[0].offset == off
    decreases |units|
  {
    if units != [] {
      LayoutHead(units[1..], longs[1..], off + |Code(longs[0])| + |units[0]|);
    }
  }

  /** The place in `starts` of the first unit of a layout, and where its body ends. */
  lemma LayoutPlace(data: Bytes, starts: seq<Start>, n: nat, off: nat, units: seq<Bytes>, longs: seq<bool>)
    requires |longs| == |units| && units != [] && n <= |starts| && starts[n..] == Layout(units, longs, off)
    ensures var end := AfterFirst(units, longs, off);
            && n < |starts| && BodyStart(starts, n) == off + |Code(longs[0])|
            && starts[n + 1..] == Layout(units[1..], longs[1..], end)
            && BodyEnd(data, starts, n) == if |units| > 1 then end else |data|
  {
    var first, rest := Start(off, |Code(longs[0])|), Layout(units[1..], longs[1..], AfterFirst(units, longs, off));
    LayoutHead(units, longs, off);
    LayoutHead(units[1..], longs[1..], AfterFirst(units, longs, off));
    TailOf(starts, n, first, rest);
  }

  lemma TailOf(starts: seq<Start>, n: nat, first: Start, rest: seq<Start>)
    requires n <= |starts| && starts[n..] == [first] + rest
    ensures n < |starts| && starts[n] == first && starts[n + 1..] == rest
    ensures rest != [] ==> n + 1 < |starts| && starts[n + 1] == rest[0]
    ensures rest == [] ==> n + 1 == |starts|
  {
    assert starts[n] == starts[n..][0];
    assert starts[n + 1..] == starts[n..][1..];
    if rest != [] {
      assert starts[n + 1] == starts[n + 1..][0];
    }
  }

  function NonEmpty(units: seq<Bytes>): seq<Bytes> {
    if units == [] then [] else (if units[0] == [] then [] else [units[0]]) + NonEmpty(units[1..])
  }

  lemma BodiesStep(data: Bytes, starts: seq<Start>, n: nat, unit: Bytes, end: nat, tail: seq<Bytes>)
    requires n < |starts| && (forall k :: 0 <= k < |starts| ==> starts[k].offset <= |data|)
    requires BodyStart(starts, n) + |unit| == end == BodyEnd(data, starts, n) <= |data|
    requires data[BodyStart(starts, n)..end] == unit && Bodies(data, starts, n + 1) == tail
    ensures Bodies(data, starts, n) == (if unit == [] then [] else [unit]) + tail
  {
  }

  /** What the second loop needs to know about the first unit of a join. */
  lemma FirstBody(data: Bytes, starts: seq<Start>, n: nat, off: nat, units: seq<Bytes>, longs: seq<bool>)
    requires Carries(data, off, units, longs) && units != []
    requires n <= |starts| && starts[n..] == Layout(units, longs, off)
    ensures var end := AfterFirst(units, longs, off);
            && n < |starts| && BodyStart(starts, n) + |units[0]| == end == BodyEnd(data, starts, n) <= |data|
            && data[BodyStart(starts, n)..end] == units[0]
            && starts[n + 1..] == Layout(units[1..], longs[1..], end)
            && Carries(data, end, units[1..], longs[1..])
  {
    CarriesHead(data, off, units, longs);
    LayoutPlace(data, starts, n, off, units, longs);
    if |units| == 1 {
      assert |data[AfterFirst(units, longs, off)..]| == 0;
    }
  }

  /** Reading the bodies between the start codes of a join gives the nonempty units back. */
  lemma {:induction false} BodiesOfLayout(data: Bytes, starts: seq<Start>, n: nat, off: nat,
                                          units: seq<Bytes>, longs: seq<bool>)
    requires Carries(data, off, units, longs)
    requires n <= |starts| && starts[n..] == Layout(units, longs, off)
    requires forall k :: 0 <= k < |starts| ==> starts[k].offset <= |data|
    ensures Bodies(data, starts, n) == NonEmpty(units)
    decreases |units|
  {
    if units == [] {
      LayoutHead(units, longs, off);
    } else {
      FirstBody(data, starts, n, off, units, longs);
      var end := AfterFirst(units, longs, off);
      BodiesOfLayout(data, starts, n + 1, end, units[1..], longs[1..]);
      BodiesStep(data, starts, n, units[0], end, NonEmpty(units[1..]));
    }
  }

  lemma SafeJoinSplits(units: seq<Bytes>, longs: seq<bool>)
    requires Safe(units, longs)
    ensures Split(Join(units, longs)) == NonEmpty(units)
  {
    var data := Join(units, longs);
    assert data[0..] == data;
    ScanFindsLayout(data, 0, units, longs);
    StartsInside(data, 0);
    var starts := StartsFrom(data, 0);
    assert starts[0..] == starts;
    BodiesOfLayout(data, starts, 0, 0, units, longs);
  }

  // ----- Any join -----

  /** The first unit ends in a zero that the short code after it takes for its own. */
  predicate Steals(units: seq<Bytes>, longs: seq<bool>)
    requires |longs| == |units|
  {
    |units| > 1 && EndsInZero(units[0]) && !longs[1]
  }

  function Trimmed(units: seq<Bytes>, longs: seq<bool>): Bytes
    requires |longs| == |units| && units != []
  {
    if Steals(units, longs) then units[0][..|units[0]| - 1] else units[0]
  }

  /** The codes after the first unit, the first of them lengthened by the zero it takes. */
  function Later(units: seq<Bytes>, longs: seq<bool>): (r: seq<bool>)
    requires |longs| == |units| && units != []
    ensures |r| == |units| - 1
  {
    if Steals(units, longs) then [true] + longs[2..] else longs[1..]
  }

  /** The units as they lie between the codes the scan finds, and the lengths of those codes. */
  function Heard(units: seq<Bytes>, longs: seq<bool>): (r: seq<Bytes>)
    requires |longs| == |units|
    ensures |r| == |units|
  {
    if units == [] then [] else [Trimmed(units, longs)] + Heard(units[1..], Later(units, longs))
  }

  function HeardCodes(units: seq<Bytes>, longs: seq<bool>): (r: seq<bool>)
    requires |longs| == |units|
    ensures |r| == |units|
  {
    if units == [] then [] else [longs[0]] + HeardCodes(units[1..], Later(units, longs))
  }

  lemma JoinCons(unit: Bytes, long: bool, units: seq<Bytes>, longs: seq<bool>)
    requires |longs| == |units|
    ensures Join([unit] + units, [long] + longs) == Code(long) + unit + Join(units, longs)
  {
    assert ([unit] + units)[1..] == units && ([long] + longs)[1..] == longs;
  }

  /** A zero and a short code are, byte for byte, a long code. */
  lemma ZeroAndShort(code: Bytes, v: Bytes, w: Bytes, rest: Bytes)
    ensures code + (v + [0]) + (Code(false) + w + rest) == code + v + (Code(true) + w + rest)
  {
    var x: Bytes := [0] + Code(false);
    assert x == Code(true);
    assert code + (v + [0]) + (Code(false) + w + rest) == code + v + (x + w + rest);
  }

  lemma ZeroMovesOver(units: seq<Bytes>, longs: seq<bool>)
    requires |longs| == |units| && units != []
    ensures Join(units, longs) == Code(longs[0]) + Trimmed(units, longs) + Join(units[1..], Later(units, longs))
  {
    if Steals(units, longs) {
      var u, w, tail := units[0], units[1], units[2..];
      assert u == Trimmed(units, longs) + [0];
      assert units[1..] == [w] + tail && longs[1..] == [false] + longs[2..];
      JoinCons(w, false, tail, longs[2..]);
      JoinCons(w, true, tail, longs[2..]);
      ZeroAndShort(Code(longs[0]), Trimmed(units, longs), w, Join(tail, longs[2..]));
    }
  }

  lemma {:induction false} HeardIsSameBytes(units: seq<Bytes>, longs: seq<bool>)
    requires |longs| == |units|
    ensures Join(Heard(units, longs), HeardCodes(units, longs)) == Join(units, longs)
    decreases |units|
  {
    if units != [] {
      var more := Later(units, longs);
      HeardIsSameBytes(units[1..], more);
      ZeroMovesOver(units, longs);
      JoinCons(Trimmed(units, longs), longs[0], Heard(units[1..], more), HeardCodes(units[1..], more));
    }
  }

  ghost predicate AllCodeFree(units: seq<Bytes>) {
    forall k :: 0 <= k < |units| ==> CodeFree(units[k])
  }

  lemma TrimmedCodeFree(units: seq<Bytes>, longs: seq<bool>)
    requires |longs| == |units| && units != [] && CodeFree(units[0])
    ensures CodeFree(Trimmed(units, longs))
  {
    var u, v := units[0], Trimmed(units, longs);
    forall k | 0 <= k < |v|
      ensures !IsShort(v, k)
    {
      assert !IsShort(u, k);
    }
  }

  lemma SafeCons(unit: Bytes, long: bool, units: seq<Bytes>, longs: seq<bool>)
    requires CodeFree(unit) && Safe(units, longs) && (units != [] ==> !EndsInZero(unit) || longs[0])
    ensures Safe([unit] + units, [long] + longs)
  {
    var us, ls := [unit] + units, [long] + longs;
    assert forall k :: 1 <= k < |us| ==> us[k] == units[k - 1] && ls[k] == longs[k - 1];
  }

  lemma {:induction false} HeardIsSafe(units: seq<Bytes>, longs: seq<bool>)
    requires |longs| == |units| && AllCodeFree(units)
    ensures Safe(Heard(units, longs), HeardCodes(units, longs))
    decreases |units|
  {
    if units != [] {
      var more := Later(units, longs);
      HeardIsSafe(units[1..], more);
      TrimmedCodeFree(units, longs);
      SafeCons(Trimmed(units, longs), longs[0], Heard(units[1..], more), HeardCodes(units[1..], more));
    }
  }

  /** What comes back from any join of code-free units: all of it but the zeroes short codes take and units left empty. */
  lemma SplitOfJoin(units: seq<Bytes>, longs: seq<bool>)
    requires |longs| == |units| && AllCodeFree(units)
    ensures Split(Join(units, longs)) == NonEmpty(Heard(units, longs))
  {
    HeardIsSameBytes(units, longs);
    HeardIsSafe(units, longs);
    SafeJoinSplits(Heard(units, longs), HeardCodes(units, longs));
  }

  /** Every unit is nonempty and code-free, and none ends in a zero before a short code. */
  ghost predicate Framable(units: seq<Bytes>, longs: seq<bool>)
    requires |longs| == |units|
  {
    forall k :: 0 <= k < |units| ==>
      && units[k] != [] && CodeFree(units[k])
      && (k + 1 < |units| && !longs[k + 1] ==> units[k][|units[k]| - 1] != 0)
  }

  function Size(units: seq<Bytes>): nat {
    if units == [] then 0 else |units[0]| + Size(units[1..])
  }

  lemma {:induction false} NonEmptySize(units: seq<Bytes>)
    ensures Size(NonEmpty(units)) == Size(units)
    ensures (forall k :: 0 <= k < |units| ==> units[k] != []) ==> NonEmpty(units) == units
  {
    if units != [] {
      NonEmptySize(units[1..]);
      var rest := NonEmpty(units[1..]);
      assert ([units[0]] + rest)[1..] == rest && [] + rest == rest;
      assert forall k :: 0 <= k < |units[1..]| ==> units[1..][k] == units[k + 1];
      assert [units[0]] + units[1..] == units;
    }
  }

  /** Hearing loses one byte for every zero taken. */
  lemma {:induction false} HeardSize(units: seq<Bytes>, longs: seq<bool>)
    requires |longs| == |units|
    ensures Size(Heard(units, longs)) <= Size(units)
    ensures Size(Heard(units, longs)) == Size(units) <==>
            forall k :: 0 <= k < |units| - 1 ==> !EndsInZero(units[k]) || longs[k + 1]
    decreases |units|
  {
    if units != [] {
      var rest, more := units[1..], Later(units, longs);
      HeardSize(rest, more);
      assert Heard(units, longs)[1..] == Heard(rest, more);
      assert Size(Heard(units, longs)) == |Trimmed(units, longs)| + Size(Heard(rest, more));
      if !Steals(units, longs) {
        assert forall k :: 0 <= k < |rest| ==> rest[k] == units[k + 1] && more[k] == longs[k + 1];
        NothingStolenTail(units, longs);
      }
    }
  }

  lemma NothingStolenTail(units: seq<Bytes>, longs: seq<bool>)
    requires |longs| == |units| && units != [] && !Steals(units, longs)
    ensures (forall k :: 0 <= k < |units| - 1 ==> !EndsInZero(units[k]) || longs[k + 1])
       <==> (forall k :: 0 <= k < |units[1..]| - 1 ==> !EndsInZero(units[1..][k]) || longs[1..][k + 1])
  {
    var rest, more := units[1..], longs[1..];
    if forall k :: 0 <= k < |rest| - 1 ==> !EndsInZero(rest[k]) || more[k + 1] {
      forall k | 0 <= k < |units| - 1
        ensures !EndsInZero(units[k]) || longs[k + 1]
      {
        if k > 0 {
          assert units[k] == rest[k - 1] && longs[k + 1] == more[k];
        }
      }
    }
  }

  lemma FramableReturns(units: seq<Bytes>, longs: seq<bool>)
    requires |longs| == |units| && Framable(units, longs)
    ensures Split(Join(units, longs)) == units
  {
    SplitOfJoin(units, longs);
    NothingHeardLess(units, longs);
    NonEmptySize(units);
  }

  lemma ReturnedIsClean(units: seq<Bytes>, data: Bytes)
    requires Split(data) == units
    ensures AllCodeFree(units) && forall k :: 0 <= k < |units| ==> units[k] != []
  {
    SplitIsOrderly(data);
    var ranges :| AreUnits(data, ranges, Split(data));
  }

  lemma ReturnedLosesNothing(units: seq<Bytes>, longs: seq<bool>)
    requires |longs| == |units| && AllCodeFree(units) && Split(Join(units, longs)) == units
    ensures forall k :: 0 <= k < |units| - 1 ==> !EndsInZero(units[k]) || longs[k + 1]
  {
    SplitOfJoin(units, longs);
    HeardSize(units, longs);
    NonEmptySize(Heard(units, longs));
  }

  /**
   The round trip: framing units with any mix of start codes and splitting gives the same units back if
   and only if every unit is nonempty and free of start codes and none ends in a zero right before a
   3-byte code. A trailing zero survives before a 4-byte code and at the end of the data.
   */
  lemma SplitInvertsJoinExactly(units: seq<Bytes>, longs: seq<bool>)
    requires |longs| == |units|
    ensures Split(Join(units, longs)) == units <==> Framable(units, longs)
  {
    if Framable(units, longs) {
      FramableReturns(units, longs);
    } else if Split(Join(units, longs)) == units {
      ReturnedIsClean(units, Join(units, longs));
      ReturnedLosesNothing(units, longs);
      assert false;
    }
  }

  lemma {:induction false} NothingHeardLess(units: seq<Bytes>, longs: seq<bool>)
    requires |longs| == |units|
    requires forall k :: 0 <= k < |units| - 1 ==> !EndsInZero(units[k]) || longs[k + 1]
    ensures Heard(units, longs) == units
    decreases |units|
  {
    if units != [] {
      NothingStolenTail(units, longs);
      NothingHeardLess(units[1..], longs[1..]);
      assert [units[0]] + units[1..] == units;
    }
  }

  /** A witness: before a short code a trailing zero is read as part of a long one. */
  lemma TrailingZeroIsLost()
    ensures Split(Join([[5, 0], [7]], [false, false])) == [[5], [7]]
  {
    var units: seq<Bytes>, longs := [[5, 0], [7]], [false, false];
    assert AllCodeFree(units);
    SplitOfJoin(units, longs);
    assert Trimmed(units, longs) == [5];
    var rest: seq<Bytes> := units[1..];
    assert rest == [[7]] && Trimmed(rest, [true]) == [7];
    assert Heard(rest, Later(units, longs)) == [[7]];
    assert Heard(units, longs) == [[5], [7]];
    NonEmptySize(Heard(units, longs));
  }
}
