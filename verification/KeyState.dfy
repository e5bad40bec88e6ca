/** The host's view of which keys the remote peer holds, and how it is brought back in line. */
module KeyState {
  import opened Prelude

  const MAX_HELD_KEYS := 32
  const FIRST_MODIFIER := 0xE0
  const MODIFIER_COUNT := 8

  /** What the reconciler wants done to the operating system. */
  datatype Action = Press(usage: U16) | Release(usage: U16)

  predicate IsModifier(u: int) {
    FIRST_MODIFIER <= u < FIRST_MODIFIER + MODIFIER_COUNT
  }

  predicate IsValidUsage(u: U16) {
    0x01 <= u <= 0xE7
  }

  // ----- Effect of actions on a set of keys that are down -----

  function Effect(down: set<U16>, a: Action): set<U16> {
    match a case Press(u) => down + {u} case Release(u) => down - {u}
  }

  function Effects(down: set<U16>, actions: seq<Action>): set<U16> {
    if actions == [] then down
    else Effect(Effects(down, actions[..|actions| - 1]), actions[|actions| - 1])
  }

  function Releases(us: seq<U16>): (r: seq<Action>)
    ensures |r| == |us|
  {
    seq(|us|, i requires 0 <= i < |us| => Release(us[i]))
  }

  function Presses(us: seq<U16>): (r: seq<Action>)
    ensures |r| == |us|
  {
    seq(|us|, i requires 0 <= i < |us| => Press(us[i]))
  }

  // ----- Ordered sets -----

  ghost predicate Increasing(s: seq<U16>) {
    forall i, j :: 0 <= i < j < |s| ==> s[i] < s[j]
  }

  function Elements(s: seq<U16>): set<U16> {
    set i | 0 <= i < |s| :: s[i]
  }

  predicate IsMin(s: set<U16>, m: U16) {
    m in s && forall u <- s :: m <= u
  }

  lemma {:induction false} MinExists(s: set<U16>)
    requires s != {}
    ensures exists m :: IsMin(s, m)
    decreases |s|
  {
    var k :| k in s;
    var rest := s - {k};
    if rest == {} {
      assert s == {k};
      assert IsMin(s, k);
    } else {
      MinExists(rest);
      var m :| IsMin(rest, m);
      var low := if k < m then k else m;
      assert forall u <- s :: u == k || u in rest;
      assert IsMin(s, low);
    }
  }

  function MinOf(s: set<U16>): (m: U16)
    requires s != {}
    ensures IsMin(s, m)
  {
    MinExists(s);
    var m :| IsMin(s, m);
    m
  }

  /** A `BTreeSet` in iteration order. */
  function Ascending(s: set<U16>): seq<U16>
    decreases |s|
  {
    if s == {} then [] else [MinOf(s)] + Ascending(s - {MinOf(s)})
  }

  lemma ElementsSnoc(s: seq<U16>, u: U16)
    ensures Elements(s + [u]) == Elements(s) + {u}
  {
    var t := s + [u];
    assert forall i :: 0 <= i < |s| ==> t[i] == s[i];
    assert t[|s|] == u;
  }

  lemma ElementsCons(u: U16, s: seq<U16>)
    ensures Elements([u] + s) == {u} + Elements(s)
  {
    var t := [u] + s;
    assert forall i :: 0 <= i < |s| ==> t[i + 1] == s[i];
    assert t[0] == u;
  }

  lemma IncreasingCons(m: U16, rest: seq<U16>)
    requires Increasing(rest) && forall u <- Elements(rest) :: m < u
    ensures Increasing([m] + rest)
  {
    var t := [m] + rest;
    forall i, j | 0 <= i < j < |t|
      ensures t[i] < t[j]
    {
      assert rest[j - 1] in Elements(rest);
    }
  }

  lemma ElementsConcat(a: seq<U16>, b: seq<U16>)
    ensures Elements(a + b) == Elements(a) + Elements(b)
  {
    var t := a + b;
    assert forall i :: 0 <= i < |a| ==> t[i] == a[i];
    assert forall i :: 0 <= i < |b| ==> t[|a| + i] == b[i];
  }

  lemma {:induction false} AscendingLength(s: set<U16>)
    ensures |Ascending(s)| == |s|
    decreases |s|
  {
    if s != {} {
      AscendingLength(s - {MinOf(s)});
    }
  }

  lemma {:induction false} AscendingElements(s: set<U16>)
    ensures Elements(Ascending(s)) == s
    decreases |s|
  {
    if s != {} {
      var m := MinOf(s);
      AscendingElements(s - {m});
      ElementsCons(m, Ascending(s - {m}));
      assert s == {m} + (s - {m});
    }
  }

  lemma {:induction false} AscendingIncreases(s: set<U16>)
    ensures Increasing(Ascending(s))
    decreases |s|
  {
    if s != {} {
      var m := MinOf(s);
      AscendingIncreases(s - {m});
      AscendingElements(s - {m});
      assert forall u <- s - {m} :: m < u;
      IncreasingCons(m, Ascending(s - {m}));
    }
  }

  /** Iteration visits every member once, in ascending order. */
  lemma AscendingFacts(s: set<U16>)
    ensures Elements(Ascending(s)) == s && Increasing(Ascending(s)) && |Ascending(s)| == |s|
  {
    AscendingElements(s);
    AscendingIncreases(s);
    AscendingLength(s);
  }

  function AtLeast(s: set<U16>, lo: nat): set<U16> {
    set u | u in s && lo <= u
  }

  lemma AscendingStep(s: set<U16>, lo: U16)
    ensures Ascending(AtLeast(s, lo)) == (if lo in s then [lo] else []) + Ascending(AtLeast(s, lo + 1))
  {
    var here, next := AtLeast(s, lo), AtLeast(s, lo + 1);
    if lo in s {
      assert IsMin(here, lo) && MinOf(here) == lo;
      assert here - {lo} == next;
    } else {
      assert here == next;
    }
  }

  lemma {:induction false} EffectsOfReleases(down: set<U16>, us: seq<U16>)
    ensures Effects(down, Releases(us)) == down - Elements(us)
  {
    if us != [] {
      var n := |us| - 1;
      EffectsOfReleases(down, us[..n]);
      assert Releases(us)[..n] == Releases(us[..n]);
      assert forall i :: 0 <= i < n ==> us[..n][i] == us[i];
      assert Elements(us) == Elements(us[..n]) + {us[n]};
    }
  }

  lemma {:induction false} EffectsOfPresses(down: set<U16>, us: seq<U16>)
    ensures Effects(down, Presses(us)) == down + Elements(us)
  {
    if us != [] {
      var n := |us| - 1;
      EffectsOfPresses(down, us[..n]);
      assert Presses(us)[..n] == Presses(us[..n]);
      assert forall i :: 0 <= i < n ==> us[..n][i] == us[i];
      assert Elements(us) == Elements(us[..n]) + {us[n]};
    }
  }

  lemma {:induction false} EffectsConcat(down: set<U16>, a: seq<Action>, b: seq<Action>)
    ensures Effects(down, a + b) == Effects(Effects(down, a), b)
    decreases |b|
  {
    if b == [] {
      assert a + b == a;
    } else {
      var n := |b| - 1;
      EffectsConcat(down, a, b[..n]);
      assert (a + b)[..|a + b| - 1] == a + b[..n];
    }
  }

  // ----- The operations -----

  /** `press`: refused when 32 other keys are held. */
  function Pressed(held: set<U16>, u: U16): set<U16> {
    if |held| >= MAX_HELD_KEYS && u !in held then held else held + {u}
  }

  /** The valid usages of a snapshot, in order. */
  function ValidOnes(keys: seq<U16>): seq<U16> {
    if keys == [] then []
    else (if IsValidUsage(keys[0]) then [keys[0]] else []) + ValidOnes(keys[1..])
  }

  /** The snapshot as a key set: its first 32 valid usages. */
  function Target(keys: seq<U16>): set<U16> {
    var v := ValidOnes(keys);
    Elements(v[..Min(|v|, MAX_HELD_KEYS)])
  }

  function ReconcileActions(held: set<U16>, target: set<U16>): seq<Action> {
    Releases(Ascending(held - target)) + Presses(Ascending(target - held))
  }

  /** Bit `i` of a mask. */
  predicate HasBit(m: nat, i: nat) {
    if i == 0 then m % 2 == 1 else HasBit(m / 2, i - 1)
  }

  /** Bitwise and. */
  function And(a: nat, b: nat): nat {
    if a == 0 || b == 0 then 0 else 2 * And(a / 2, b / 2) + if a % 2 == 1 && b % 2 == 1 then 1 else 0
  }

  /** Whether a modifier key is claimed down by a bitmask. */
  predicate Claimed(m: nat, u: U16)
    requires IsModifier(u)
  {
    HasBit(m, u - FIRST_MODIFIER)
  }

  /** The modifiers held but not claimed by `m`. */
  function Unclaimed(held: set<U16>, m: nat): set<U16> {
    set u | u in held && IsModifier(u) && !Claimed(m, u)
  }

  function ModifierActions(held: set<U16>, m: nat): seq<Action> {
    Releases(Ascending(Unclaimed(held, m)))
  }

  function Modifiers(held: set<U16>): set<U16> {
    set u | u in held && IsModifier(u)
  }

  /** `release_all`: non-modifiers first, then modifiers, each ascending. */
  function ReleaseAllActions(held: set<U16>): seq<Action> {
    Releases(Ascending(held - Modifiers(held)) + Ascending(Modifiers(held)))
  }

  /** The modifier bitmask implied by the held keys, from modifier `i` up. */
  function MaskFrom(held: set<U16>, i: nat): nat
    decreases MODIFIER_COUNT - i
  {
    if i >= MODIFIER_COUNT then 0
    else (if FIRST_MODIFIER + i in held then 1 else 0) + 2 * MaskFrom(held, i + 1)
  }

  function Mask(held: set<U16>): nat {
    MaskFrom(held, 0)
  }

  // ----- Reconciliation against a snapshot -----

  /** The actions take any set of keys that matches the tracked one to the target. */
  lemma ReconcileReachesTarget(held: set<U16>, target: set<U16>)
    ensures Effects(held, ReconcileActions(held, target)) == target
    ensures |ReconcileActions(held, target)| == |held - target| + |target - held|
  {
    AscendingFacts(held - target);
    AscendingFacts(target - held);
    EffectsOfReleases(held, Ascending(held - target));
    EffectsOfPresses(held - (held - target), Ascending(target - held));
    EffectsConcat(held, Releases(Ascending(held - target)), Presses(Ascending(target - held)));
    assert held - (held - target) + (target - held) == target;
  }

  /** No key is pressed while one that should be up is still down. */
  lemma ReleasesComeFirst(held: set<U16>, target: set<U16>, i: nat, j: nat)
    requires i < j < |ReconcileActions(held, target)|
    ensures ReconcileActions(held, target)[i].Press? ==> ReconcileActions(held, target)[j].Press?
  {
  }

  /** Reconciling twice against the same snapshot does nothing the second time. */
  lemma ReconcileIsIdempotent(target: set<U16>)
    ensures ReconcileActions(target, target) == []
  {
    var none: set<U16> := {};
    assert target - target == none;
    AscendingFacts(none);
  }

  function Distance(a: set<U16>, b: set<U16>): nat {
    |a - b| + |b - a|
  }

  lemma SubsetSize(a: set<U16>, b: set<U16>)
    requires a <= b
    ensures |a| <= |b|
  {
    assert a + (b - a) == b;
  }

  lemma MinusOne(x: set<U16>, u: U16)
    ensures |x| == |x - {u}| + if u in x then 1 else 0
  {
    if u in x {
      assert x == x - {u} + {u};
    } else {
      assert x == x - {u};
    }
  }

  lemma OneActionMovesOne(a: set<U16>, b: set<U16>, act: Action)
    ensures Distance(a, b) <= Distance(Effect(a, act), b) + 1
  {
    var u := act.usage;
    var a' := Effect(a, act);
    assert a' - b - {u} == a - b - {u} && b - a' - {u} == b - a - {u};
    MinusOne(a - b, u);
    MinusOne(b - a, u);
    MinusOne(a' - b, u);
    MinusOne(b - a', u);
  }

  /** No shorter list of actions could have done it. */
  lemma {:induction false} ReconcileIsMinimal(held: set<U16>, target: set<U16>, actions: seq<Action>)
    requires Effects(held, actions) == target
    ensures |ReconcileActions(held, target)| <= |actions|
  {
    ReconcileReachesTarget(held, target);
    DistanceBound(held, target, actions);
    assert target - target == {};
  }

  lemma {:induction false} DistanceBound(held: set<U16>, target: set<U16>, actions: seq<Action>)
    ensures Distance(held, target) <= Distance(Effects(held, actions), target) + |actions|
    decreases |actions|
  {
    if actions != [] {
      var pre := actions[..|actions| - 1];
      DistanceBound(held, target, pre);
      OneActionMovesOne(Effects(held, pre), target, actions[|actions| - 1]);
    }
  }

  lemma {:induction false} TargetIsBounded(keys: seq<U16>)
    ensures |Target(keys)| <= MAX_HELD_KEYS
  {
    var v := ValidOnes(keys);
    ElementsBound(v[..Min(|v|, MAX_HELD_KEYS)]);
  }

  lemma {:induction false} ValidOnesOfValid(keys: seq<U16>)
    requires forall i :: 0 <= i < |keys| ==> IsValidUsage(keys[i])
    ensures ValidOnes(keys) == keys
  {
    if keys != [] {
      ValidOnesOfValid(keys[1..]);
      assert [keys[0]] + keys[1..] == keys;
    }
  }

  lemma {:induction false} DistinctSize(s: seq<U16>)
    requires Increasing(s)
    ensures |Elements(s)| == |s|
  {
    if s != [] {
      var n := |s| - 1;
      DistinctSize(s[..n]);
      ElementsSnoc(s[..n], s[n]);
      assert s[..n] + [s[n]] == s;
      assert s[n] !in Elements(s[..n]);
    }
  }

  /** A snapshot of at most 32 distinct valid usages becomes exactly those keys. */
  lemma TargetOfValid(keys: seq<U16>)
    requires Increasing(keys) && |keys| <= MAX_HELD_KEYS && forall i :: 0 <= i < |keys| ==> IsValidUsage(keys[i])
    ensures Target(keys) == Elements(keys) && |Target(keys)| == |keys|
  {
    ValidOnesOfValid(keys);
    DistinctSize(keys);
    assert keys[..|keys|] == keys;
  }

  lemma {:induction false} ElementsBound(s: seq<U16>)
    ensures |Elements(s)| <= |s|
  {
    if s != [] {
      var n := |s| - 1;
      ElementsBound(s[..n]);
      assert forall i :: 0 <= i < n ==> s[..n][i] == s[i];
      assert Elements(s) == Elements(s[..n]) + {s[n]};
    }
  }

  // ----- Reconciliation against a bitmask -----

  lemma {:induction false} AndBits(a: nat, b: nat, i: nat)
    ensures HasBit(And(a, b), i) <==> HasBit(a, i) && HasBit(b, i)
    decreases i
  {
    if a == 0 || b == 0 {
      ZeroBits(i);
    } else if i > 0 {
      AndBits(a / 2, b / 2, i - 1);
      assert And(a, b) / 2 == And(a / 2, b / 2);
    }
  }

  lemma {:induction false} ZeroBits(i: nat)
    ensures !HasBit(0, i)
  {
    if i > 0 {
      ZeroBits(i - 1);
    }
  }

  lemma {:induction false} MaskBits(held: set<U16>, from: nat, i: nat)
    ensures HasBit(MaskFrom(held, from), i) <==> from + i < MODIFIER_COUNT && FIRST_MODIFIER + from + i in held
    decreases MODIFIER_COUNT - from
  {
    if from >= MODIFIER_COUNT {
      ZeroBits(i);
    } else if i > 0 {
      MaskBits(held, from + 1, i - 1);
      assert MaskFrom(held, from) / 2 == MaskFrom(held, from + 1);
    }
  }

  /** Masks with the same bits are the same mask. */
  lemma {:induction false} SameBits(a: nat, b: nat)
    requires forall i :: 0 <= i ==> (HasBit(a, i) <==> HasBit(b, i))
    ensures a == b
    decreases a + b
  {
    if a > 0 || b > 0 {
      assert HasBit(a, 0) <==> HasBit(b, 0);
      forall i | 0 <= i
        ensures HasBit(a / 2, i) <==> HasBit(b / 2, i)
      {
        assert HasBit(a, i + 1) <==> HasBit(b, i + 1);
      }
      SameBits(a / 2, b / 2);
    }
  }

  lemma MaskBitLeft(held: set<U16>, m: nat, i: nat)
    ensures HasBit(Mask(held - Unclaimed(held, m)), i) <==> HasBit(And(Mask(held), m), i)
  {
    var left := held - Unclaimed(held, m);
    MaskBits(left, 0, i);
    MaskBits(held, 0, i);
    AndBits(Mask(held), m, i);
    if i < MODIFIER_COUNT {
      var u: U16 := FIRST_MODIFIER + i;
      assert IsModifier(u) && (Claimed(m, u) <==> HasBit(m, i));
    }
  }

  /** A bitmask only ever releases, and leaves exactly the held modifiers it claims. */
  lemma MaskLeavesConjunction(held: set<U16>, m: nat)
    ensures Effects(held, ModifierActions(held, m)) == held - Unclaimed(held, m)
    ensures Mask(held - Unclaimed(held, m)) == And(Mask(held), m)
  {
    AscendingFacts(Unclaimed(held, m));
    EffectsOfReleases(held, Ascending(Unclaimed(held, m)));
    forall i | 0 <= i
      ensures HasBit(Mask(held - Unclaimed(held, m)), i) <==> HasBit(And(Mask(held), m), i)
    {
      MaskBitLeft(held, m, i);
    }
    SameBits(Mask(held - Unclaimed(held, m)), And(Mask(held), m));
  }

  // ----- Releasing everything -----

  lemma ReleaseAllClears(held: set<U16>)
    ensures Effects(held, ReleaseAllActions(held)) == {}
    ensures |ReleaseAllActions(held)| == |held|
  {
    var mods := Modifiers(held);
    var a, b := Ascending(held - mods), Ascending(mods);
    AscendingFacts(held - mods);
    AscendingFacts(mods);
    EffectsOfReleases(held, a + b);
    ElementsConcat(a, b);
    assert held - mods + mods == held;
    assert |held - mods| + |mods| == |held|;
  }

  /** The order `release_all` sorts by: (is a modifier, usage). */
  predicate Before(a: U16, b: U16) {
    (!IsModifier(a) && IsModifier(b)) || (IsModifier(a) == IsModifier(b) && a < b)
  }

  function InsertKey(u: U16, s: seq<U16>): seq<U16> {
    if s == [] || !Before(s[0], u) then [u] + s else [s[0]] + InsertKey(u, s[1..])
  }

  /** `sort_by_key` on that order. */
  function SortKeys(s: seq<U16>): seq<U16> {
    if s == [] then [] else InsertKey(s[0], SortKeys(s[1..]))
  }

  ghost predicate InReleaseOrder(s: seq<U16>) {
    forall i, j :: 0 <= i < j < |s| ==> Before(s[i], s[j])
  }

  lemma {:induction false} InsertKeyElements(u: U16, s: seq<U16>)
    ensures Elements(InsertKey(u, s)) == {u} + Elements(s)
  {
    if s == [] || !Before(s[0], u) {
      ElementsCons(u, s);
    } else {
      InsertKeyElements(u, s[1..]);
      ElementsCons(s[0], InsertKey(u, s[1..]));
      ElementsCons(s[0], s[1..]);
      assert [s[0]] + s[1..] == s;
    }
  }

  lemma ReleaseOrderCons(u: U16, s: seq<U16>)
    requires InReleaseOrder(s) && forall v <- Elements(s) :: Before(u, v)
    ensures InReleaseOrder([u] + s)
  {
    var t := [u] + s;
    forall i, j | 0 <= i < j < |t|
      ensures Before(t[i], t[j])
    {
      assert s[j - 1] in Elements(s);
    }
  }

  lemma {:induction false} InsertKeyInOrder(u: U16, s: seq<U16>)
    requires InReleaseOrder(s) && u !in Elements(s)
    ensures InReleaseOrder(InsertKey(u, s))
  {
    if s == [] || !Before(s[0], u) {
      forall v <- Elements(s)
        ensures Before(u, v)
      {
        assert s[0] in Elements(s);
      }
      ReleaseOrderCons(u, s);
    } else {
      var rest := s[1..];
      assert forall i :: 0 <= i < |rest| ==> rest[i] == s[i + 1];
      InsertKeyInOrder(u, rest);
      InsertKeyElements(u, rest);
      ReleaseOrderCons(s[0], InsertKey(u, rest));
    }
  }

  lemma {:induction false} SortKeysFacts(s: seq<U16>)
    requires Increasing(s)
    ensures InReleaseOrder(SortKeys(s)) && Elements(SortKeys(s)) == Elements(s)
  {
    if s != [] {
      var rest := s[1..];
      assert forall i :: 0 <= i < |rest| ==> rest[i] == s[i + 1];
      SortKeysFacts(rest);
      InsertKeyInOrder(s[0], SortKeys(rest));
      InsertKeyElements(s[0], SortKeys(rest));
      ElementsCons(s[0], rest);
      assert [s[0]] + rest == s;
    }
  }

  lemma FirstIsFirst(a: seq<U16>, b: seq<U16>)
    requires a != [] && InReleaseOrder(a) && InReleaseOrder(b) && Elements(a) == Elements(b)
    ensures b != [] && a[0] == b[0]
  {
    assert a[0] in Elements(b);
    var i :| 0 <= i < |b| && b[i] == a[0];
    assert b[0] in Elements(a);
    var j :| 0 <= j < |a| && a[j] == b[0];
  }

  lemma TailElements(a: seq<U16>)
    requires a != [] && InReleaseOrder(a)
    ensures Elements(a[1..]) == Elements(a) - {a[0]} && InReleaseOrder(a[1..])
  {
    ElementsCons(a[0], a[1..]);
    assert [a[0]] + a[1..] == a;
    assert a[0] !in Elements(a[1..]);
  }

  /** The order leaves no choice: a set of keys has one listing. */
  lemma {:induction false} ListingIsUnique(a: seq<U16>, b: seq<U16>)
    requires InReleaseOrder(a) && InReleaseOrder(b) && Elements(a) == Elements(b)
    ensures a == b
    decreases |a|
  {
    assert b == [] || b[0] in Elements(b);
    if a != [] {
      FirstIsFirst(a, b);
      TailElements(a);
      TailElements(b);
      ListingIsUnique(a[1..], b[1..]);
    }
  }

  lemma KeysThenModifiers(a: seq<U16>, b: seq<U16>)
    requires Increasing(a) && (forall u <- Elements(a) :: !IsModifier(u))
    requires Increasing(b) && (forall u <- Elements(b) :: IsModifier(u))
    ensures InReleaseOrder(a + b)
  {
    assert forall i :: 0 <= i < |a| ==> a[i] in Elements(a);
    assert forall i :: 0 <= i < |b| ==> b[i] in Elements(b);
  }

  /** Sorting the held keys lists the non-modifiers and then the modifiers, each ascending. */
  lemma SortSplitsModifiers(held: set<U16>)
    ensures SortKeys(Ascending(held)) == Ascending(held - Modifiers(held)) + Ascending(Modifiers(held))
  {
    var mods := Modifiers(held);
    var a, b := Ascending(held - mods), Ascending(mods);
    AscendingFacts(held);
    AscendingFacts(held - mods);
    AscendingFacts(mods);
    ElementsConcat(a, b);
    assert held - mods + mods == held;
    KeysThenModifiers(a, b);
    SortKeysFacts(Ascending(held));
    ListingIsUnique(SortKeys(Ascending(held)), a + b);
  }

  /** No modifier goes up before a key it may be modifying. */
  lemma ModifiersGoLast(held: set<U16>, i: nat, j: nat)
    requires i < j < |ReleaseAllActions(held)| && IsModifier(ReleaseAllActions(held)[i].usage)
    ensures IsModifier(ReleaseAllActions(held)[j].usage)
  {
    var mods := Modifiers(held);
    AscendingFacts(held - mods);
    AscendingFacts(mods);
    KeysThenModifiers(Ascending(held - mods), Ascending(mods));
  }

  /** One step of the pass over the modifier keys: what is found and what is still to come. */
  lemma StaleStep(held: set<U16>, m: nat, i: nat)
    requires i < MODIFIER_COUNT
    ensures Ascending(AtLeast(Unclaimed(held, m), FIRST_MODIFIER + i))
         == (if FIRST_MODIFIER + i in held && !HasBit(m, i) then [(FIRST_MODIFIER + i) as U16] else [])
            + Ascending(AtLeast(Unclaimed(held, m), FIRST_MODIFIER + i + 1))
  {
    AscendingStep(Unclaimed(held, m), FIRST_MODIFIER + i);
    StaleExactly(held, m, i);
  }

  lemma StaleExactly(held: set<U16>, m: nat, i: nat)
    requires i < MODIFIER_COUNT
    ensures FIRST_MODIFIER + i in Unclaimed(held, m) <==> FIRST_MODIFIER + i in held && !HasBit(m, i)
  {
    assert Claimed(m, FIRST_MODIFIER + i) == HasBit(m, i);
  }

  /** What has been found, followed by what is still to come, stays the whole list. */
  lemma StaleKeepsWhole(held: set<U16>, m: nat, i: nat, gone: seq<U16>, whole: seq<U16>)
    requires i < MODIFIER_COUNT
    requires gone + Ascending(AtLeast(Unclaimed(held, m), FIRST_MODIFIER + i)) == whole
    ensures gone + (if FIRST_MODIFIER + i in held && !HasBit(m, i) then [(FIRST_MODIFIER + i) as U16] else [])
            + Ascending(AtLeast(Unclaimed(held, m), FIRST_MODIFIER + i + 1)) == whole
  {
    StaleStep(held, m, i);
  }

  class Keys {
    var held: set<U16>

    constructor ()
      ensures held == {}
    {
      held := {};
    }

    method PressKey(u: U16) returns (added: bool)
      modifies this
      ensures held == Pressed(old(held), u)
      ensures added <==> held != old(held)
    {
      if |held| >= MAX_HELD_KEYS && u !in held {
        return false;
      }
      added := u !in held;
      held := held + {u};
    }

    method ReleaseKey(u: U16) returns (was: bool)
      modifies this
      ensures held == old(held) - {u}
      ensures was <==> u in old(held)
    {
      was := u in held;
      held := held - {u};
    }

    /** `reconcile`: filter and cap the snapshot, then list releases and presses. */
    method Reconcile(snapshot: seq<U16>) returns (actions: seq<Action>)
      modifies this
      ensures held == Target(snapshot)
      ensures actions == ReconcileActions(old(held), Target(snapshot))
    {
      var v := ValidOnes(snapshot);
      var target := Elements(v[..Min(|v|, MAX_HELD_KEYS)]);
      var up, down := Ascending(held - target), Ascending(target - held);
      actions := [];
      for i := 0 to |up|
        invariant actions == Releases(up[..i])
      {
        assert up[..i + 1] == up[..i] + [up[i]];
        actions := actions + [Release(up[i])];
      }
      assert up[..|up|] == up;
      for i := 0 to |down|
        invariant actions == Releases(up) + Presses(down[..i])
      {
        assert down[..i + 1] == down[..i] + [down[i]];
        assert Presses(down[..i + 1]) == Presses(down[..i]) + [Press(down[i])];
        actions := actions + [Press(down[i])];
      }
      assert down[..|down|] == down;
      held := target;
    }

    /** The pass of `reconcile_modifiers` over the eight modifier keys. */
    method StaleModifiers(m: nat) returns (gone: seq<U16>)
      ensures gone == Ascending(Unclaimed(held, m))
    {
      ghost var stale := Unclaimed(held, m);
      gone := [];
      assert AtLeast(stale, FIRST_MODIFIER) == stale;
      assert gone + Ascending(stale) == Ascending(stale);
      for i := 0 to MODIFIER_COUNT
        invariant gone + Ascending(AtLeast(stale, FIRST_MODIFIER + i)) == Ascending(stale)
      {
        var u: U16 := FIRST_MODIFIER + i;
        StaleKeepsWhole(held, m, i, gone, Ascending(stale));
        if u in held && !HasBit(m, i) {
          gone := gone + [u];
        } else {
          assert gone + [] == gone;
        }
      }
      assert AtLeast(stale, FIRST_MODIFIER + MODIFIER_COUNT) == {};
      assert gone + [] == gone;
    }

    /** `reconcile_modifiers`: find the stale modifiers, then remove each. */
    method ReconcileModifiers(m: nat) returns (actions: seq<Action>)
      modifies this
      ensures held == old(held) - Unclaimed(old(held), m)
      ensures actions == ModifierActions(old(held), m)
    {
      var gone := StaleModifiers(m);
      AscendingFacts(Unclaimed(held, m));
      actions := Releases(gone);
      for i := 0 to |gone|
        invariant held == old(held) - Elements(gone[..i])
      {
        assert gone[..i + 1] == gone[..i] + [gone[i]];
        ElementsSnoc(gone[..i], gone[i]);
        held := held - {gone[i]};
      }
      assert gone[..|gone|] == gone;
    }

    /** `release_all`: list the held keys, sort them by (is a modifier, usage), clear. */
    method ReleaseAll() returns (actions: seq<Action>)
      modifies this
      ensures held == {}
      ensures actions == ReleaseAllActions(old(held))
    {
      var usages := SortKeys(Ascending(held));
      SortSplitsModifiers(held);
      held := {};
      actions := Releases(usages);
    }
  }
}
