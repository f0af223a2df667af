/**
 * Ripple lifecycle (Ripple::new, Ripple::tick) and the ripple-set step
 * that render performs each frame: every ripple is ticked and only the
 * survivors are kept, in their original order.
 *
 * The source stores `age` as an f64, but it starts at 0.0 and only ever
 * grows by 1.0, so every value it takes is a whole number; it is a `nat` here.
 */
module Ripples {
  import opened Wrappers
  import opened Grid
  import opened Epicenter

  const RIPPLE_MAX_AGE: nat := 500

  datatype Ripple = Ripple(age: nat, epicenter: Coordinate, epicenterWidth: nat)

  /** A fresh ripple: age 0, centred on the finger's anchor, FINGER_WIDTH wide. */
  function NewRipple(): (r: Ripple)
    ensures r.age == 0 && r.age < RIPPLE_MAX_AGE
    ensures r.epicenter == Coordinate(FINGER_X, FINGER_Y) && r.epicenter in RippleEpicenter()
    ensures r.epicenterWidth == FINGER_WIDTH
  {
    EpicenterMembership(Coordinate(FINGER_X, FINGER_Y));
    Ripple(0, Coordinate(FINGER_X, FINGER_Y), FINGER_WIDTH)
  }

  /** One frame of a ripple's life: None once it has reached RIPPLE_MAX_AGE. */
  function Tick(r: Ripple): (o: Option<Ripple>)
    ensures o.None? <==> r.age >= RIPPLE_MAX_AGE
    ensures o.Some? ==> o.value.age == r.age + 1
    ensures o.Some? ==> o.value.epicenter == r.epicenter && o.value.epicenterWidth == r.epicenterWidth
  {
    if r.age >= RIPPLE_MAX_AGE then None
    else Some(Ripple(r.age + 1, r.epicenter, r.epicenterWidth))
  }

  /** n successive ticks, stopping at the first None. */
  function TickTimes(r: Ripple, n: nat): Option<Ripple>
    decreases n
  {
    if n == 0 then Some(r)
    else match Tick(r)
      case None => None
      case Some(r') => TickTimes(r', n - 1)
  }

  /** A ripple that has not passed RIPPLE_MAX_AGE survives exactly the ticks that keep it at or below it. */
  lemma {:induction false} TickTimesLifetime(r: Ripple, n: nat)
    requires r.age <= RIPPLE_MAX_AGE
    ensures TickTimes(r, n).Some? <==> r.age + n <= RIPPLE_MAX_AGE
    ensures TickTimes(r, n).Some? ==> TickTimes(r, n).value == r.(age := r.age + n)
    decreases n
  {
    if n > 0 && r.age < RIPPLE_MAX_AGE {
      TickTimesLifetime(Tick(r).value, n - 1);
    }
  }

  /** A new ripple survives 500 ticks and the 501st retires it. */
  lemma NewRippleLifetime()
    ensures TickTimes(NewRipple(), RIPPLE_MAX_AGE) == Some(NewRipple().(age := RIPPLE_MAX_AGE))
    ensures TickTimes(NewRipple(), RIPPLE_MAX_AGE + 1).None?
  {
    TickTimesLifetime(NewRipple(), RIPPLE_MAX_AGE);
    TickTimesLifetime(NewRipple(), RIPPLE_MAX_AGE + 1);
  }

  /** The ripple-set step: `ripples.iter().filter_map(|r| r.tick()).collect()`. */
  function TickAll(rs: seq<Ripple>): (out: seq<Ripple>)
    ensures |out| <= |rs|
  {
    if rs == [] then []
    else match Tick(rs[0])
      case None => TickAll(rs[1..])
      case Some(r) => [r] + TickAll(rs[1..])
  }

  /** Reference definition: the ripples still active... */
  function Active(rs: seq<Ripple>): seq<Ripple> {
    if rs == [] then []
    else if rs[0].age < RIPPLE_MAX_AGE then [rs[0]] + Active(rs[1..])
    else Active(rs[1..])
  }

  /** ...each one frame older. */
  function Aged(rs: seq<Ripple>): seq<Ripple> {
    seq(|rs|, k requires 0 <= k < |rs| => rs[k].(age := rs[k].age + 1))
  }

  /** The step keeps exactly the active ripples, in order, each aged by one. */
  lemma {:induction false} TickAllIsAgedActive(rs: seq<Ripple>)
    ensures TickAll(rs) == Aged(Active(rs))
  {
    if rs != [] {
      TickAllIsAgedActive(rs[1..]);
      if rs[0].age < RIPPLE_MAX_AGE {
        assert Active(rs) == [rs[0]] + Active(rs[1..]);
        assert Aged([rs[0]] + Active(rs[1..])) == [rs[0].(age := rs[0].age + 1)] + Aged(Active(rs[1..]));
      }
    }
  }

  /** The step works ripple by ripple, so it distributes over concatenation. */
  lemma {:induction false} TickAllAppend(a: seq<Ripple>, b: seq<Ripple>)
    ensures TickAll(a + b) == TickAll(a) + TickAll(b)
  {
    if a != [] {
      assert (a + b)[0] == a[0];
      assert (a + b)[1..] == a[1..] + b;
      TickAllAppend(a[1..], b);
    } else {
      assert a + b == b;
    }
  }

  /** Every survivor of the step is some input ripple, still active, aged by one; and every active input survives. */
  lemma {:induction false} TickAllMembers(rs: seq<Ripple>, r: Ripple)
    ensures r in TickAll(rs) <==>
      exists k :: 0 <= k < |rs| && rs[k].age < RIPPLE_MAX_AGE && r == rs[k].(age := rs[k].age + 1)
  {
    if rs != [] {
      TickAllMembers(rs[1..], r);
      if exists k :: 0 <= k < |rs| && rs[k].age < RIPPLE_MAX_AGE && r == rs[k].(age := rs[k].age + 1) {
        var k :| 0 <= k < |rs| && rs[k].age < RIPPLE_MAX_AGE && r == rs[k].(age := rs[k].age + 1);
        if k > 0 { assert rs[1..][k - 1] == rs[k]; }
      }
      if r in TickAll(rs[1..]) {
        var k :| 0 <= k < |rs[1..]| && rs[1..][k].age < RIPPLE_MAX_AGE && r == rs[1..][k].(age := rs[1..][k].age + 1);
        assert rs[k + 1] == rs[1..][k];
      }
    }
  }

  /** The loop render's iterator pipeline performs, proved against TickAll. */
  method StepRipples(rs: seq<Ripple>) returns (out: seq<Ripple>)
    ensures out == TickAll(rs)
  {
    out := [];
    var i := 0;
    while i < |rs|
      invariant 0 <= i <= |rs|
      invariant out == TickAll(rs[..i])
    {
      TickAllAppend(rs[..i], [rs[i]]);
      assert rs[..i + 1] == rs[..i] + [rs[i]];
      match Tick(rs[i]) {
        case None =>
        case Some(r) => out := out + [r];
      }
      i := i + 1;
    }
    assert rs[..i] == rs;
  }
}
