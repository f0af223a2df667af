/**
 * Input events and their effect on the ripple set (Pond::process_event,
 * Pond::touch, Pond::release, Program::tick). Only a press of the Action
 * button does anything: it appends a fresh ripple. Release and every other
 * event are no-ops. A batch is handled front to back.
 */
module Events {
  import opened Ripples

  datatype ButtonState = Pressed | Released
  datatype Button = Action | OtherButton
  /** The host's events, reduced to what process_event distinguishes. */
  datatype Event = ButtonEvent(state: ButtonState, button: Button) | OtherEvent

  predicate IsActionPress(e: Event) {
    e == ButtonEvent(Pressed, Action)
  }

  /**
   * The ripples after process_event(e): the old ones kept in place, and one
   * fresh ripple after them exactly when e is an Action press.
   */
  function AfterEvent(rs: seq<Ripple>, e: Event): (r: seq<Ripple>)
    ensures |r| == |rs| + (if IsActionPress(e) then 1 else 0)
    ensures r[..|rs|] == rs
    ensures forall k :: |rs| <= k < |r| ==> r[k] == NewRipple()
  {
    if IsActionPress(e) then rs + [NewRipple()] else rs
  }

  /**
   * The ripples after handling the batch es in order: the old ones stay in
   * front, and the list grows by exactly the number of Action presses.
   */
  function AfterEvents(rs: seq<Ripple>, es: seq<Event>): (r: seq<Ripple>)
    ensures |r| == |rs| + PressCount(es)
    ensures r[..|rs|] == rs
    decreases |es|
  {
    if es == [] then rs else AfterEvents(AfterEvent(rs, es[0]), es[1..])
  }

  /** Number of Action presses in a batch. */
  function PressCount(es: seq<Event>): nat {
    if es == [] then 0 else (if IsActionPress(es[0]) then 1 else 0) + PressCount(es[1..])
  }

  /** n fresh ripples. */
  function Spawned(n: nat): seq<Ripple> {
    seq(n, _ => NewRipple())
  }

  /** Handling a batch in order is handling its first part, then the rest. */
  lemma {:induction false} AfterEventsConcat(rs: seq<Ripple>, a: seq<Event>, b: seq<Event>)
    ensures AfterEvents(rs, a + b) == AfterEvents(AfterEvents(rs, a), b)
    decreases |a|
  {
    if a == [] {
      assert a + b == b;
    } else {
      assert (a + b)[0] == a[0];
      assert (a + b)[1..] == a[1..] + b;
      AfterEventsConcat(AfterEvent(rs, a[0]), a[1..], b);
    }
  }

  /**
   * A batch keeps every existing ripple in place and appends one fresh
   * ripple per Action press, and nothing else.
   */
  lemma {:induction false} AfterEventsSpawns(rs: seq<Ripple>, es: seq<Event>)
    ensures AfterEvents(rs, es) == rs + Spawned(PressCount(es))
    decreases |es|
  {
    if es != [] {
      var rs' := AfterEvent(rs, es[0]);
      AfterEventsSpawns(rs', es[1..]);
      if IsActionPress(es[0]) {
        assert rs' + Spawned(PressCount(es[1..])) == rs + Spawned(PressCount(es));
      } else {
        assert rs' == rs;
      }
    }
  }
}
