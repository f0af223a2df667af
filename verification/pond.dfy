/**
 * The pond itself (struct Pond): a dense row-major array of droplets and
 * the list of live ripples, with the operations the host drives --
 * construction, event handling, the epicenter update and the ripple step
 * of render.
 */
module PondModel {
  import opened Wrappers
  import opened Grid
  import opened Epicenter
  import opened Ripples
  import opened Events

  /** Heights are f32 in the source; they are only ever assigned, so `real` here. */
  const TOUCHED_TEMP: real := 0.0
  const DEF_TEMP: real := 0.5

  datatype Droplet = Droplet(height: real)

  /** The host's colour record; render only checks how many there are. */
  datatype Pixel = Pixel(red: real, green: real, blue: real, alpha: real)

  /**
   * Droplet i belongs to a grid cell that lies in the epicenter: the
   * filter_map over coord and the epicenter.contains filter. This holds
   * exactly at the indices of the epicenter's cells.
   */
  predicate InEpicenterAt(i: nat): (b: bool)
    ensures b <==> exists c :: c in RippleEpicenter() && Index(c.x, c.y) == Some(i)
  {
    IndexDeterminesCoord(i);
    match Coord(i)
    case None => false
    case Some(c) => IndexOfCoord(i); c in RippleEpicenter()
  }

  /** The droplets after update_epicenter(v): epicenter cells set to v, the rest kept. */
  function Updated(s: seq<Droplet>, v: real): (r: seq<Droplet>)
    ensures |r| == |s|
  {
    seq(|s|, k requires 0 <= k < |s| => if InEpicenterAt(k) then Droplet(v) else s[k])
  }

  /** Every epicenter cell of a full grid, found through Index, holds the new value. */
  lemma UpdatedSetsEpicenter(s: seq<Droplet>, v: real, c: Coordinate)
    requires |s| == CellCount()
    requires c in RippleEpicenter()
    ensures Index(c.x, c.y).Some?
    ensures Updated(s, v)[Index(c.x, c.y).value].height == v
  {
    EpicenterMembership(c);
    CoordOfIndex(c.x, c.y);
  }

  /** A droplet that is not the Index of any epicenter cell keeps its old value. */
  lemma UpdatedKeepsOthers(s: seq<Droplet>, v: real, i: nat)
    requires i < |s|
    requires forall c :: c in RippleEpicenter() ==> Index(c.x, c.y) != Some(i)
    ensures Updated(s, v)[i] == s[i]
  {
    if i < CellCount() {
      IndexOfCoord(i);
    }
  }

  /** Updating twice is updating with the second value: the last touch or release wins. */
  lemma UpdatedLastWins(s: seq<Droplet>, a: real, b: real)
    ensures Updated(Updated(s, a), b) == Updated(s, b)
  {
  }

  /** Touching then releasing restores a grid whose epicenter was at the released value. */
  lemma TouchReleaseRestores(s: seq<Droplet>, t: real, d: real)
    requires forall i :: 0 <= i < |s| && InEpicenterAt(i) ==> s[i] == Droplet(d)
    ensures Updated(Updated(s, t), d) == s
  {
    UpdatedLastWins(s, t, d);
  }

  class Pond {
    var droplets: array<Droplet>
    var ripples: seq<Ripple>

    /** One droplet per grid cell. */
    ghost predicate Valid()
      reads this
    {
      droplets.Length == CellCount()
    }

    /** Pond::new: every droplet at DEF_TEMP, no ripples. */
    constructor ()
      ensures Valid() && fresh(droplets)
      ensures forall i :: 0 <= i < droplets.Length ==> droplets[i] == Droplet(DEF_TEMP)
      ensures ripples == []
    {
      droplets := new Droplet[WIDTH * HEIGHT](_ => Droplet(DEF_TEMP));
      ripples := [];
    }

    /** Place the finger in the pond: one more ripple, droplets untouched. */
    method Touch()
      requires Valid()
      modifies this
      ensures Valid()
      ensures droplets == old(droplets) && droplets[..] == old(droplets[..])
      ensures ripples == old(ripples) + [NewRipple()]
    {
      ripples := ripples + [NewRipple()];
    }

    /** Release the finger: no effect on the pond. */
    method Release()
      requires Valid()
      ensures Valid()
      ensures droplets == old(droplets) && droplets[..] == old(droplets[..])
      ensures ripples == old(ripples)
    {
    }

    /** Only a press of the Action button touches the pond. */
    method ProcessEvent(e: Event)
      requires Valid()
      modifies this
      ensures Valid()
      ensures droplets == old(droplets) && droplets[..] == old(droplets[..])
      ensures ripples == AfterEvent(old(ripples), e)
    {
      match e {
        case ButtonEvent(Pressed, Action) => Touch();
        case _ =>
      }
    }

    /** Program::tick: the batch's events handled in order. */
    method Tick(events: seq<Event>)
      requires Valid()
      modifies this
      ensures Valid()
      ensures droplets == old(droplets) && droplets[..] == old(droplets[..])
      ensures ripples == AfterEvents(old(ripples), events)
      ensures |ripples| == |old(ripples)| + PressCount(events)
    {
      var i := 0;
      while i < |events|
        invariant 0 <= i <= |events|
        invariant droplets == old(droplets) && droplets[..] == old(droplets[..])
        invariant ripples == AfterEvents(old(ripples), events[..i])
      {
        AfterEventsConcat(old(ripples), events[..i], [events[i]]);
        assert events[..i + 1] == events[..i] + [events[i]];
        ProcessEvent(events[i]);
        i := i + 1;
      }
      assert events[..i] == events;
    }

    /** Overwrite every droplet whose cell is in the epicenter with newVal. */
    method UpdateEpicenter(newVal: real)
      requires Valid()
      modifies droplets
      ensures Valid()
      ensures droplets[..] == Updated(old(droplets[..]), newVal)
    {
      var epicenter := RippleEpicenter();
      var i := 0;
      while i < droplets.Length
        invariant 0 <= i <= droplets.Length
        invariant forall k :: 0 <= k < i ==> droplets[k] == Updated(old(droplets[..]), newVal)[k]
        invariant forall k :: i <= k < droplets.Length ==> droplets[k] == old(droplets[k])
      {
        match Coord(i) {
          case Some(c) =>
            if c in epicenter {
              droplets[i] := Droplet(newVal);
            }
          case None =>
        }
        i := i + 1;
      }
    }

    /**
     * The part of render before its compositing loop: the pixel buffer must
     * match the droplets, and the ripples are replaced by the survivors of
     * one tick.
     */
    method Render(pixels: array<Pixel>)
      requires Valid()
      requires pixels.Length == droplets.Length
      modifies this
      ensures Valid()
      ensures droplets == old(droplets) && droplets[..] == old(droplets[..])
      ensures ripples == TickAll(old(ripples))
      ensures |ripples| <= |old(ripples)|
    {
      ripples := StepRipples(ripples);
    }
  }
}
