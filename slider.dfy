/**
 * The widget instance as the object the source mutates: a ComponentInstance
 * with its options object, the thumb's css offsets, the events fired on its
 * owner and the drag fields that the handlers assign and delete. Each method
 * is proved to take the instance from Snapshot() to the matching step of
 * module Instance.
 */
module Widget {
  import opened Wrappers
  import opened SliderOptions
  import opened Instance
  import C = Conversion

  /** Identity of a bound owner element. */
  type ElementId = nat

  class Slider {
    const owner: ElementId
    var options: Options
    var left: Css
    var top: Css
    var trace: seq<Event>
    var startedValue: Option<real>
    var startedX: Option<Drag>
    var startedY: Option<Drag>
    /** Editing mode: the window move and up listeners are subscribed. */
    var editing: bool
    /** The press listeners are bound on the owner and the thumb. */
    var attached: bool

    function Snapshot(): State
      reads this
    {
      State(options, left, top, trace, startedValue, startedX, startedY, editing, attached)
    }

    ghost predicate Valid()
      reads this
    {
      Good(Snapshot())
    }

    /** new ComponentInstance(owner, options): bind the handlers, then update with the
        options merged over the defaults. */
    constructor (owner: ElementId, props: Props)
      requires PropsFit(props)
      ensures this.owner == owner
      ensures Snapshot() == Created(props)
    {
      this.owner := owner;
      options := map[];
      left, top := Unset, Unset;
      trace := [];
      startedValue, startedX, startedY := None, None, None;
      editing := false;
      attached := true;
      new;
      Update(Merged(props));
    }

    method SetOption(name: string, v: Val)
      requires Typed(options) && Fits(name, v)
      modifies this
      ensures Snapshot() == Instance.SetOption(old(Snapshot()), name, v)
      ensures old(Valid()) ==> Valid()
    {
      var previousValue := Get(options, name);
      options := options[name := v];
      if name == "value" {
        trace := trace + [Change(Get(options, "value"), previousValue)];
      }
      if name in NumericKeys {
        var position := ThumbStyle(options);
        if Flag(options, "vertical") {
          top := position;
        } else {
          left := position;
        }
      }
    }

    /** update(options): setOption for each own property, in order. */
    method Update(props: Props)
      requires Typed(options) && PropsFit(props)
      modifies this
      ensures Snapshot() == Instance.Update(old(Snapshot()), props)
      ensures old(Valid()) ==> Valid()
    {
      var i := 0;
      while i < |props|
        invariant 0 <= i <= |props|
        invariant Typed(options)
        invariant Instance.Update(old(Snapshot()), props) == Instance.Update(Snapshot(), props[i..])
        invariant old(Valid()) ==> Valid()
      {
        assert props[i..][0] == props[i] && props[i..][1..] == props[i + 1..];
        SetOption(props[i].0, props[i].1);
        i := i + 1;
      }
      if old(Valid()) {
        UpdateKeepsGood(old(Snapshot()), props);
      }
    }

    method GetOption(name: string) returns (result: Val)
      ensures result == Instance.GetOption(Snapshot(), name)
    {
      result := Get(options, name);
      if name == "value" && startedValue.Some? && startedValue.value != 0.0 {
        result := Num(startedValue.value);
      }
    }

    method SetEditMode(on: bool)
      modifies this
      ensures Snapshot() == Instance.SetEditMode(old(Snapshot()), on)
      ensures old(Valid()) ==> Valid()
    {
      if on {
        editing := true;
      } else {
        startedValue := None;
        editing := false;
        trace := trace + [Change(Get(options, "value"), Undefined)];
      }
    }

    method SetThumbPosition(position: real, trackLength: real)
      requires Valid() && ScaleDefined(options) && trackLength > 0.0
      modifies this
      ensures Snapshot() == Instance.SetThumbPosition(old(Snapshot()), position, trackLength)
      ensures Valid()
    {
      var thumbPosition := C.Clamp(position, trackLength);
      var vertical := Flag(options, "vertical");
      var lo, hi := Number(options, "min"), Number(options, "max");
      var value := C.RawValue(thumbPosition, trackLength, lo, hi, vertical);
      if !Flag(options, "smooth") {
        value := C.Round(value) as real;
        thumbPosition := C.PositionFor(value, trackLength, lo, hi, vertical);
      }
      options := options["value" := Num(value)];
      if vertical {
        top := Percent(100.0 * thumbPosition / trackLength);
      } else {
        left := Percent(100.0 * thumbPosition / trackLength);
      }
      trace := trace + [ThumbMove(value)];
    }

    /** onOwnerMouseDown: the press listener on the owner, which is delivered while bound. */
    method OnOwnerMouseDown(target: Target, offset: Point, ownerPos: Point, trackPos: Point, track: Point)
      requires Valid() && attached && CanSeek(Snapshot(), target, offset, ownerPos, trackPos, track)
      modifies this
      ensures Snapshot() == OwnerMouseDown(old(Snapshot()), target, offset, ownerPos, trackPos, track)
      ensures Valid()
    {
      var hit: Option<Point> := None;
      if Flag(options, "seekOnOwner") && target == OwnerElement {
        hit := Some(Point(offset.x - (trackPos.x - ownerPos.x), offset.y - (trackPos.y - ownerPos.y)));
      } else if Flag(options, "seekOnTrack") && target == TrackElement {
        hit := Some(offset);
      }
      if hit.Some? {
        if Flag(options, "vertical") {
          SetThumbPosition(hit.value.y, track.y);
        } else {
          SetThumbPosition(hit.value.x, track.x);
        }
        trace := trace + [Change(Get(options, "value"), Undefined)];
      }
    }

    /** onThumbMouseDown: the press listener on the thumb, which is delivered while bound. */
    method OnThumbMouseDown(page: Point, thumbPx: Point, track: Point)
      requires Valid() && attached && Along(track, Flag(options, "vertical")) > 0.0
      modifies this
      ensures Snapshot() == ThumbMouseDown(old(Snapshot()), page, thumbPx, track)
      ensures Valid()
    {
      startedValue := Some(Number(options, "value"));
      if Flag(options, "vertical") {
        var delta := page.y - C.ParseInt(thumbPx.y) as real;
        startedY := Some(Drag(delta, page.y - C.ParseInt(thumbPx.y) as real, track.y));
      } else {
        var delta := page.x - C.ParseInt(thumbPx.x) as real;
        startedX := Some(Drag(delta, page.x - C.ParseInt(thumbPx.x) as real, track.x));
      }
      SetEditMode(true);
    }

    /** onWindowMouseMove: the window listener, which is subscribed only in editing mode. */
    method OnWindowMouseMove(page: Point)
      requires Valid() && editing && ScaleDefined(options)
      modifies this
      ensures Snapshot() == WindowMouseMove(old(Snapshot()), page)
      ensures Valid()
    {
      var vertical := Flag(options, "vertical");
      var started := if vertical then startedY else startedX;
      if started.Some? {
        var d := started.value;
        var position := C.DragPosition(Along(page, vertical), d.trackPage, d.thumbDelta, d.trackLength);
        if position.Some? {
          SetThumbPosition(position.value, d.trackLength);
        }
      }
    }

    /** onWindowMouseUp: the window listener, which is subscribed only in editing mode. */
    method OnWindowMouseUp()
      requires Valid() && editing
      modifies this
      ensures Snapshot() == WindowMouseUp(old(Snapshot()))
      ensures Valid() && !editing
    {
      SetEditMode(false);
    }

    /** destroy(): unbind the press listeners and leave editing mode. */
    method Destroy()
      requires Valid()
      modifies this
      ensures Snapshot() == Instance.Destroy(old(Snapshot()))
      ensures Valid()
    {
      attached := false;
      SetEditMode(false);
    }
  }
}
