/**
 * One widget instance as a value: its options, the thumb's css offsets, the
 * events it has fired on its owner element, and the drag-session fields.
 * Each prototype method of the widget is a step function on this state;
 * pointer coordinates, the thumb's pixel offset, the track's size and the
 * elements' page offsets are parameters.
 */
module Instance {
  import opened Wrappers
  import opened SliderOptions
  import C = Conversion

  /** Events triggered on the owner: change(value[, previous]) and thumbmove(value). */
  datatype Event = Change(value: Val, previous: Val) | ThumbMove(moved: real)

  /** A css offset of the thumb (left or top): never written, a percentage, or NaN/Infinity. */
  datatype Css = Unset | Percent(p: real) | NotFinite

  /** What a thumb press captures on the active axis: _startedThumbDelta, _startedTrackPage
      and _startedTrackWidth/Height. */
  datatype Drag = Drag(thumbDelta: real, trackPage: real, trackLength: real)

  datatype Point = Point(x: real, y: real)

  /** The element a press on the owner landed on. */
  datatype Target = OwnerElement | TrackElement | OtherElement

  datatype State = State(
    options: Options,
    left: Css,
    top: Css,
    trace: seq<Event>,
    startedValue: Option<real>,
    startedX: Option<Drag>,
    startedY: Option<Drag>,
    editing: bool,
    attached: bool)

  /** The coordinate on the slider's axis. */
  function Along(p: Point, vertical: bool): real
  {
    if vertical then p.y else p.x
  }

  predicate DragOk(d: Option<Drag>)
  {
    d.Some? ==> d.value.trackLength > 0.0 && d.value.thumbDelta == d.value.trackPage
  }

  /** The invariant of a created instance: every known option present with its type, a drag
      start value only while editing, and captured drags on a visible track. */
  predicate Good(s: State)
  {
    && Typed(s.options) && Complete(s.options)
    && (s.startedValue.Some? ==> s.editing)
    && DragOk(s.startedX) && DragOk(s.startedY)
  }

  /** setThumbPosition divides by max - min only when it rounds. */
  predicate ScaleDefined(o: Options)
    requires Typed(o) && Complete(o)
  {
    Flag(o, "smooth") || Number(o, "min") != Number(o, "max")
  }

  /** The instance before create() assigns its options. */
  function Blank(): State
  {
    State(map[], Unset, Unset, [], None, None, None, false, true)
  }

  /** The offset setOption writes: value * 100 / (max - min), inverted when vertical;
      NaN or Infinity when an operand is missing or max == min. */
  function ThumbStyle(o: Options): Css
  {
    var v, lo, hi := Get(o, "value"), Get(o, "min"), Get(o, "max");
    if v.Num? && lo.Num? && hi.Num? && lo.n != hi.n then
      Percent(C.PercentFor(v.n, lo.n, hi.n, Flag(o, "vertical")))
    else NotFinite
  }

  /** setOption(name, v). */
  function SetOption(s: State, name: string, v: Val): (r: State)
    requires Typed(s.options) && Fits(name, v)
    ensures Typed(r.options)
    ensures Get(r.options, name) == v
    ensures forall k :: k != name ==> Get(r.options, k) == Get(s.options, k)
    ensures r.options.Keys == s.options.Keys + {name}
    ensures (r.startedValue, r.startedX, r.startedY, r.editing, r.attached)
         == (s.startedValue, s.startedX, s.startedY, s.editing, s.attached)
  {
    var o := s.options[name := v];
    var trace := if name == "value" then s.trace + [Change(v, Get(s.options, "value"))] else s.trace;
    if name in NumericKeys then
      if Flag(o, "vertical") then s.(options := o, trace := trace, top := ThumbStyle(o))
      else s.(options := o, trace := trace, left := ThumbStyle(o))
    else s.(options := o, trace := trace)
  }

  /** update(options): setOption for each own property in turn. */
  function Update(s: State, p: Props): (r: State)
    requires Typed(s.options) && PropsFit(p)
    ensures Typed(r.options)
    decreases |p|
  {
    if p == [] then s else Update(SetOption(s, p[0].0, p[0].1), p[1..])
  }

  /** new ComponentInstance(owner, options): create($.extend({}, defaultOptions, options)). */
  function Created(p: Props): State
    requires PropsFit(p)
  {
    Update(Blank(), Merged(p))
  }

  /** getOption(name): a truthy _startedValue stands in for the value during a drag. */
  function GetOption(s: State, name: string): Val
  {
    if name == "value" && s.startedValue.Some? && s.startedValue.value != 0.0
    then Num(s.startedValue.value)
    else Get(s.options, name)
  }

  /** setEditMode(on). */
  function SetEditMode(s: State, on: bool): State
  {
    if on then s.(editing := true)
    else s.(startedValue := None, editing := false,
            trace := s.trace + [Change(Get(s.options, "value"), Undefined)])
  }

  /** setThumbPosition(position, trackLength). */
  function SetThumbPosition(s: State, position: real, len: real): (r: State)
    requires Good(s) && ScaleDefined(s.options) && len > 0.0
    ensures Good(r) && ScaleDefined(r.options)
  {
    var o := s.options;
    var vertical := Flag(o, "vertical");
    var pl := C.Place(position, len, Number(o, "min"), Number(o, "max"), Flag(o, "smooth"), vertical);
    s.(options := o["value" := Num(pl.value)],
       left := if vertical then s.left else Percent(pl.percent),
       top := if vertical then Percent(pl.percent) else s.top,
       trace := s.trace + [ThumbMove(pl.value)])
  }

  /** The track position a press on the owner seeks to, if it seeks at all. */
  function SeekPoint(o: Options, target: Target, offset: Point, ownerPos: Point, trackPos: Point): Option<Point>
  {
    if Flag(o, "seekOnOwner") && target == OwnerElement then
      Some(Point(offset.x - (trackPos.x - ownerPos.x), offset.y - (trackPos.y - ownerPos.y)))
    else if Flag(o, "seekOnTrack") && target == TrackElement then Some(offset)
    else None
  }

  predicate CanSeek(s: State, target: Target, offset: Point, ownerPos: Point, trackPos: Point, track: Point)
    requires Good(s)
  {
    SeekPoint(s.options, target, offset, ownerPos, trackPos).Some? ==>
      Along(track, Flag(s.options, "vertical")) > 0.0 && ScaleDefined(s.options)
  }

  /** onOwnerMouseDown: a press on the owner or the track seeks and commits a change. */
  function OwnerMouseDown(s: State, target: Target, offset: Point, ownerPos: Point, trackPos: Point, track: Point): (r: State)
    requires Good(s) && CanSeek(s, target, offset, ownerPos, trackPos, track)
    ensures Good(r)
  {
    match SeekPoint(s.options, target, offset, ownerPos, trackPos)
    case None => s
    case Some(q) =>
      var vertical := Flag(s.options, "vertical");
      var s1 := SetThumbPosition(s, Along(q, vertical), Along(track, vertical));
      s1.(trace := s1.trace + [Change(Get(s1.options, "value"), Undefined)])
  }

  /** onThumbMouseDown: remember the value and the pointer's offset from the thumb, enter editing. */
  function ThumbMouseDown(s: State, page: Point, thumbPx: Point, track: Point): (r: State)
    requires Good(s) && Along(track, Flag(s.options, "vertical")) > 0.0
    ensures Good(r)
    ensures r.editing && r.startedValue == Some(Number(s.options, "value"))
    ensures (r.options, r.left, r.top, r.trace, r.attached) == (s.options, s.left, s.top, s.trace, s.attached)
    ensures var vertical := Flag(s.options, "vertical");
      var d := if vertical then r.startedY else r.startedX;
      && d.Some? && d.value.thumbDelta == d.value.trackPage
      && d.value.thumbDelta == Along(page, vertical) - C.ParseInt(Along(thumbPx, vertical)) as real
      && d.value.trackLength == Along(track, vertical)
      && (if vertical then r.startedX == s.startedX else r.startedY == s.startedY)
  {
    var o := s.options;
    var vertical := Flag(o, "vertical");
    var delta := Along(page, vertical) - C.ParseInt(Along(thumbPx, vertical)) as real;
    var drag := Some(Drag(delta, delta, Along(track, vertical)));
    s.(startedValue := Some(Number(o, "value")),
       startedX := if vertical then s.startedX else drag,
       startedY := if vertical then drag else s.startedY,
       editing := true)
  }

  /** onWindowMouseMove: move the thumb while the pointer is at or past the track start. */
  function WindowMouseMove(s: State, page: Point): (r: State)
    requires Good(s) && ScaleDefined(s.options)
    ensures Good(r) && ScaleDefined(r.options)
  {
    var vertical := Flag(s.options, "vertical");
    var started := if vertical then s.startedY else s.startedX;
    match started
    case None => s
    case Some(d) =>
      match C.DragPosition(Along(page, vertical), d.trackPage, d.thumbDelta, d.trackLength)
      case None => s
      case Some(q) => SetThumbPosition(s, q, d.trackLength)
  }

  /** onWindowMouseUp. */
  function WindowMouseUp(s: State): State
  {
    SetEditMode(s, false)
  }

  /** destroy(): unbind the press handlers and leave editing mode. */
  function Destroy(s: State): State
  {
    SetEditMode(s.(attached := false), false)
  }

  /** A run of pointer moves during a drag. */
  function Moves(s: State, pts: seq<Point>): (r: State)
    requires Good(s) && ScaleDefined(s.options)
    ensures Good(r)
    decreases |pts|
  {
    if pts == [] then s else Moves(WindowMouseMove(s, pts[0]), pts[1..])
  }

  function CountKey(p: Props, k: string): nat
  {
    if p == [] then 0 else (if p[0].0 == k then 1 else 0) + CountKey(p[1..], k)
  }

  function Changes(t: seq<Event>): nat
  {
    if t == [] then 0 else (if t[0].Change? then 1 else 0) + Changes(t[1..])
  }

  predicate OnlyThumbMoves(t: seq<Event>)
  {
    forall i :: 0 <= i < |t| ==> t[i].ThumbMove?
  }

  // ---------------------------------------------------------------------------
  // Lemmas: option management

  /** update(options) leaves under each name the last value the object gives it and keeps
      the other options. */
  lemma {:induction false} UpdateOptions(s: State, p: Props, k: string)
    requires Typed(s.options) && PropsFit(p)
    ensures var r := Update(s, p);
      && Typed(r.options)
      && Get(r.options, k) == (match Lookup(p, k) case Some(v) => v case None => Get(s.options, k))
      && (k in r.options <==> k in s.options || HasKey(p, k))
    decreases |p|
  {
    if p != [] {
      var s1 := SetOption(s, p[0].0, p[0].1);
      UpdateOptions(s1, p[1..], k);
      LookupSplit(p, k);
      assert Update(s, p) == Update(s1, p[1..]);
      assert HasKey(p, k) <==> p[0].0 == k || HasKey(p[1..], k) by {
        if HasKey(p, k) {
          var i :| 0 <= i < |p| && p[i].0 == k;
          if i > 0 { assert p[1..][i - 1].0 == k; }
        }
        if HasKey(p[1..], k) {
          var i :| 0 <= i < |p[1..]| && p[1..][i].0 == k;
          assert p[i + 1].0 == k;
        }
      }
    }
  }

  /** update(options) fires exactly one change per 'value' property and nothing else, and
      leaves the drag session alone. */
  lemma {:induction false} UpdateTrace(s: State, p: Props)
    requires Typed(s.options) && PropsFit(p)
    ensures var r := Update(s, p);
      && (r.startedValue, r.startedX, r.startedY, r.editing, r.attached)
         == (s.startedValue, s.startedX, s.startedY, s.editing, s.attached)
      && |r.trace| == |s.trace| + CountKey(p, "value")
      && r.trace[..|s.trace|] == s.trace
      && (forall i :: |s.trace| <= i < |r.trace| ==> r.trace[i].Change?)
    decreases |p|
  {
    if p != [] {
      var s1 := SetOption(s, p[0].0, p[0].1);
      var added := if p[0].0 == "value" then [Change(p[0].1, Get(s.options, "value"))] else [];
      assert s1.trace == s.trace + added;
      UpdateTrace(s1, p[1..]);
      ChangesAppended(s.trace, s1.trace, Update(s1, p[1..]).trace);
    }
  }

  /** Two stretches of appended change events make one. */
  lemma ChangesAppended(a: seq<Event>, b: seq<Event>, c: seq<Event>)
    requires |a| <= |b| && b[..|a|] == a && forall i :: |a| <= i < |b| ==> b[i].Change?
    requires |b| <= |c| && c[..|b|] == b && forall i :: |b| <= i < |c| ==> c[i].Change?
    ensures c[..|a|] == a && forall i :: |a| <= i < |c| ==> c[i].Change?
  {
    assert c[..|a|] == c[..|b|][..|a|];
    forall i | |a| <= i < |c| ensures c[i].Change? {
      if i < |b| {
        assert c[i] == c[..|b|][i];
      }
    }
  }

  /** update(options) keeps a created instance's invariant. */
  lemma UpdateKeepsGood(s: State, p: Props)
    requires Good(s) && PropsFit(p)
    ensures Good(Update(s, p))
  {
    UpdateTrace(s, p);
    var r := Update(s, p);
    forall k | k in s.options ensures k in r.options {
      UpdateOptions(s, p, k);
    }
  }

  /** update runs its properties in order: two objects applied one after the other. */
  lemma {:induction false} UpdateAppend(s: State, a: Props, b: Props)
    requires Typed(s.options) && PropsFit(a) && PropsFit(b)
    ensures PropsFit(a + b)
    ensures Update(s, a + b) == Update(Update(s, a), b)
    decreases |a|
  {
    if a != [] {
      assert (a + b)[1..] == a[1..] + b;
      UpdateAppend(SetOption(s, a[0].0, a[0].1), a[1..], b);
    } else {
      assert a + b == b;
    }
  }

  /** Properties other than value, min and max never move the thumb. */
  lemma {:induction false} UpdateKeepsOffsets(s: State, p: Props)
    requires Typed(s.options) && PropsFit(p)
    requires forall i :: 0 <= i < |p| ==> p[i].0 !in NumericKeys
    ensures Update(s, p).left == s.left && Update(s, p).top == s.top
    decreases |p|
  {
    if p != [] {
      UpdateKeepsOffsets(SetOption(s, p[0].0, p[0].1), p[1..]);
    }
  }

  lemma {:induction false} CountKeyDistinct(p: Props, k: string)
    requires DistinctKeys(p) && HasKey(p, k)
    ensures CountKey(p, k) == 1
    decreases |p|
  {
    if p[0].0 == k {
      CountKeyAbsent(p[1..], k);
    } else {
      var i :| 0 <= i < |p| && p[i].0 == k;
      assert p[1..][i - 1].0 == k;
      CountKeyDistinct(p[1..], k);
    }
  }

  lemma {:induction false} CountKeyAbsent(p: Props, k: string)
    requires forall i :: 0 <= i < |p| ==> p[i].0 != k
    ensures CountKey(p, k) == 0
    decreases |p|
  {
    if p != [] {
      CountKeyAbsent(p[1..], k);
    }
  }

  /** The options object create() assigns: $.extend({}, defaultOptions, options). */
  function Merged(p: Props): (m: Props)
    requires PropsFit(p)
    ensures PropsFit(m)
  {
    ExtendFits(Defaults(), p);
    Extend(Defaults(), p)
  }

  /** The eight defaults come first, in order, and no name appears twice. */
  predicate DefaultsFirst(m: Props)
  {
    && DistinctKeys(m) && |m| >= |Defaults()|
    && forall i :: 0 <= i < |Defaults()| ==> m[i].0 == Defaults()[i].0
  }

  /** The merged options list the defaults first. */
  lemma MergedShape(p: Props)
    requires PropsFit(p)
    ensures DefaultsFirst(Merged(p))
  {
    DefaultsShape();
    ExtendLookup(Defaults(), p, "");
  }

  /** A new instance holds, under each name, the last defined value the caller gave it,
      else the default. */
  lemma CreatedOptions(p: Props, k: string)
    requires PropsFit(p)
    ensures Get(Created(p).options, k) ==
      (match LastDefined(p, k)
       case Some(v) => v
       case None => match Lookup(Defaults(), k) case Some(v) => v case None => Undefined)
  {
    DefaultsShape();
    var m := Merged(p);
    MergedShape(p);
    ExtendLookup(Defaults(), p, k);
    UpdateOptions(Blank(), m, k);
  }

  /** A new instance satisfies the invariant, is idle and bound, and creation fires exactly
      one change. */
  lemma CreatedGood(p: Props)
    requires PropsFit(p)
    ensures var r := Created(p);
      && Good(r) && !r.editing && r.attached && r.startedValue == None
      && |r.trace| == 1 && r.trace[0].Change?
  {
    MergedShape(p);
    UpdatedBlankGood(Merged(p));
  }

  lemma UpdatedBlankGood(m: Props)
    requires PropsFit(m) && DefaultsFirst(m)
    ensures var r := Update(Blank(), m);
      && Good(r) && !r.editing && r.attached && r.startedValue == None
      && |r.trace| == 1 && r.trace[0].Change?
  {
    UpdateTrace(Blank(), m);
    UpdatedBlankComplete(m);
    assert HasKey(m, "value") by { assert m[2].0 == "value"; }
    CountKeyDistinct(m, "value");
  }

  /** Every default name is assigned, so every known option is present. */
  lemma UpdatedBlankComplete(m: Props)
    requires PropsFit(m) && DefaultsFirst(m)
    ensures Typed(Update(Blank(), m).options) && Complete(Update(Blank(), m).options)
  {
    var r := Update(Blank(), m);
    forall j | 0 <= j < |Defaults()| ensures m[j].0 in r.options {
      assert HasKey(m, m[j].0);
      UpdateOptions(Blank(), m, m[j].0);
    }
    assert m[0].0 == "min" && m[1].0 == "max" && m[2].0 == "value" && m[3].0 == "smooth";
    assert m[4].0 == "seekOnTrack" && m[5].0 == "seekOnOwner" && m[6].0 == "vertical";
    assert m[7].0 == "createElements";
  }

  /** Assigning only min, max and value while vertical is undefined: every offset goes
      to left and top is left alone. */
  lemma {:induction false} NumbersGoLeft(s: State, a: Props)
    requires Typed(s.options) && PropsFit(a) && "vertical" !in s.options
    requires forall i :: 0 <= i < |a| ==> a[i].0 in NumericKeys
    ensures var r := Update(s, a);
      && r.top == s.top
      && (|a| > 0 || s.left != Unset ==> r.left != Unset)
      && "vertical" !in r.options
    decreases |a|
  {
    if a != [] {
      var s1 := SetOption(s, a[0].0, a[0].1);
      assert !Flag(s1.options, "vertical");
      assert s1.left != Unset && s1.top == s.top;
      NumbersGoLeft(s1, a[1..]);
    }
  }

  /** As written, creating a vertical slider never positions its thumb's top: the
      options are assigned in default order, so value, min and max are set while
      vertical is still undefined and their offset goes to left. */
  lemma CreatedVerticalLeavesTopUnset(p: Props)
    requires PropsFit(p)
    ensures Created(p).top == Unset && Created(p).left != Unset
  {
    MergedShape(p);
    UpdatedBlankLeavesTopUnset(Merged(p));
  }

  lemma UpdatedBlankLeavesTopUnset(m: Props)
    requires PropsFit(m) && DefaultsFirst(m)
    ensures Update(Blank(), m).top == Unset && Update(Blank(), m).left != Unset
  {
    var a, b := m[..3], m[3..];
    NumbersFirst(m);
    assert m == a + b;
    UpdateAppend(Blank(), a, b);
    NumbersGoLeft(Blank(), a);
    UpdateKeepsOffsets(Update(Blank(), a), b);
  }

  /** min, max and value lead the merged options, and no later name is numeric. */
  lemma NumbersFirst(m: Props)
    requires DefaultsFirst(m)
    ensures forall i :: 0 <= i < 3 ==> m[..3][i].0 in NumericKeys
    ensures forall i :: 0 <= i < |m[3..]| ==> m[3..][i].0 !in NumericKeys
  {
    assert m[0].0 == "min" && m[1].0 == "max" && m[2].0 == "value";
    forall i | 0 <= i < |m[3..]| ensures m[3..][i].0 !in NumericKeys {
      assert m[3..][i] == m[i + 3];
      assert m[i + 3].0 != m[0].0 && m[i + 3].0 != m[1].0 && m[i + 3].0 != m[2].0;
    }
  }

  /** Setting value, min or max puts the thumb at setOption's percentage, which lies on the
      track when 0 <= value <= max - min; setting value also reports the new and old value. */
  lemma SetOptionMovesThumb(s: State, name: string, v: Val)
    requires Good(s) && Fits(name, v) && name in NumericKeys
    ensures var r := SetOption(s, name, v);
      var lo, hi, value := Number(r.options, "min"), Number(r.options, "max"), Number(r.options, "value");
      var vertical := Flag(r.options, "vertical");
      && (if vertical then r.top else r.left) == ThumbStyle(r.options)
      && (if vertical then r.left == s.left else r.top == s.top)
      && (lo < hi && 0.0 <= value <= hi - lo ==>
            ThumbStyle(r.options).Percent? && 0.0 <= ThumbStyle(r.options).p <= 100.0)
      && r.trace == s.trace + (if name == "value" then [Change(v, Get(s.options, "value"))] else [])
  {
    var r := SetOption(s, name, v);
    var lo, hi, value := Number(r.options, "min"), Number(r.options, "max"), Number(r.options, "value");
    if lo < hi && 0.0 <= value <= hi - lo {
      C.PercentInRange(value, lo, hi, Flag(r.options, "vertical"));
    }
  }

  // ---------------------------------------------------------------------------
  // Lemmas: position and value

  /** setThumbPosition with max > min (and, when rounding, an integer range): the new value
      lies in [0, max - min], the thumb lies on the track where setOption would put it for
      that value, thumbmove reports it, and nothing else changes. */
  lemma SetThumbPositionEffect(s: State, position: real, len: real)
    requires Good(s) && ScaleDefined(s.options) && len > 0.0
    requires Number(s.options, "min") < Number(s.options, "max")
    requires !Flag(s.options, "smooth") ==>
      var range := Number(s.options, "max") - Number(s.options, "min"); range.Floor as real == range
    ensures var r := SetThumbPosition(s, position, len);
      var v := Number(r.options, "value");
      var vertical := Flag(r.options, "vertical");
      && 0.0 <= v <= Number(s.options, "max") - Number(s.options, "min")
      && (if vertical then r.top else r.left) == ThumbStyle(r.options)
      && ThumbStyle(r.options).Percent? && 0.0 <= ThumbStyle(r.options).p <= 100.0
      && (if vertical then r.left == s.left else r.top == s.top)
      && r.trace == s.trace + [ThumbMove(v)]
      && (forall k :: k != "value" ==> Get(r.options, k) == Get(s.options, k))
      && (r.startedValue, r.startedX, r.startedY, r.editing, r.attached)
         == (s.startedValue, s.startedX, s.startedY, s.editing, s.attached)
  {
    var o := s.options;
    var lo, hi := Number(o, "min"), Number(o, "max");
    var vertical := Flag(o, "vertical");
    if Flag(o, "smooth") {
      C.SmoothPlacement(position, len, lo, hi, vertical);
    } else {
      C.SnappedPlacement(position, len, lo, hi, vertical);
    }
    C.PlaceMatchesPercent(position, len, lo, hi, Flag(o, "smooth"), vertical);
  }

  /** A pointer move during a drag: with the captured delta equal to the captured track start,
      the thumb moves exactly when the pointer is at or past that start, to a position capped
      at the track length and so within [0, trackLength]; otherwise nothing changes. */
  lemma MoveEffect(s: State, page: Point)
    requires Good(s) && ScaleDefined(s.options)
    ensures var vertical := Flag(s.options, "vertical");
      var d := if vertical then s.startedY else s.startedX;
      var r := WindowMouseMove(s, page);
      if d.Some? && Along(page, vertical) - d.value.thumbDelta >= 0.0 then
        var q := C.Min(Along(page, vertical) - d.value.thumbDelta, d.value.trackLength);
        && 0.0 <= q <= d.value.trackLength
        && r == SetThumbPosition(s, q, d.value.trackLength)
      else r == s
  {
  }

  /** A run of moves only appends thumbmove events, at most one per move, changes no option
      but value, and keeps the drag session as the press left it. */
  lemma {:induction false} MovesEffect(s: State, pts: seq<Point>, k: string)
    requires Good(s) && ScaleDefined(s.options)
    ensures var r := Moves(s, pts);
      && |s.trace| <= |r.trace| <= |s.trace| + |pts|
      && r.trace[..|s.trace|] == s.trace
      && OnlyThumbMoves(r.trace[|s.trace|..])
      && (k != "value" ==> Get(r.options, k) == Get(s.options, k))
      && (r.startedValue, r.startedX, r.startedY, r.editing, r.attached)
         == (s.startedValue, s.startedX, s.startedY, s.editing, s.attached)
    decreases |pts|
  {
    if pts != [] {
      var s1 := WindowMouseMove(s, pts[0]);
      MoveStep(s, pts[0], k);
      MovesEffect(s1, pts[1..], k);
      assert Moves(s, pts) == Moves(s1, pts[1..]);
      ThumbMovesAppended(s.trace, s1.trace, Moves(s1, pts[1..]).trace);
    }
  }

  /** One move appends at most one thumbmove event and changes no option but value. */
  lemma MoveStep(s: State, page: Point, k: string)
    requires Good(s) && ScaleDefined(s.options)
    ensures var r := WindowMouseMove(s, page);
      && |s.trace| <= |r.trace| <= |s.trace| + 1
      && r.trace[..|s.trace|] == s.trace
      && OnlyThumbMoves(r.trace[|s.trace|..])
      && (k != "value" ==> Get(r.options, k) == Get(s.options, k))
      && (r.startedValue, r.startedX, r.startedY, r.editing, r.attached)
         == (s.startedValue, s.startedX, s.startedY, s.editing, s.attached)
  {
  }

  /** Two stretches of appended thumbmove events make one. */
  lemma ThumbMovesAppended(a: seq<Event>, b: seq<Event>, c: seq<Event>)
    requires |a| <= |b| && b[..|a|] == a && OnlyThumbMoves(b[|a|..])
    requires |b| <= |c| && c[..|b|] == b && OnlyThumbMoves(c[|b|..])
    ensures c[..|a|] == a && OnlyThumbMoves(c[|a|..])
  {
    assert c[..|a|] == c[..|b|][..|a|];
    forall i | 0 <= i < |c[|a|..]| ensures c[|a|..][i].ThumbMove? {
      if |a| + i < |b| {
        assert c[|a| + i] == b[|a|..][i];
      } else {
        assert c[|a| + i] == c[|b|..][|a| + i - |b|];
      }
    }
  }

  lemma {:induction false} ChangesAppend(a: seq<Event>, b: seq<Event>)
    ensures Changes(a + b) == Changes(a) + Changes(b)
    decreases |a|
  {
    if a != [] {
      assert (a + b)[1..] == a[1..] + b;
      ChangesAppend(a[1..], b);
    } else {
      assert a + b == b;
    }
  }

  lemma {:induction false} ChangesOfThumbMoves(t: seq<Event>)
    requires OnlyThumbMoves(t)
    ensures Changes(t) == 0
    decreases |t|
  {
    if t != [] {
      ChangesOfThumbMoves(t[1..]);
    }
  }

  /** One drag gesture: the press enters editing and freezes getOption('value') at the start
      value (when that value is truthy) for every move; the release leaves editing, clears the
      start value and commits exactly one change, whatever the number of moves. */
  lemma Gesture(s: State, page: Point, thumbPx: Point, track: Point, pts: seq<Point>, up: Point)
    requires Good(s) && ScaleDefined(s.options)
    requires Along(track, Flag(s.options, "vertical")) > 0.0
    ensures var pressed := ThumbMouseDown(s, page, thumbPx, track);
      var dragged := Moves(pressed, pts);
      var released := WindowMouseUp(dragged);
      var start := Number(s.options, "value");
      && pressed.editing && dragged.editing
      && GetOption(dragged, "value") == (if start != 0.0 then Num(start) else Get(dragged.options, "value"))
      && |s.trace| <= |dragged.trace| <= |s.trace| + |pts|
      && OnlyThumbMoves(dragged.trace[|s.trace|..])
      && !released.editing && released.startedValue == None
      && (released.options, released.startedX, released.startedY) == (dragged.options, dragged.startedX, dragged.startedY)
      && released.trace == dragged.trace + [Change(Get(dragged.options, "value"), Undefined)]
      && Changes(released.trace) == Changes(s.trace) + 1
  {
    var pressed := ThumbMouseDown(s, page, thumbPx, track);
    var dragged := Moves(pressed, pts);
    MovesEffect(pressed, pts, "");
    var added := dragged.trace[|s.trace|..];
    assert dragged.trace == s.trace + added;
    ChangesOfThumbMoves(added);
    ChangesAppend(s.trace, added);
    ChangesAppend(dragged.trace, [Change(Get(dragged.options, "value"), Undefined)]);
  }

  /** A press on the owner (seekOnOwner) or on the track (seekOnTrack) moves the thumb to the
      pressed point of the track and commits one change, without entering editing; a press
      on anything else changes nothing. */
  lemma SeekEffect(s: State, target: Target, offset: Point, ownerPos: Point, trackPos: Point, track: Point)
    requires Good(s) && CanSeek(s, target, offset, ownerPos, trackPos, track)
    ensures var r := OwnerMouseDown(s, target, offset, ownerPos, trackPos, track);
      var o := s.options;
      var vertical := Flag(o, "vertical");
      var seeks := (target == OwnerElement && Flag(o, "seekOnOwner"))
                || (target == TrackElement && Flag(o, "seekOnTrack"));
      if seeks then
        var q := if target == OwnerElement
                 then Along(offset, vertical) - (Along(trackPos, vertical) - Along(ownerPos, vertical))
                 else Along(offset, vertical);
        var moved := SetThumbPosition(s, q, Along(track, vertical));
        && r.editing == s.editing && r.startedValue == s.startedValue
        && r.options == moved.options
        && r.trace == s.trace + [ThumbMove(Number(moved.options, "value")),
                                 Change(Get(moved.options, "value"), Undefined)]
        && r == moved.(trace := moved.trace + [Change(Get(moved.options, "value"), Undefined)])
      else r == s
  {
  }

  /** destroy() always leaves editing and commits one change, even when no drag is active. */
  lemma DestroyEffect(s: State)
    requires Good(s)
    ensures var r := Destroy(s);
      && Good(r) && !r.editing && !r.attached && r.startedValue == None
      && r.options == s.options
      && r.trace == s.trace + [Change(Get(s.options, "value"), Undefined)]
      && Changes(r.trace) == Changes(s.trace) + 1
  {
    ChangesAppend(s.trace, [Change(Get(s.options, "value"), Undefined)]);
  }
}
