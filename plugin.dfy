/**
 * The jQuery plugin layer: the list of component instances, searched
 * linearly by owner element, and $(selection).UISlider(...), which runs
 * the same action for every element of the selection in turn.
 */
module Plugin {
  import opened Wrappers
  import opened SliderOptions
  import I = Instance
  import opened Widget

  datatype Entry = Entry(owner: ElementId, state: I.State)

  /** The call, decoded from its arguments:
      UISlider(options) and UISlider('create', options)  -> Create
      UISlider('update', options)                         -> Update
      UISlider('destroy')                                 -> Destroy
      UISlider(name), name not an instance method         -> ReadOption
      UISlider(name, value), name not an instance method  -> WriteOption
      UISlider('getOption', name)                         -> CallGetOption
      UISlider('setEditMode', on)                         -> CallSetEditMode */
  datatype Request =
    | Create(props: Props)
    | Update(props: Props)
    | Destroy
    | ReadOption(name: string)
    | WriteOption(name: string, v: Val)
    | CallGetOption(option: string)
    | CallSetEditMode(on: bool)

  /** What the call returns: the jQuery selection itself, or a defined result. */
  datatype Reply = Chain | Result(value: Val)

  /** The dispatch as the source writes it, or as its comments describe it: the action
      switches from create to update for the element that already has an instance only,
      and destroy removes that element's instance wherever it sits in the list. */
  datatype Variant = AsWritten | Intended

  /** One element's part of a call: the registry after it, the action the following elements
      see, and what it assigns to `result` (None when it assigns nothing). */
  datatype Outcome = Outcome(reg: seq<Entry>, next: Request, written: Option<Val>)

  /** Names under which an instance holds a function: the prototype methods and the bound
      handlers. Such a name is called, not read or written as an option. */
  const MethodNames: set<string> := {
    "create", "destroy", "update", "setOption", "getOption", "prepareJQueryTouchEvent",
    "handleAction", "setEditMode", "setThumbPosition", "onOwnerMouseDown", "onThumbMouseDown",
    "onWindowMouseMove", "onWindowMouseUp",
    "_onOwnerMouseDown", "_onThumbMouseDown", "_onWindowMouseMove", "_onWindowMouseUp" }

  predicate Wellformed(req: Request)
  {
    match req
    case Create(p) => PropsFit(p) && DistinctKeys(p)
    case Update(p) => PropsFit(p) && DistinctKeys(p)
    case ReadOption(name) => name !in MethodNames
    case WriteOption(name, v) => name !in MethodNames && Fits(name, v)
    case _ => true
  }

  predicate Unique(reg: seq<Entry>)
  {
    forall i, j :: 0 <= i < j < |reg| ==> reg[i].owner != reg[j].owner
  }

  predicate AllGood(reg: seq<Entry>)
  {
    forall i :: 0 <= i < |reg| ==> I.Good(reg[i].state)
  }

  /** `typeof result !== 'undefined' ? result : this`, where `result` may never have been
      written. */
  function Answer(result: Option<Val>): (r: Reply)
    ensures r == Chain <==> result.None? || result.value == Undefined
    ensures r.Result? ==> result == Some(r.value)
  {
    if result.Some? && result.value != Undefined then Result(result.value) else Chain
  }

  /** The lookup loop: the first index whose instance is bound to the owner. */
  function Find(reg: seq<Entry>, id: ElementId): (r: Option<nat>)
    ensures r.Some? ==> r.value < |reg| && reg[r.value].owner == id
    ensures r.Some? ==> forall j :: 0 <= j < r.value ==> reg[j].owner != id
    ensures r.None? ==> forall j :: 0 <= j < |reg| ==> reg[j].owner != id
  {
    if reg == [] then None
    else if reg[0].owner == id then Some(0)
    else match Find(reg[1..], id)
      case None => None
      case Some(i) => Some(i + 1)
  }

  /** A found instance turns create into update. */
  function Found(req: Request): (r: Request)
    ensures !r.Create?
    ensures req.Create? ==> r == Update(req.props)
    ensures !req.Create? ==> r == req
    ensures Wellformed(req) ==> Wellformed(r)
  {
    if req.Create? then Update(req.props) else req
  }

  /** The action on an instance that exists, other than destroy: the instance's new state
      and what the default branch assigns to `result` (update assigns nothing). */
  function Serve(s: I.State, req: Request): (I.State, Option<Val>)
    requires I.Good(s) && Wellformed(req) && !req.Create? && !req.Destroy?
  {
    match req
    case Update(p) => (I.Update(s, p), None)
    case ReadOption(name) => (s, Some(Get(s.options, name)))
    case WriteOption(name, v) => (I.SetOption(s, name, v), Some(Get(s.options, name)))
    case CallGetOption(name) => (s, Some(I.GetOption(s, name)))
    case CallSetEditMode(on) => (I.SetEditMode(s, on), Some(Undefined))
  }

  /** Serving keeps the instance's invariant; reads leave the instance as it is. */
  lemma ServeKeepsGood(s: I.State, req: Request)
    requires I.Good(s) && Wellformed(req) && !req.Create? && !req.Destroy?
    ensures I.Good(Serve(s, req).0)
    ensures req.ReadOption? || req.CallGetOption? ==> Serve(s, req).0 == s
    ensures req.Update? <==> Serve(s, req).1.None?
  {
    if req.Update? {
      I.UpdateKeepsGood(s, req.props);
    }
  }

  /** On a registered owner, the step for create is the step for update. */
  lemma FoundAgain(reg: seq<Entry>, id: ElementId, req: Request)
    requires AllGood(reg) && Wellformed(req) && Find(reg, id).Some?
    ensures Element(reg, id, Found(req), AsWritten) == Element(reg, id, req, AsWritten)
  {
  }

  /** Removing one entry keeps the others, in order. */
  lemma RemovedAt(reg: seq<Entry>, k: nat)
    requires k < |reg|
    ensures var r := reg[..k] + reg[k + 1..];
      |r| == |reg| - 1 && forall i :: 0 <= i < |r| ==> r[i] == reg[if i < k then i else i + 1]
  {
  }

  /** An owner not in the registry is found at the end once appended. */
  lemma FindAppended(reg: seq<Entry>, e: Entry)
    requires Find(reg, e.owner).None?
    ensures Find(reg + [e], e.owner) == Some(|reg|)
  {
    assert (reg + [e])[|reg|].owner == e.owner;
  }

  /** The instance a call creates for a new owner: `new ComponentInstance(this, options)`. */
  function Fresh(id: ElementId, p: Props): Entry
    requires PropsFit(p)
  {
    ExtendFits([], p);
    Entry(id, I.Created(Extend([], p)))
  }

  /** The new instance belongs to the element and is valid. */
  lemma FreshGood(id: ElementId, p: Props)
    requires PropsFit(p)
    ensures Fresh(id, p).owner == id && I.Good(Fresh(id, p).state)
  {
    ExtendFits([], p);
    I.CreatedGood(Extend([], p));
  }

  /** The body of `this.each(...)` for one element. */
  function Element(reg: seq<Entry>, id: ElementId, req: Request, variant: Variant): (o: Outcome)
    requires AllGood(reg) && Wellformed(req)
    ensures AllGood(o.reg) && Wellformed(o.next)
  {
    match Find(reg, id)
    case None =>
      if req.Create? then
        FreshGood(id, req.props);
        Outcome(reg + [Fresh(id, req.props)], req, None)
      else Outcome(reg, req, None)
    case Some(k) =>
      var act := Found(req);
      var next := if variant == AsWritten then act else req;
      if act.Destroy? then
        if k != 0 || variant == Intended then
          RemovedAt(reg, k);
          Outcome(reg[..k] + reg[k + 1..], next, None)
        else Outcome(reg, next, None)
      else
        ServeKeepsGood(reg[k].state, act);
        var (t, written) := Serve(reg[k].state, act);
        Outcome(reg[k := Entry(id, t)], next, written)
  }

  /** `this.each(...)` over the remaining elements, carrying the action and `result`. */
  function Each(reg: seq<Entry>, ids: seq<ElementId>, req: Request, result: Option<Val>,
                variant: Variant): (seq<Entry>, Option<Val>)
    requires AllGood(reg) && Wellformed(req)
    decreases |ids|
  {
    if ids == [] then (reg, result)
    else
      var o := Element(reg, ids[0], req, variant);
      Each(o.reg, ids[1..], o.next, if o.written.Some? then o.written else result, variant)
  }

  /** $(ids).UISlider(...): the new registry and what the call returns. */
  function Select(reg: seq<Entry>, ids: seq<ElementId>, req: Request, variant: Variant): (seq<Entry>, Reply)
    requires AllGood(reg) && Wellformed(req)
  {
    var (r, result) := Each(reg, ids, req, None, variant);
    (r, Answer(result))
  }

  // ---------------------------------------------------------------------------
  // Lemmas

  /** One element's step keeps at most one instance per owner. */
  lemma ElementUnique(reg: seq<Entry>, id: ElementId, req: Request, variant: Variant)
    requires Unique(reg) && AllGood(reg) && Wellformed(req)
    ensures Unique(Element(reg, id, req, variant).reg)
  {
    match Find(reg, id)
    case None => NewElementUnique(reg, id, req, variant);
    case Some(k) =>
      if Found(req).Destroy? {
        DestroyUnique(reg, id, req, variant);
      }
  }

  /** A new owner is not yet in the list, so appending its instance keeps owners distinct. */
  lemma NewElementUnique(reg: seq<Entry>, id: ElementId, req: Request, variant: Variant)
    requires Unique(reg) && AllGood(reg) && Wellformed(req) && Find(reg, id).None?
    ensures Unique(Element(reg, id, req, variant).reg)
  {
    if req.Create? {
      FreshGood(id, req.props);
      AppendUnique(reg, Fresh(id, req.props));
    }
  }

  lemma AppendUnique(reg: seq<Entry>, e: Entry)
    requires Unique(reg) && forall j :: 0 <= j < |reg| ==> reg[j].owner != e.owner
    ensures Unique(reg + [e])
  {
  }

  /** Removing one entry keeps the remaining owners distinct. */
  lemma DestroyUnique(reg: seq<Entry>, id: ElementId, req: Request, variant: Variant)
    requires Unique(reg) && AllGood(reg) && Wellformed(req) && Find(reg, id).Some?
    requires Found(req).Destroy?
    ensures Unique(Element(reg, id, req, variant).reg)
  {
    var r := Element(reg, id, req, variant).reg;
    var k := Find(reg, id).value;
    if r != reg {
      RemovedAt(reg, k);
      forall i, j | 0 <= i < j < |r| ensures r[i].owner != r[j].owner {
        var i' := if i < k then i else i + 1;
        var j' := if j < k then j else j + 1;
        assert r[i] == reg[i'] && r[j] == reg[j'];
      }
    }
  }

  /** Every call keeps at most one instance per owner and every instance's invariant. */
  lemma {:induction false} EachInvariant(reg: seq<Entry>, ids: seq<ElementId>, req: Request,
                                         result: Option<Val>, variant: Variant)
    requires Unique(reg) && AllGood(reg) && Wellformed(req)
    ensures Unique(Each(reg, ids, req, result, variant).0)
    ensures AllGood(Each(reg, ids, req, result, variant).0)
    decreases |ids|
  {
    if ids != [] {
      var o := Element(reg, ids[0], req, variant);
      ElementUnique(reg, ids[0], req, variant);
      EachInvariant(o.reg, ids[1..], o.next, if o.written.Some? then o.written else result, variant);
    }
  }

  /** create on a new owner appends one instance at the end; on a registered owner it is
      update, and (as written) every later element of the selection sees update too. */
  lemma CreateEffect(reg: seq<Entry>, id: ElementId, p: Props, variant: Variant)
    requires AllGood(reg) && PropsFit(p) && DistinctKeys(p)
    ensures var o := Element(reg, id, Create(p), variant);
      o.written == None &&
      match Find(reg, id)
      case None =>
        && |o.reg| == |reg| + 1 && o.reg[..|reg|] == reg && o.reg[|reg|].owner == id
        && Find(o.reg, id) == Some(|reg|) && o.next == Create(p)
      case Some(k) =>
        && |o.reg| == |reg| && o.reg[k] == Entry(id, I.Update(reg[k].state, p))
        && (forall j :: 0 <= j < |reg| && j != k ==> o.reg[j] == reg[j])
        && o.next == (if variant == AsWritten then Update(p) else Create(p))
  {
    var o := Element(reg, id, Create(p), variant);
    if Find(reg, id).None? {
      assert o.reg[..|reg|] == reg;
      FindAppended(reg, Fresh(id, p));
    } else {
      ServeKeepsGood(reg[Find(reg, id).value].state, Update(p));
    }
  }

  /** Creating on the same owner twice leaves one instance for it: the second call updates. */
  lemma CreateTwice(reg: seq<Entry>, id: ElementId, p: Props, variant: Variant)
    requires AllGood(reg) && PropsFit(p) && DistinctKeys(p)
    ensures var once := Element(reg, id, Create(p), variant).reg;
      var twice := Element(once, id, Create(p), variant).reg;
      && |twice| == |once|
      && (forall j :: 0 <= j < |once| ==> twice[j].owner == once[j].owner)
      && Find(twice, id) == Find(once, id) && Find(once, id).Some?
  {
    var once := Element(reg, id, Create(p), variant).reg;
    CreateEffect(reg, id, p, variant);
    CreateEffect(once, id, p, variant);
    var twice := Element(once, id, Create(p), variant).reg;
    FindSameOwners(once, twice, id);
  }

  /** Find depends on the owners only. */
  lemma FindSameOwners(a: seq<Entry>, b: seq<Entry>, id: ElementId)
    requires |a| == |b| && forall j :: 0 <= j < |a| ==> a[j].owner == b[j].owner
    ensures Find(a, id) == Find(b, id)
  {
  }

  /** destroy removes the owner's instance and keeps the others in order, except that, as
      written, the `if (currentIndex)` guard skips the instance at index 0. */
  lemma DestroyEffect(reg: seq<Entry>, id: ElementId, variant: Variant)
    requires Unique(reg) && AllGood(reg)
    ensures var o := Element(reg, id, Destroy, variant);
      o.written == None && o.next == Destroy &&
      match Find(reg, id)
      case None => o.reg == reg
      case Some(k) =>
        if k == 0 && variant == AsWritten then o.reg == reg
        else o.reg == reg[..k] + reg[k + 1..] && Find(o.reg, id) == None
  {
    var r := Element(reg, id, Destroy, variant).reg;
    if Find(reg, id).Some? && r != reg {
      var k := Find(reg, id).value;
      RemovedAt(reg, k);
      forall j | 0 <= j < |r| ensures r[j].owner != id {
        assert r[j] == reg[if j < k then j else j + 1];
      }
    }
  }

  /** As written, destroying the first registered slider does nothing: it stays in the list,
      its handlers stay bound and it stays usable. */
  lemma FirstNeverDestroyed(reg: seq<Entry>, ids: seq<ElementId>)
    requires Unique(reg) && AllGood(reg) && |reg| > 0 && reg[0].owner in ids
    ensures Find(Select(reg, ids, Destroy, AsWritten).0, reg[0].owner) == Some(0)
    ensures Select(reg, ids, Destroy, AsWritten).0[0] == reg[0]
  {
    FirstStays(reg, ids);
  }

  lemma {:induction false} FirstStays(reg: seq<Entry>, ids: seq<ElementId>)
    requires Unique(reg) && AllGood(reg) && |reg| > 0
    ensures var r := Each(reg, ids, Destroy, None, AsWritten).0; |r| > 0 && r[0] == reg[0]
    decreases |ids|
  {
    if ids != [] {
      var o := Element(reg, ids[0], Destroy, AsWritten);
      DestroyEffect(reg, ids[0], AsWritten);
      ElementUnique(reg, ids[0], Destroy, AsWritten);
      assert Each(reg, ids, Destroy, None, AsWritten) == Each(o.reg, ids[1..], Destroy, None, AsWritten);
      FirstStays(o.reg, ids[1..]);
    }
  }

  /** Destroying as intended removes every selected owner's instance. */
  lemma {:induction false} IntendedDestroyRemovesAll(reg: seq<Entry>, ids: seq<ElementId>)
    requires Unique(reg) && AllGood(reg)
    ensures forall id :: id in ids ==> Find(Select(reg, ids, Destroy, Intended).0, id).None?
    decreases |ids|
  {
    if ids != [] {
      var o := Element(reg, ids[0], Destroy, Intended);
      DestroyEffect(reg, ids[0], Intended);
      ElementUnique(reg, ids[0], Destroy, Intended);
      assert Find(o.reg, ids[0]).None?;
      assert Each(reg, ids, Destroy, None, Intended) == Each(o.reg, ids[1..], Destroy, None, Intended);
      IntendedDestroyRemovesAll(o.reg, ids[1..]);
      NoneStaysNone(o.reg, ids[1..], ids[0]);
      forall id | id in ids ensures Find(Each(o.reg, ids[1..], Destroy, None, Intended).0, id).None? {
        if id != ids[0] {
          assert id in ids[1..];
        }
      }
    }
  }

  /** Destroying never brings an owner back. */
  lemma {:induction false} NoneStaysNone(reg: seq<Entry>, ids: seq<ElementId>, id: ElementId)
    requires Unique(reg) && AllGood(reg) && Find(reg, id).None?
    ensures Find(Each(reg, ids, Destroy, None, Intended).0, id).None?
    decreases |ids|
  {
    if ids != [] {
      var o := Element(reg, ids[0], Destroy, Intended);
      DestroyEffect(reg, ids[0], Intended);
      ElementUnique(reg, ids[0], Destroy, Intended);
      assert Each(reg, ids, Destroy, None, Intended) == Each(o.reg, ids[1..], Destroy, None, Intended);
      if Find(reg, ids[0]).Some? {
        var k := Find(reg, ids[0]).value;
        RemovedAt(reg, k);
        forall j | 0 <= j < |o.reg| ensures o.reg[j].owner != id {
          assert o.reg[j] == reg[if j < k then j else j + 1];
        }
      }
      NoneStaysNone(o.reg, ids[1..], id);
    }
  }

  /** As written, once one element of the selection already has an instance, create turns
      into update for every element after it: a later element without an instance gets none. */
  lemma CreateStopsAfterKnownOwner(reg: seq<Entry>, a: ElementId, b: ElementId, p: Props)
    requires AllGood(reg) && PropsFit(p) && DistinctKeys(p)
    requires Find(reg, a).Some? && Find(reg, b).None?
    ensures Find(Select(reg, [a, b], Create(p), AsWritten).0, b).None?
  {
    var o := Element(reg, a, Create(p), AsWritten);
    CreateEffect(reg, a, p, AsWritten);
    FindSameOwners(reg, o.reg, b);
    var o2 := Element(o.reg, b, Update(p), AsWritten);
    assert [a, b][1..] == [b];
    assert Each(o.reg, [b], Update(p), None, AsWritten).0 == o2.reg;
  }

  /** Creating as intended gives every selected element an instance. */
  lemma {:induction false} IntendedCreateReachesAll(reg: seq<Entry>, ids: seq<ElementId>, p: Props)
    requires AllGood(reg) && PropsFit(p) && DistinctKeys(p)
    ensures forall id :: id in ids ==> Find(Select(reg, ids, Create(p), Intended).0, id).Some?
    decreases |ids|
  {
    if ids != [] {
      var o := Element(reg, ids[0], Create(p), Intended);
      CreateEffect(reg, ids[0], p, Intended);
      assert Each(reg, ids, Create(p), None, Intended) == Each(o.reg, ids[1..], Create(p), None, Intended);
      IntendedCreateReachesAll(o.reg, ids[1..], p);
      SomeStaysSome(o.reg, ids[1..], ids[0], p);
      forall id | id in ids ensures Find(Each(o.reg, ids[1..], Create(p), None, Intended).0, id).Some? {
        if id != ids[0] {
          assert id in ids[1..];
        }
      }
    }
  }

  /** Creating never drops an owner. */
  lemma {:induction false} SomeStaysSome(reg: seq<Entry>, ids: seq<ElementId>, id: ElementId, p: Props)
    requires AllGood(reg) && PropsFit(p) && DistinctKeys(p) && Find(reg, id).Some?
    ensures Find(Each(reg, ids, Create(p), None, Intended).0, id).Some?
    decreases |ids|
  {
    if ids != [] {
      var o := Element(reg, ids[0], Create(p), Intended);
      CreateEffect(reg, ids[0], p, Intended);
      assert Each(reg, ids, Create(p), None, Intended) == Each(o.reg, ids[1..], Create(p), None, Intended);
      var i := Find(reg, id).value;
      assert o.reg[i].owner == id;
      SomeStaysSome(o.reg, ids[1..], id, p);
    }
  }

  /** A selection of one element is that element's step. */
  lemma SelectOne(reg: seq<Entry>, id: ElementId, req: Request, variant: Variant)
    requires AllGood(reg) && Wellformed(req)
    ensures var o := Element(reg, id, req, variant);
      Select(reg, [id], req, variant) == (o.reg, Answer(o.written))
  {
    var o := Element(reg, id, req, variant);
    assert [id][1..] == [];
    assert Each(reg, [id], req, None, variant) == Each(o.reg, [], o.next, o.written, variant);
  }

  /** An option setter stores the new value and returns the option's previous value. */
  lemma WriteReturnsPrevious(reg: seq<Entry>, id: ElementId, name: string, v: Val, variant: Variant)
    requires AllGood(reg) && name !in MethodNames && Fits(name, v)
    ensures var (r, reply) := Select(reg, [id], WriteOption(name, v), variant);
      match Find(reg, id)
      case None => r == reg && reply == Chain
      case Some(k) =>
        && k < |r|
        && reply == Answer(Some(Get(reg[k].state.options, name)))
        && Get(r[k].state.options, name) == v
        && (forall n :: n != name ==> Get(r[k].state.options, n) == Get(reg[k].state.options, n))
  {
    SelectOne(reg, id, WriteOption(name, v), variant);
  }

  /** During a drag the two read paths disagree: getOption gives the value at the press
      (when truthy), reading the option directly gives the live value. */
  lemma ReadPathsDuringDrag(reg: seq<Entry>, id: ElementId, k: nat, variant: Variant)
    requires AllGood(reg) && Find(reg, id) == Some(k)
    requires reg[k].state.startedValue.Some? && reg[k].state.startedValue.value != 0.0
    ensures Select(reg, [id], CallGetOption("value"), variant).1 == Result(Num(reg[k].state.startedValue.value))
    ensures Select(reg, [id], ReadOption("value"), variant).1 == Answer(Some(Get(reg[k].state.options, "value")))
    ensures reg[k].state.editing
  {
    FrozenRead(reg, id, k, variant);
    LiveRead(reg, id, k, variant);
  }

  lemma FrozenRead(reg: seq<Entry>, id: ElementId, k: nat, variant: Variant)
    requires AllGood(reg) && Find(reg, id) == Some(k)
    requires reg[k].state.startedValue.Some? && reg[k].state.startedValue.value != 0.0
    ensures Select(reg, [id], CallGetOption("value"), variant).1 == Result(Num(reg[k].state.startedValue.value))
  {
    SelectOne(reg, id, CallGetOption("value"), variant);
  }

  lemma LiveRead(reg: seq<Entry>, id: ElementId, k: nat, variant: Variant)
    requires AllGood(reg) && Find(reg, id) == Some(k)
    ensures Select(reg, [id], ReadOption("value"), variant).1 == Answer(Some(Get(reg[k].state.options, "value")))
  {
    SelectOne(reg, id, ReadOption("value"), variant);
  }

  /** The last element with an instance decides `result`, even when its value is undefined. */
  lemma LastReadWins(reg: seq<Entry>, a: ElementId, b: ElementId, name: string, variant: Variant)
    requires AllGood(reg) && name !in MethodNames
    requires Find(reg, a).Some? && Find(reg, b).Some?
    ensures Select(reg, [a, b], ReadOption(name), variant).1
         == Answer(Some(Get(reg[Find(reg, b).value].state.options, name)))
  {
    var o := Element(reg, a, ReadOption(name), variant);
    ServeKeepsGood(reg[Find(reg, a).value].state, ReadOption(name));
    assert o.reg == reg && o.next == ReadOption(name) && o.written.Some?;
    assert [a, b][1..] == [b];
    assert Each(reg, [a, b], ReadOption(name), None, variant) == Each(reg, [b], ReadOption(name), o.written, variant);
    var o2 := Element(reg, b, ReadOption(name), variant);
    ServeKeepsGood(reg[Find(reg, b).value].state, ReadOption(name));
    assert o2.written == Some(Get(reg[Find(reg, b).value].state.options, name));
    assert [b][1..] == [];
    assert Each(reg, [b], ReadOption(name), o.written, variant) == Each(o2.reg, [], o2.next, o2.written, variant);
  }

  /** The registry as objects: componentInstances. */
  class Registry {
    var instances: seq<Slider>

    function Entries(): (r: seq<Entry>)
      reads this, instances
      ensures |r| == |instances|
      ensures forall i :: 0 <= i < |instances| ==> r[i] == Entry(instances[i].owner, instances[i].Snapshot())
    {
      seq(|instances|, i requires 0 <= i < |instances| reads this, instances =>
        Entry(instances[i].owner, instances[i].Snapshot()))
    }

    ghost predicate Valid()
      reads this, instances
    {
      Unique(Entries()) && AllGood(Entries())
    }

    constructor ()
      ensures Entries() == [] && Valid()
    {
      instances := [];
    }

    /** The lookup loop of $.fn.UISlider. */
    method IndexOf(id: ElementId) returns (index: Option<nat>)
      ensures index == Find(Entries(), id)
    {
      index := None;
      var i := 0;
      while i < |instances|
        invariant 0 <= i <= |instances|
        invariant forall j :: 0 <= j < i ==> instances[j].owner != id
      {
        if instances[i].owner == id {
          index := Some(i);
          break;
        }
        i := i + 1;
      }
    }

    /** $.fn.UISlider: the `this.each(...)` loop over the selection, with the action and
        `result` shared by all its elements. */
    method Call(ids: seq<ElementId>, req: Request) returns (reply: Reply)
      requires Valid() && Wellformed(req)
      modifies this, instances
      ensures Valid()
      ensures (Entries(), reply) == Select(old(Entries()), ids, req, AsWritten)
    {
      var action := req;
      var result: Option<Val> := None;
      var i := 0;
      while i < |ids|
        invariant 0 <= i <= |ids|
        invariant Valid() && Wellformed(action)
        invariant fresh(set x | x in instances && x !in old(instances))
        invariant Each(old(Entries()), ids, req, None, AsWritten)
               == Each(Entries(), ids[i..], action, result, AsWritten)
      {
        var written;
        ElementUnique(Entries(), ids[i], action, AsWritten);
        action, written := Visit(ids[i], action);
        if written.Some? {
          result := written;
        }
        assert ids[i..][1..] == ids[i + 1..];
        i := i + 1;
      }
      reply := Answer(result);
    }

    /** The body of `this.each(...)` for one element. */
    method Visit(id: ElementId, action: Request) returns (next: Request, written: Option<Val>)
      requires Valid() && Wellformed(action)
      modifies this, instances
      ensures fresh(set x | x in instances && x !in old(instances))
      ensures Outcome(Entries(), next, written) == Element(old(Entries()), id, action, AsWritten)
    {
      var index := IndexOf(id);
      next, written := action, None;
      if index.None? {
        VisitNew(id, action);
      } else {
        next := Found(action);
        FoundAgain(Entries(), id, action);
        written := VisitAt(index.value, id, next);
      }
    }

    /** An element without an instance: only create acts on it. */
    method VisitNew(id: ElementId, action: Request)
      requires Valid() && Wellformed(action) && Find(Entries(), id).None?
      modifies this
      ensures fresh(set x | x in instances && x !in old(instances))
      ensures Outcome(Entries(), action, None) == Element(old(Entries()), id, action, AsWritten)
    {
      if action.Create? {
        ExtendFits([], action.props);
        Append(id, Extend([], action.props));
      }
    }

    /** An element found at index k, with create already turned into update. */
    method VisitAt(k: nat, id: ElementId, action: Request) returns (written: Option<Val>)
      requires Valid() && Wellformed(action) && !action.Create? && Find(Entries(), id) == Some(k)
      modifies this, instances[k]
      ensures fresh(set x | x in instances && x !in old(instances))
      ensures Outcome(Entries(), action, written) == Element(old(Entries()), id, action, AsWritten)
    {
      written := None;
      if action.Destroy? {
        if k != 0 {
          RemoveAt(k);
        }
      } else {
        written := ServeAt(k, action);
      }
    }

    /** Owners are unique, so the instances are distinct objects. */
    lemma Distinct(k: nat)
      requires k < |instances| && Unique(Entries())
      ensures forall j :: 0 <= j < |instances| && j != k ==> instances[j] != instances[k]
    {
      forall j | 0 <= j < |instances| && j != k ensures instances[j] != instances[k] {
        if j < k {
          assert Entries()[j].owner != Entries()[k].owner;
        } else {
          assert Entries()[k].owner != Entries()[j].owner;
        }
      }
    }

    /** `componentInstances.push(new ComponentInstance(this, options))`, where options is
        already the copy `$.extend({}, options)`. */
    method Append(id: ElementId, options: Props)
      requires PropsFit(options)
      modifies this
      ensures fresh(set x | x in instances && x !in old(instances))
      ensures Entries() == old(Entries()) + [Entry(id, I.Created(options))]
    {
      ghost var before := Entries();
      var created := new Slider(id, options);
      assert Entries() == before;
      Push(created);
    }

    /** Adds an instance that is not in the list yet at its end. */
    method Push(created: Slider)
      requires created !in instances
      modifies this
      ensures instances == old(instances) + [created]
      ensures Entries() == old(Entries()) + [Entry(created.owner, old(created.Snapshot()))]
    {
      ghost var before := Entries();
      instances := instances + [created];
      assert Entries()[..|before|] == before;
    }

    /** `destroy()` on the instance, then `componentInstances.splice(k, 1)`. */
    method RemoveAt(k: nat)
      requires k < |instances| && Unique(Entries()) && AllGood(Entries())
      modifies this, instances[k]
      ensures instances == old(instances[..k] + instances[k + 1..])
      ensures Entries() == old(Entries()[..k] + Entries()[k + 1..])
      ensures old(instances[k]).Snapshot() == I.Destroy(old(instances[k].Snapshot()))
    {
      Distinct(k);
      ghost var before := Entries();
      assert I.Good(before[k].state);
      instances[k].Destroy();
      instances := instances[..k] + instances[k + 1..];
      RemovedAt(before, k);
    }

    /** Any other action on the instance at index k. */
    method ServeAt(k: nat, req: Request) returns (written: Option<Val>)
      requires k < |instances| && Unique(Entries()) && AllGood(Entries())
      requires Wellformed(req) && !req.Create? && !req.Destroy?
      modifies instances[k]
      ensures var (t, a) := Serve(old(Entries()[k].state), req);
        Entries() == old(Entries()[k := Entry(Entries()[k].owner, t)]) && written == a
    {
      Distinct(k);
      ghost var before := Entries();
      var current := instances[k];
      assert before[k] == Entry(current.owner, current.Snapshot());
      written := ServeOne(current, req);
    }

    /** The default branch, and update, on one instance. */
    method ServeOne(current: Slider, req: Request) returns (written: Option<Val>)
      requires current.Valid() && Wellformed(req) && !req.Create? && !req.Destroy?
      modifies current
      ensures (current.Snapshot(), written) == Serve(old(current.Snapshot()), req)
    {
      written := None;
      match req {
        case Update(p) =>
          current.Update(p);
        case ReadOption(name) =>
          written := Some(Get(current.options, name));
        case WriteOption(name, v) =>
          written := Some(Get(current.options, name));
          current.SetOption(name, v);
        case CallGetOption(name) =>
          var result := current.GetOption(name);
          written := Some(result);
        case CallSetEditMode(on) =>
          current.SetEditMode(on);
          written := Some(Undefined);
      }
    }
  }
}
