/**
 * The widget's options object: a dictionary from option names to JavaScript
 * values, the defaults, and jQuery's $.extend that merges option objects.
 * An options object is a sequence of (name, value) pairs with distinct
 * names, in insertion order. A for-in loop visits names in that order,
 * except names that look like array indices, which it visits first.
 * A literal that repeats a name stands for the object it builds (the name
 * once, at its first place, with its last value), not for its text. The
 * functions below are defined on any sequence; the plugin's requests carry
 * objects only (DistinctKeys).
 */
module SliderOptions {
  import opened Wrappers

  /** The JavaScript values an option can hold. */
  datatype Val = Undefined | Num(n: real) | Bool(b: bool) | Text(s: string)

  type Options = map<string, Val>

  type Props = seq<(string, Val)>

  /** Options the widget computes with, and options it tests for truthiness. */
  const NumericKeys: set<string> := {"min", "max", "value"}
  const FlagKeys: set<string> := {"smooth", "seekOnTrack", "seekOnOwner", "vertical", "createElements"}

  /** defaultOptions, in declaration order. */
  function Defaults(): Props
  {
    [ ("min", Num(0.0)), ("max", Num(99.0)), ("value", Num(0.0)), ("smooth", Bool(true)),
      ("seekOnTrack", Bool(true)), ("seekOnOwner", Bool(true)), ("vertical", Bool(false)),
      ("createElements", Bool(true)) ]
  }

  /** The known options hold a number or a boolean; any other name may hold anything. */
  predicate Fits(k: string, v: Val)
  {
    (k in NumericKeys ==> v.Num?) && (k in FlagKeys ==> v.Bool?)
  }

  predicate PropsFit(p: Props)
  {
    forall i :: 0 <= i < |p| ==> Fits(p[i].0, p[i].1)
  }

  predicate Typed(o: Options)
  {
    forall k :: k in o ==> Fits(k, o[k])
  }

  /** Every known option is present (true of an instance once it is created). */
  predicate Complete(o: Options)
  {
    && "min" in o && "max" in o && "value" in o && "smooth" in o
    && "seekOnTrack" in o && "seekOnOwner" in o && "vertical" in o && "createElements" in o
  }

  /** options[k]: undefined when absent. */
  function Get(o: Options, k: string): Val
  {
    if k in o then o[k] else Undefined
  }

  /** JavaScript truthiness. */
  predicate Truthy(v: Val)
  {
    match v
    case Undefined => false
    case Num(n) => n != 0.0
    case Bool(b) => b
    case Text(s) => s != ""
  }

  predicate Flag(o: Options, k: string)
  {
    Truthy(Get(o, k))
  }

  function Number(o: Options, k: string): real
    requires Typed(o) && Complete(o) && k in NumericKeys
  {
    o[k].n
  }

  predicate HasKey(p: Props, k: string)
  {
    exists i :: 0 <= i < |p| && p[i].0 == k
  }

  predicate DistinctKeys(p: Props)
  {
    forall i, j :: 0 <= i < j < |p| ==> p[i].0 != p[j].0
  }

  /** The value the object literal gives k: the last pair with that name wins. */
  function Lookup(p: Props, k: string): (r: Option<Val>)
    ensures r.Some? <==> HasKey(p, k)
  {
    if p == [] then None
    else if p[|p| - 1].0 == k then Some(p[|p| - 1].1)
    else
      var r := Lookup(p[..|p| - 1], k);
      assert HasKey(p, k) ==> HasKey(p[..|p| - 1], k) by {
        if HasKey(p, k) {
          var i :| 0 <= i < |p| && p[i].0 == k;
          assert i < |p| - 1 && p[..|p| - 1][i].0 == k;
        }
      }
      r
  }

  /** target[k] = v on an object: an existing key keeps its place, a new one goes last. */
  function Assign(t: Props, k: string, v: Val): (r: Props)
    ensures |t| <= |r| <= |t| + 1
    ensures forall i :: 0 <= i < |t| ==> r[i].0 == t[i].0
    ensures |r| == |t| + 1 <==> !HasKey(t, k)
    ensures |r| == |t| + 1 ==> r[|t|] == (k, v)
  {
    if t == [] then [(k, v)]
    else if t[0].0 == k then [(k, v)] + t[1..]
    else
      var rest := Assign(t[1..], k, v);
      assert HasKey(t[1..], k) <==> HasKey(t, k) by {
        if HasKey(t, k) {
          var i :| 0 <= i < |t| && t[i].0 == k;
          assert i > 0 && t[1..][i - 1].0 == k;
        }
        if HasKey(t[1..], k) {
          var i :| 0 <= i < |t[1..]| && t[1..][i].0 == k;
          assert t[i + 1].0 == k;
        }
      }
      [t[0]] + rest
  }

  /** $.extend(target, src): copies every defined property of src onto target, in order. */
  function Extend(t: Props, src: Props): Props
    decreases |src|
  {
    if src == [] then t
    else
      var t' := if src[0].1 == Undefined then t else Assign(t, src[0].0, src[0].1);
      Extend(t', src[1..])
  }

  /** The value $.extend leaves under k: the last defined one in src, else the target's. */
  function LastDefined(src: Props, k: string): Option<Val>
  {
    if src == [] then None
    else
      var i := |src| - 1;
      if src[i].0 == k && src[i].1 != Undefined then Some(src[i].1)
      else LastDefined(src[..i], k)
  }

  // ---------------------------------------------------------------------------
  // Lemmas

  lemma {:induction false} AssignLookup(t: Props, k: string, v: Val, k': string)
    requires DistinctKeys(t)
    ensures DistinctKeys(Assign(t, k, v))
    ensures Lookup(Assign(t, k, v), k') == if k' == k then Some(v) else Lookup(t, k')
    decreases |t|
  {
    var r := Assign(t, k, v);
    if t == [] {
    } else if t[0].0 == k {
      assert r[1..] == t[1..];
      LookupFront(t, k');
      LookupFront(r, k');
    } else {
      AssignLookup(t[1..], k, v, k');
      assert r == [t[0]] + Assign(t[1..], k, v);
      assert r[1..] == Assign(t[1..], k, v);
      assert t[0].0 !in set i | 0 <= i < |r[1..]| :: r[1..][i].0 by {
        if HasKey(t[1..], k) {
        } else {
          assert r[1..][|r[1..]| - 1] == (k, v);
        }
        forall i | 0 <= i < |r[1..]| ensures r[1..][i].0 != t[0].0 {
          if i < |t[1..]| {
            assert r[1..][i].0 == t[1..][i].0 == t[i + 1].0;
          } else {
            assert r[1..][i] == (k, v);
          }
        }
      }
      LookupFront(t, k');
      LookupFront(r, k');
    }
  }

  /** Lookup on a key-distinct object, split at the first pair. */
  lemma {:induction false} LookupFront(p: Props, k: string)
    requires |p| > 0
    requires forall i :: 1 <= i < |p| ==> p[i].0 != p[0].0
    ensures Lookup(p, k) == if p[0].0 == k then Some(p[0].1) else Lookup(p[1..], k)
    decreases |p|
  {
    if |p| == 1 {
      assert p[1..] == [];
    } else {
      var n := |p| - 1;
      assert p[1..][..n - 1] == p[..n][1..];
      if p[n].0 == k {
        assert p[1..][n - 1] == p[n];
      } else {
        LookupFront(p[..n], k);
      }
    }
  }

  /** Lookup split at the first pair: a later pair with the same name wins. */
  lemma {:induction false} LookupSplit(p: Props, k: string)
    requires |p| > 0
    ensures Lookup(p, k) ==
      match Lookup(p[1..], k)
      case Some(v) => Some(v)
      case None => if p[0].0 == k then Some(p[0].1) else None
    decreases |p|
  {
    if |p| > 1 {
      var n := |p| - 1;
      assert p[1..][..n - 1] == p[..n][1..];
      assert p[1..][n - 1] == p[n];
      LookupSplit(p[..n], k);
    } else {
      assert p[1..] == [];
    }
  }

  /** $.extend keeps the target's names in their places, keeps names distinct and
      leaves under each name the last defined value of src, else the target's. */
  lemma {:induction false} ExtendLookup(t: Props, src: Props, k: string)
    requires DistinctKeys(t)
    ensures var r := Extend(t, src);
      && DistinctKeys(r)
      && |t| <= |r|
      && (forall i :: 0 <= i < |t| ==> r[i].0 == t[i].0)
      && Lookup(r, k) == match LastDefined(src, k) case Some(v) => Some(v) case None => Lookup(t, k)
    decreases |src|
  {
    if src != [] {
      var t' := if src[0].1 == Undefined then t else Assign(t, src[0].0, src[0].1);
      if src[0].1 != Undefined {
        AssignLookup(t, src[0].0, src[0].1, k);
      }
      ExtendLookup(t', src[1..], k);
      LastDefinedFront(src, k);
    }
  }

  lemma {:induction false} LastDefinedFront(src: Props, k: string)
    requires |src| > 0
    ensures LastDefined(src, k) ==
      match LastDefined(src[1..], k)
      case Some(v) => Some(v)
      case None => if src[0].0 == k && src[0].1 != Undefined then Some(src[0].1) else None
    decreases |src|
  {
    if |src| > 1 {
      var n := |src| - 1;
      assert src[1..][..n - 1] == src[..n][1..];
      assert src[1..][n - 1] == src[n];
      LastDefinedFront(src[..n], k);
    } else {
      assert src[1..] == [];
    }
  }

  /** $.extend of well-typed objects is well typed. */
  lemma {:induction false} ExtendFits(t: Props, src: Props)
    requires PropsFit(t) && PropsFit(src)
    ensures PropsFit(Extend(t, src))
    decreases |src|
  {
    if src != [] {
      var t' := if src[0].1 == Undefined then t else Assign(t, src[0].0, src[0].1);
      if src[0].1 != Undefined {
        AssignFits(t, src[0].0, src[0].1);
      }
      ExtendFits(t', src[1..]);
    }
  }

  lemma {:induction false} AssignFits(t: Props, k: string, v: Val)
    requires PropsFit(t) && Fits(k, v)
    ensures PropsFit(Assign(t, k, v))
    decreases |t|
  {
    if t != [] && t[0].0 != k {
      AssignFits(t[1..], k, v);
    }
  }

  /** The defaults name every known option once, each with a value of its type. */
  lemma DefaultsShape()
    ensures PropsFit(Defaults()) && DistinctKeys(Defaults())
    ensures forall i :: 0 <= i < |Defaults()| ==> Defaults()[i].0 in NumericKeys + FlagKeys
    ensures |Defaults()| == |NumericKeys + FlagKeys|
  {
    assert NumericKeys + FlagKeys == {"min", "max", "value", "smooth", "seekOnTrack", "seekOnOwner", "vertical", "createElements"};
  }
}
