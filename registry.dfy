/**
 * OO.Registry (src/Registry.js): a table from symbolic names to data, with
 * single and bulk registration and removal.
 *
 * The registry is a mixin of an event emitter in JavaScript; its own
 * `register` and `unregister` events are recorded, in order, in `emitted`.
 * Data are JavaScript values; `undefined` stands for "no data", as `lookup`
 * reports it.
 */
module Registries {
  import opened Wrappers
  import opened JsValues

  /**
   * The `name` argument: a string, an array (whose elements are names in
   * turn), or any other value, of which only its `typeof` matters.
   */
  datatype NameArg = Single(name: string) | Several(names: seq<NameArg>) | Invalid(typeName: string)

  /** An event the registry emits, with its arguments. */
  datatype RegistryEvent = RegisterEvent(name: string, data: Value) | UnregisterEvent(name: string, data: Value)

  /** "Name must be a string or array, cannot be a <typeof name>". */
  datatype RegistryError = NotAName(typeName: string)

  /**
   * How a call walks its `name` argument: the strings it reaches, in order,
   * and the `typeof` of the first value that is neither a string nor an
   * array, where the walk throws.
   */
  datatype Walk = Walk(names: seq<string>, bad: Option<string>)

  /** The walk of one name argument, depth first as the recursive calls go. */
  function Visit(name: NameArg): Walk
    decreases name, 1
  {
    match name
    case Single(s) => Walk([s], None)
    case Several(xs) => VisitAll(xs)
    case Invalid(t) => Walk([], Some(t))
  }

  /** The walk of the elements of an array argument; it stops at the first bad one. */
  function VisitAll(xs: seq<NameArg>): Walk
    decreases xs, 0
  {
    if xs == [] then Walk([], None)
    else
      var w := Visit(xs[0]);
      if w.bad.Some? then w
      else
        var rest := VisitAll(xs[1..]);
        Walk(w.names + rest.names, rest.bad)
  }

  /** Walking one more element after a prefix that did not throw. */
  lemma {:induction false} VisitAllSnoc(xs: seq<NameArg>, x: NameArg)
    requires VisitAll(xs).bad == None
    ensures VisitAll(xs + [x]) == Walk(VisitAll(xs).names + Visit(x).names, Visit(x).bad)
    decreases |xs|
  {
    if xs == [] {
      assert [] + [x] == [x];
      assert [x][1..] == [];
      assert Visit(x).names + [] == Visit(x).names;
    } else {
      assert (xs + [x])[0] == xs[0] && (xs + [x])[1..] == xs[1..] + [x];
      VisitAllSnoc(xs[1..], x);
      var w := Visit(xs[0]);
      assert w.names + (VisitAll(xs[1..]).names + Visit(x).names) == (w.names + VisitAll(xs[1..]).names) + Visit(x).names;
    }
  }

  /** Once the walk of a prefix throws, the rest of the array is never reached. */
  lemma {:induction false} VisitAllStops(xs: seq<NameArg>, k: nat)
    requires k <= |xs| && VisitAll(xs[..k]).bad.Some?
    ensures VisitAll(xs) == VisitAll(xs[..k])
    decreases k
  {
    assert k > 0;
    assert xs[..k][0] == xs[0] && xs[..k][1..] == xs[1..][..k - 1];
    if Visit(xs[0]).bad == None {
      VisitAllStops(xs[1..], k - 1);
    }
  }

  /** `lookup`: the data of an own entry, or undefined; nothing is inherited. */
  function DataOf(registry: map<string, Value>, name: string): Value {
    if name in registry then registry[name] else Undefined
  }

  /** The registry after every name of `names` is set to `data`, one name after the other. */
  function Assigned(registry: map<string, Value>, names: seq<string>, data: Value): map<string, Value>
    decreases |names|
  {
    if names == [] then registry else Assigned(registry[names[0] := data], names[1..], data)
  }

  /** After `register`, every name given has the data, overriding what it had, and other names are unchanged. */
  lemma {:induction false} AssignedLookup(registry: map<string, Value>, names: seq<string>, data: Value)
    ensures var r := Assigned(registry, names, data);
      && (forall n :: n in names ==> DataOf(r, n) == data)
      && (forall n :: n !in names ==> DataOf(r, n) == DataOf(registry, n))
      && r.Keys == registry.Keys + set n | n in names
    decreases |names|
  {
    if names != [] {
      AssignedLookup(registry[names[0] := data], names[1..], data);
      assert forall n :: n in names <==> n == names[0] || n in names[1..];
    }
  }

  /** Assigning two runs of names one after the other assigns their concatenation. */
  lemma {:induction false} AssignedAppend(registry: map<string, Value>, a: seq<string>, b: seq<string>, data: Value)
    ensures Assigned(Assigned(registry, a, data), b, data) == Assigned(registry, a + b, data)
    decreases |a|
  {
    if a == [] {
      assert [] + b == b;
    } else {
      assert (a + b)[0] == a[0] && (a + b)[1..] == a[1..] + b;
      AssignedAppend(registry[a[0] := data], a[1..], b, data);
    }
  }

  /** The `register` events of a run of names, in order. */
  function RegisterEvents(names: seq<string>, data: Value): seq<RegistryEvent>
    decreases |names|
  {
    if names == [] then [] else [RegisterEvent(names[0], data)] + RegisterEvents(names[1..], data)
  }

  /** The events of two runs of names, one after the other, are the events of their concatenation. */
  lemma {:induction false} RegisterEventsAppend(a: seq<string>, b: seq<string>, data: Value)
    ensures RegisterEvents(a, data) + RegisterEvents(b, data) == RegisterEvents(a + b, data)
    decreases |a|
  {
    if a == [] {
      assert [] + b == b;
    } else {
      assert (a + b)[0] == a[0] && (a + b)[1..] == a[1..] + b;
      RegisterEventsAppend(a[1..], b, data);
    }
  }

  /** `register` reports each name it reaches, in order, with the data. */
  lemma {:induction false} RegisterEventsMeaning(names: seq<string>, data: Value)
    ensures |RegisterEvents(names, data)| == |names|
    ensures forall i :: 0 <= i < |names| ==> RegisterEvents(names, data)[i] == RegisterEvent(names[i], data)
    decreases |names|
  {
    if names != [] {
      RegisterEventsMeaning(names[1..], data);
    }
  }

  /** The outcome of a walk: the error of its bad value, if any. */
  function Thrown(w: Walk): (r: Outcome<RegistryError>)
    ensures r.Fail? <==> w.bad.Some?
  {
    if w.bad.Some? then Fail(NotAName(w.bad.value)) else Pass
  }

  /** The registry and events of `unregister` over a run of names. */
  datatype Removal = Removal(registry: map<string, Value>, events: seq<RegistryEvent>)

  /**
   * `unregister` over a run of names, one at a time: a name whose data is
   * not undefined is deleted and reported with that data; any other name
   * changes nothing.
   */
  function Unassigned(registry: map<string, Value>, names: seq<string>): Removal
    decreases |names|
  {
    if names == [] then Removal(registry, [])
    else
      var n, d := names[0], DataOf(registry, names[0]);
      var rest := Unassigned(if d != Undefined then registry - {n} else registry, names[1..]);
      Removal(rest.registry, (if d != Undefined then [UnregisterEvent(n, d)] else []) + rest.events)
  }

  /** Unregistering two runs of names one after the other unregisters their concatenation. */
  lemma {:induction false} UnassignedAppend(registry: map<string, Value>, a: seq<string>, b: seq<string>)
    ensures var r1 := Unassigned(registry, a); var r2 := Unassigned(r1.registry, b);
      Unassigned(registry, a + b) == Removal(r2.registry, r1.events + r2.events)
    decreases |a|
  {
    if a == [] {
      assert [] + b == b;
    } else {
      assert (a + b)[0] == a[0] && (a + b)[1..] == a[1..] + b;
      var n, d := a[0], DataOf(registry, a[0]);
      var next := if d != Undefined then registry - {n} else registry;
      UnassignedAppend(next, a[1..], b);
      var head := if d != Undefined then [UnregisterEvent(n, d)] else [];
      var e1, e2 := Unassigned(next, a[1..]).events, Unassigned(Unassigned(next, a[1..]).registry, b).events;
      assert head + (e1 + e2) == (head + e1) + e2;
    }
  }

  /** The names of a run that `unregister` removes: those whose data is not undefined. */
  function Removable(registry: map<string, Value>, names: seq<string>): set<string> {
    set n | n in names && DataOf(registry, n) != Undefined
  }

  /** The names reported by a run of events, in order. */
  function EventNames(events: seq<RegistryEvent>): (r: seq<string>)
    ensures |r| == |events| && forall i :: 0 <= i < |events| ==> r[i] == events[i].name
  {
    seq(|events|, i requires 0 <= i < |events| => events[i].name)
  }

  /**
   * What `unregister` over a run of names leaves: exactly the removable
   * names are deleted; every other entry, including one holding undefined,
   * stays.
   */
  lemma {:induction false} UnassignedRegistry(registry: map<string, Value>, names: seq<string>)
    ensures Unassigned(registry, names).registry == registry - Removable(registry, names)
    decreases |names|
  {
    if names != [] {
      var n, d := names[0], DataOf(registry, names[0]);
      var next := if d != Undefined then registry - {n} else registry;
      UnassignedRegistry(next, names[1..]);
      assert forall x :: x in names <==> x == n || x in names[1..];
      if d != Undefined {
        assert Removable(next, names[1..]) == Removable(registry, names) - {n};
      } else {
        assert Removable(next, names[1..]) == Removable(registry, names);
      }
    }
  }

  /** The first name of a run is reported when, and only when, it has data; the others are reported on what remains. */
  lemma RemovableCons(registry: map<string, Value>, names: seq<string>)
    requires names != []
    ensures var n, d := names[0], DataOf(registry, names[0]);
      var next := if d != Undefined then registry - {n} else registry;
      && Unassigned(registry, names).events ==
           (if d != Undefined then [UnregisterEvent(n, d)] else []) + Unassigned(next, names[1..]).events
      && Removable(next, names[1..]) == Removable(registry, names) - {n}
      && (d == Undefined ==> next == registry && n !in Removable(registry, names))
      && (d != Undefined ==> n in Removable(registry, names) && n in registry && d == registry[n])
  {
    assert forall x :: x in names <==> x == names[0] || x in names[1..];
  }

  /** Every `unregister` event of a run reports a removable name with the data it had. */
  lemma {:induction false} UnassignedReportsRemovable(registry: map<string, Value>, names: seq<string>)
    ensures var events := Unassigned(registry, names).events;
      forall i :: 0 <= i < |events| ==>
        events[i].UnregisterEvent? && events[i].name in Removable(registry, names) &&
        events[i].data == registry[events[i].name]
    decreases |names|
  {
    if names != [] {
      var n, d := names[0], DataOf(registry, names[0]);
      var next := if d != Undefined then registry - {n} else registry;
      RemovableCons(registry, names);
      UnassignedReportsRemovable(next, names[1..]);
      var rest := Unassigned(next, names[1..]).events;
      var events := Unassigned(registry, names).events;
      var k := if d != Undefined then 1 else 0;
      forall i | 0 <= i < |events|
        ensures events[i].UnregisterEvent? && events[i].name in Removable(registry, names)
        ensures events[i].data == registry[events[i].name]
      {
        if i >= k {
          assert events[i] == rest[i - k];
          assert rest[i - k].name in next;
        }
      }
    }
  }

  /** Every removable name of a run is reported by an `unregister` event. */
  lemma {:induction false} UnassignedReportsAll(registry: map<string, Value>, names: seq<string>)
    ensures forall n :: n in Removable(registry, names) ==> n in EventNames(Unassigned(registry, names).events)
    decreases |names|
  {
    if names != [] {
      var n, d := names[0], DataOf(registry, names[0]);
      var next := if d != Undefined then registry - {n} else registry;
      RemovableCons(registry, names);
      UnassignedReportsAll(next, names[1..]);
      var rest := Unassigned(next, names[1..]).events;
      if d != Undefined {
        assert EventNames([UnregisterEvent(n, d)] + rest) == [n] + EventNames(rest);
      } else {
        assert [] + rest == rest;
      }
    }
  }

  /** No name is reported twice by the `unregister` events of a run. */
  lemma {:induction false} UnassignedReportsOnce(registry: map<string, Value>, names: seq<string>)
    ensures var events := Unassigned(registry, names).events;
      forall i, j :: 0 <= i < j < |events| ==> events[i].name != events[j].name
    decreases |names|
  {
    if names != [] {
      var n, d := names[0], DataOf(registry, names[0]);
      var next := if d != Undefined then registry - {n} else registry;
      RemovableCons(registry, names);
      UnassignedReportsOnce(next, names[1..]);
      var rest := Unassigned(next, names[1..]).events;
      if d != Undefined {
        UnassignedReportsRemovable(next, names[1..]);
        var events := [UnregisterEvent(n, d)] + rest;
        forall i, j | 0 <= i < j < |events| ensures events[i].name != events[j].name {
          assert events[j] == rest[j - 1];
          if i > 0 {
            assert events[i] == rest[i - 1];
          } else {
            assert rest[j - 1].name in next;
          }
        }
      } else {
        assert [] + rest == rest;
      }
    }
  }

  /** One turn of the loop of `register`: the walk and the registry grow by the element's walk. */
  lemma RegisterStep(registry: map<string, Value>, xs: seq<NameArg>, i: nat, data: Value)
    requires i < |xs| && VisitAll(xs[..i]).bad == None
    ensures var done, step := VisitAll(xs[..i]).names, Visit(xs[i]);
      && VisitAll(xs[..i + 1]) == Walk(done + step.names, step.bad)
      && Assigned(Assigned(registry, done, data), step.names, data) == Assigned(registry, done + step.names, data)
      && RegisterEvents(done, data) + RegisterEvents(step.names, data) == RegisterEvents(done + step.names, data)
  {
    assert xs[..i + 1] == xs[..i] + [xs[i]];
    VisitAllSnoc(xs[..i], xs[i]);
    AssignedAppend(registry, VisitAll(xs[..i]).names, Visit(xs[i]).names, data);
    RegisterEventsAppend(VisitAll(xs[..i]).names, Visit(xs[i]).names, data);
  }

  /** One turn of the loop of `unregister`: the walk grows by the element's walk, and so do the removals. */
  lemma UnregisterStep(registry: map<string, Value>, xs: seq<NameArg>, i: nat)
    requires i < |xs| && VisitAll(xs[..i]).bad == None
    ensures var done, step := VisitAll(xs[..i]).names, Visit(xs[i]);
      var u1 := Unassigned(registry, done); var u2 := Unassigned(u1.registry, step.names);
      && VisitAll(xs[..i + 1]) == Walk(done + step.names, step.bad)
      && Unassigned(registry, done + step.names) == Removal(u2.registry, u1.events + u2.events)
  {
    assert xs[..i + 1] == xs[..i] + [xs[i]];
    VisitAllSnoc(xs[..i], xs[i]);
    UnassignedAppend(registry, VisitAll(xs[..i]).names, Visit(xs[i]).names);
  }

  /** Registering names and then unregistering them leaves none of them, with one report each. */
  lemma RegisterUnregister(registry: map<string, Value>, name: string, data: Value)
    requires data != Undefined
    ensures var r := Unassigned(Assigned(registry, [name], data), [name]);
      r.registry == registry - {name} && r.events == [UnregisterEvent(name, data)]
  {
    var m := Assigned(registry, [name], data);
    assert [name][1..] == [];
    assert m == Assigned(registry[name := data], [], data) == registry[name := data];
    assert Unassigned(m - {name}, []) == Removal(m - {name}, []);
    assert m - {name} == registry - {name};
  }

  /** Unregistering a name that has no data changes nothing and reports nothing. */
  lemma UnregisterUnknown(registry: map<string, Value>, name: string)
    requires DataOf(registry, name) == Undefined
    ensures Unassigned(registry, [name]) == Removal(registry, [])
  {
    assert [name][1..] == [];
  }

  class Registry {
    /** The own entries of `this.registry`. */
    var registry: map<string, Value>
    /** The `register` and `unregister` events emitted so far, in order. */
    var emitted: seq<RegistryEvent>

    /** A new registry: no name has data, not even `hasOwnProperty` or `prototype`. */
    constructor ()
      ensures registry == map[] && emitted == []
      ensures forall name :: Lookup(name) == Undefined
    {
      registry := map[];
      emitted := [];
    }

    /** `lookup( name )`. */
    function Lookup(name: string): Value
      reads this
    {
      DataOf(registry, name)
    }

    /**
     * `register( name, data )`: every string reached by the walk of `name`
     * gets `data`, overriding what it had, and is reported in a `register`
     * event; the first value that is neither a string nor an array throws,
     * after the names before it took effect.
     */
    method Register(name: NameArg, data: Value) returns (r: Outcome<RegistryError>)
      modifies this
      decreases name, 1
      ensures registry == Assigned(old(registry), Visit(name).names, data)
      ensures emitted == old(emitted) + RegisterEvents(Visit(name).names, data)
      ensures r == Thrown(Visit(name))
    {
      match name
      case Single(s) => {
        registry := registry[s := data];
        emitted := emitted + [RegisterEvent(s, data)];
        assert [s][1..] == [];
        assert registry == Assigned(old(registry), [s], data);
        assert RegisterEvents([s], data) == [RegisterEvent(s, data)] + [];
        r := Pass;
      }
      case Several(xs) => {
        r := RegisterEach(xs, data);
      }
      case Invalid(t) => {
        r := Fail(NotAName(t));
      }
    }

    /**
     * `unregister( name )`: every string reached by the walk of `name` whose
     * data is not undefined is deleted and reported in an `unregister` event
     * with that data; other strings are skipped; the first value that is
     * neither a string nor an array throws, after the names before it took
     * effect.
     */
    method Unregister(name: NameArg) returns (r: Outcome<RegistryError>)
      modifies this
      decreases name, 1
      ensures var u := Unassigned(old(registry), Visit(name).names);
        registry == u.registry && emitted == old(emitted) + u.events
      ensures r == Thrown(Visit(name))
    {
      match name
      case Single(s) => {
        var data := Lookup(s);
        if data != Undefined {
          registry := registry - {s};
          emitted := emitted + [UnregisterEvent(s, data)];
        }
        assert [s][1..] == [];
        r := Pass;
      }
      case Several(xs) => {
        r := UnregisterEach(xs);
      }
      case Invalid(t) => {
        r := Fail(NotAName(t));
      }
    }

    /** The loop of `register` over the elements of an array name, which stops at the first throw. */
    method RegisterEach(xs: seq<NameArg>, data: Value) returns (r: Outcome<RegistryError>)
      modifies this
      decreases xs, 0
      ensures registry == Assigned(old(registry), VisitAll(xs).names, data)
      ensures emitted == old(emitted) + RegisterEvents(VisitAll(xs).names, data)
      ensures r == Thrown(VisitAll(xs))
    {
      var i := 0;
      ghost var done: seq<string> := [];
      assert RegisterEvents([], data) == [];
      while i < |xs|
        invariant 0 <= i <= |xs|
        invariant VisitAll(xs[..i]) == Walk(done, None)
        invariant registry == Assigned(old(registry), done, data)
        invariant emitted == old(emitted) + RegisterEvents(done, data)
      {
        RegisterStep(old(registry), xs, i, data);
        ghost var step := Visit(xs[i]).names;
        ghost var before := emitted;
        r := Register(xs[i], data);
        assert emitted == old(emitted) + (RegisterEvents(done, data) + RegisterEvents(step, data));
        done := done + step;
        if r.Fail? {
          VisitAllStops(xs, i + 1);
          return;
        }
        i := i + 1;
      }
      assert xs[..i] == xs;
      r := Pass;
    }

    /** The loop of `unregister` over the elements of an array name, which stops at the first throw. */
    method UnregisterEach(xs: seq<NameArg>) returns (r: Outcome<RegistryError>)
      modifies this
      decreases xs, 0
      ensures var u := Unassigned(old(registry), VisitAll(xs).names);
        registry == u.registry && emitted == old(emitted) + u.events
      ensures r == Thrown(VisitAll(xs))
    {
      var i := 0;
      ghost var done: seq<string> := [];
      while i < |xs|
        invariant 0 <= i <= |xs|
        invariant VisitAll(xs[..i]) == Walk(done, None)
        invariant registry == Unassigned(old(registry), done).registry
        invariant emitted == old(emitted) + Unassigned(old(registry), done).events
      {
        UnregisterStep(old(registry), xs, i);
        ghost var step := Visit(xs[i]).names;
        ghost var e1 := Unassigned(old(registry), done).events;
        r := Unregister(xs[i]);
        ghost var e2 := Unassigned(Unassigned(old(registry), done).registry, step).events;
        assert emitted == old(emitted) + (e1 + e2);
        done := done + step;
        if r.Fail? {
          VisitAllStops(xs, i + 1);
          return;
        }
        i := i + 1;
      }
      assert xs[..i] == xs;
      r := Pass;
    }
  }

  /** The walk of `[ 'a', [ 'b' ], 5, 'c' ]` reaches `a` and `b`, then throws at the number. */
  lemma RegistryExamples()
    ensures Visit(Several([Single("a"), Several([Single("b")]), Invalid("number"), Single("c")])) ==
      Walk(["a", "b"], Some("number"))
  {
    var xs := [Single("a"), Several([Single("b")]), Invalid("number"), Single("c")];
    assert xs[1..][1..][0] == Invalid("number");
    assert VisitAll([Single("b")]) == Walk(["b"], None);
  }
}
