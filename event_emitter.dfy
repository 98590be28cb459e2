/**
 * OO.EventEmitter (src/EventEmitter.js): a table from event names to the
 * lists of listeners bound to them, with the operations that add, remove,
 * connect, disconnect and call those listeners.
 *
 * What a JavaScript function does when called is outside the model: a
 * function is an identity (`FnId`), a method name is resolved through a
 * `World` that says which named properties of which objects hold which
 * functions, and whether a call throws is decided by a `throws` oracle.
 */
module Events {
  import opened Wrappers

  /** The identity of a JavaScript function object (`===` on functions). */
  type FnId = nat

  /** The `this` of a call: null, undefined or an object. */
  datatype Context = Null | Undefined | Ref(obj: object)

  /** A listener as passed to `on`: a function, a method name, or anything else. */
  datatype Method = Fn(id: FnId) | Name(name: string) | NotCallable

  /** An argument value passed to a listener. */
  datatype Arg = StrArg(s: string) | NumArg(n: int) | RefArg(obj: object)

  /** One entry of a bindings list. `args == None` is `args: undefined`. */
  datatype Binding = Binding(listener: Method, args: Option<seq<Arg>>, context: Context, once: bool)

  /** The function-valued named properties of the objects a call can use as context. */
  type World = map<object, map<string, FnId>>

  /** `this.bindings`: event name to the non-empty list of its bindings. */
  type Table = map<string, seq<Binding>>

  /** The three errors validateMethod throws. */
  datatype MethodError = NoContext(name: string) | NotAFunction(name: string) | InvalidCallback

  /** The outcome of a sequence of steps, each of which may throw: the table reached and how it ended. */
  datatype Step = Step(table: Table, outcome: Outcome<MethodError>)

  /** One invocation of a listener: `fn.apply( context, args )`. */
  datatype Call = Call(fn: FnId, context: Context, args: seq<Arg>)

  /**
   * An error raised while emitting: the invoked listener threw, or the
   * named method of a binding was no longer a function when it was looked up.
   */
  datatype Thrown = HandlerError(call: Call) | UnresolvedError(binding: Binding)

  /** The calls made while emitting, in order, and the errors raised, in order. */
  datatype Trace = Trace(calls: seq<Call>, errors: seq<Thrown>)

  /** The listener of `connect`/`disconnect`: a bare method, or an array `[ method, ...args ]`. */
  datatype Spec = Plain(m: Method) | Listed(head: Method, extra: seq<Arg>)

  /** What `off` was given besides the event name. */
  datatype OffArgs =
    | AllListeners
      /** `context == None` when the argument was omitted. */
    | Listener(m: Method, context: Option<Context>)

  /** `context[ name ]` when it is a function. */
  function Lookup(world: World, ctx: Context, name: string): Option<FnId> {
    if ctx.Ref? && ctx.obj in world && name in world[ctx.obj] then Some(world[ctx.obj][name]) else None
  }

  /** validateMethod( method, context ). */
  function ValidateMethod(m: Method, ctx: Context, world: World): (r: Outcome<MethodError>)
    ensures r.Pass? <==> m.Fn? || (m.Name? && Lookup(world, ctx, m.name).Some?)
    ensures m.Name? && (ctx == Null || ctx == Undefined) ==> r == Fail(NoContext(m.name))
    ensures m.Name? && ctx.Ref? && Lookup(world, ctx, m.name).None? ==> r == Fail(NotAFunction(m.name))
    ensures m.NotCallable? ==> r == Fail(InvalidCallback)
  {
    match m
    case Fn(_) => Pass
    case Name(n) =>
      if ctx == Null || ctx == Undefined then Fail(NoContext(n))
      else if Lookup(world, ctx, n).None? then Fail(NotAFunction(n))
      else Pass
    case NotCallable => Fail(InvalidCallback)
  }

  /** An omitted context argument is undefined when validated ... */
  function OrUndefined(c: Option<Context>): Context {
    if c.Some? then c.value else Undefined
  }

  /** ... and null when stored or matched. */
  function OrNull(c: Option<Context>): Context {
    if c.Some? then c.value else Null
  }

  /**
   * What every binding the operations store satisfies: `once` stores a
   * function with a null context and no arguments, a method name always has
   * an object as context (validateMethod saw it), and a non-callable
   * listener never gets in.
   */
  predicate BindingOk(b: Binding) {
    && b.listener != NotCallable
    && (b.listener.Name? ==> b.context.Ref?)
    && (b.once ==> b.listener.Fn? && b.context == Null && b.args == None)
  }

  /** The invariant of `bindings`: no empty list is kept, and every binding is one the operations store. */
  predicate WellFormed(t: Table) {
    forall e :: e in t ==> t[e] != [] && forall b :: b in t[e] ==> BindingOk(b)
  }

  /** The bindings of `e`; none when the event has no entry. */
  function ListOf(t: Table, e: string): seq<Binding> {
    if e in t then t[e] else []
  }

  /** addBinding: push onto the list of `e`, creating it when missing. */
  function Append(t: Table, e: string, b: Binding): (r: Table)
    ensures ListOf(r, e) == ListOf(t, e) + [b]
    ensures forall e' :: e' != e ==> ListOf(r, e') == ListOf(t, e')
    ensures WellFormed(t) && BindingOk(b) ==> WellFormed(r)
  {
    t[e := ListOf(t, e) + [b]]
  }

  /** The test of the removal loop of `off`: same method and same context, both by `===`. */
  predicate Matches(b: Binding, m: Method, c: Context) {
    b.listener == m && b.context == c
  }

  /** The list without the bindings that match `m` and `c`, the others in their order. */
  function RemoveMatching(l: seq<Binding>, m: Method, c: Context): (r: seq<Binding>)
    ensures |r| <= |l|
  {
    if l == [] then []
    else (if Matches(l[0], m, c) then [] else [l[0]]) + RemoveMatching(l[1..], m, c)
  }

  /** The removal keeps exactly the bindings that do not match. */
  lemma {:induction false} RemoveMatchingMembers(l: seq<Binding>, m: Method, c: Context)
    ensures forall b :: b in RemoveMatching(l, m, c) ==> b in l && !Matches(b, m, c)
    ensures forall b :: b in l && !Matches(b, m, c) ==> b in RemoveMatching(l, m, c)
    decreases |l|
  {
    if l != [] {
      assert l == [l[0]] + l[1..];
      RemoveMatchingMembers(l[1..], m, c);
    }
  }

  /** The list without the bindings whose context is `c`, the others in their order. */
  function WithoutCtx(l: seq<Binding>, c: Context): (r: seq<Binding>)
    ensures |r| <= |l|
  {
    if l == [] then []
    else (if l[0].context == c then [] else [l[0]]) + WithoutCtx(l[1..], c)
  }

  /** `WithoutCtx` keeps exactly the bindings of other contexts. */
  lemma {:induction false} WithoutCtxMembers(l: seq<Binding>, c: Context)
    ensures forall b :: b in WithoutCtx(l, c) ==> b in l && b.context != c
    ensures forall b :: b in l && b.context != c ==> b in WithoutCtx(l, c)
    decreases |l|
  {
    if l != [] {
      assert l == [l[0]] + l[1..];
      WithoutCtxMembers(l[1..], c);
    }
  }

  /**
   * `off( e, m, c )` once validation has passed: the matching bindings go,
   * and so does the entry when its list becomes empty. An absent or empty
   * entry is left alone.
   */
  function OffSpec(t: Table, e: string, m: Method, c: Context): Table {
    if e !in t || t[e] == [] then t
    else
      var l := RemoveMatching(t[e], m, c);
      if l == [] then t - {e} else t[e := l]
  }

  /**
   * The loop of `off( event, m, context )`: from the end of the list to
   * its start, each binding of `m` in the context is spliced out.
   */
  method Unbind(orig: seq<Binding>, m: Method, c: Context) returns (list: seq<Binding>)
    ensures list == RemoveMatching(orig, m, c)
  {
    list := orig;
    var i := |list|;
    ghost var kept: seq<Binding> := [];
    while i > 0
      invariant 0 <= i <= |orig|
      invariant kept == RemoveMatching(orig[i..], m, c)
      invariant list == orig[..i] + kept
    {
      i := i - 1;
      UnbindStep(orig, i, m, c);
      Splice(orig[..i], orig[i], kept);
      if list[i].listener == m && list[i].context == c {
        list := list[..i] + list[i + 1..];
      } else {
        kept := [orig[i]] + kept;
      }
    }
    assert orig[0..] == orig;
  }

  /** One binding more of the tail the loop of `off` has walked. */
  lemma UnbindStep(orig: seq<Binding>, i: nat, m: Method, c: Context)
    requires i < |orig|
    ensures RemoveMatching(orig[i..], m, c) ==
      (if Matches(orig[i], m, c) then [] else [orig[i]]) + RemoveMatching(orig[i + 1..], m, c)
    ensures orig[..i + 1] == orig[..i] + [orig[i]]
  {
    assert orig[i..][1..] == orig[i + 1..];
  }

  /** The parts of `p + [x] + q` around position |p|. */
  lemma Splice<T>(p: seq<T>, x: T, q: seq<T>)
    ensures var s := p + [x] + q; s[..|p|] == p && s[|p|] == x && s[|p| + 1..] == q
    ensures p + [x] + q == p + ([x] + q)
  {
    var s := p + [x] + q;
    assert s[..|p|] == p;
    assert s[|p| + 1..] == q;
  }

  /** `off` removes the matching bindings of its event and nothing else. */
  lemma OffSpecLists(t: Table, e: string, m: Method, c: Context)
    ensures ListOf(OffSpec(t, e, m, c), e) == RemoveMatching(ListOf(t, e), m, c)
    ensures forall e' :: e' != e ==> ListOf(OffSpec(t, e, m, c), e') == ListOf(t, e')
    ensures WellFormed(t) ==> WellFormed(OffSpec(t, e, m, c))
  {
    RemoveMatchingMembers(ListOf(t, e), m, c);
  }

  /** Concatenation is associative. */
  lemma Regroup<T>(a: seq<T>, b: seq<T>, c: seq<T>)
    ensures a + (b + c) == a + b + c
  {
  }

  /** The removal distributes over concatenation. */
  lemma {:induction false} RemoveMatchingAppend(l1: seq<Binding>, l2: seq<Binding>, m: Method, c: Context)
    ensures RemoveMatching(l1 + l2, m, c) == RemoveMatching(l1, m, c) + RemoveMatching(l2, m, c)
    decreases |l1|
  {
    if l1 != [] {
      var head := if Matches(l1[0], m, c) then [] else [l1[0]];
      assert (l1 + l2)[0] == l1[0] && (l1 + l2)[1..] == l1[1..] + l2;
      RemoveMatchingAppend(l1[1..], l2, m, c);
      Regroup(head, RemoveMatching(l1[1..], m, c), RemoveMatching(l2, m, c));
      calc {
        RemoveMatching(l1 + l2, m, c);
        head + RemoveMatching(l1[1..] + l2, m, c);
        head + (RemoveMatching(l1[1..], m, c) + RemoveMatching(l2, m, c));
        (head + RemoveMatching(l1[1..], m, c)) + RemoveMatching(l2, m, c);
      }
    } else {
      assert l1 + l2 == l2;
    }
  }

  /** The removal keeps every other binding as often as it occurred. */
  lemma {:induction false} RemoveMatchingMultiplicity(l: seq<Binding>, m: Method, c: Context, b: Binding)
    ensures multiset(RemoveMatching(l, m, c))[b] == if Matches(b, m, c) then 0 else multiset(l)[b]
    decreases |l|
  {
    if l != [] {
      assert l == [l[0]] + l[1..];
      RemoveMatchingMultiplicity(l[1..], m, c, b);
    }
  }

  /** Nothing to remove leaves the list as it is. */
  lemma {:induction false} RemoveMatchingNothing(l: seq<Binding>, m: Method, c: Context)
    requires forall b :: b in l ==> !Matches(b, m, c)
    ensures RemoveMatching(l, m, c) == l
    decreases |l|
  {
    if l != [] {
      assert l == [l[0]] + l[1..];
      RemoveMatchingNothing(l[1..], m, c);
    }
  }

  /** Removing bindings of context `c` does not change what `WithoutCtx( _, c )` sees. */
  lemma {:induction false} WithoutCtxAfterRemove(l: seq<Binding>, m: Method, c: Context)
    ensures WithoutCtx(RemoveMatching(l, m, c), c) == WithoutCtx(l, c)
    decreases |l|
  {
    if l != [] {
      var rest := RemoveMatching(l[1..], m, c);
      WithoutCtxAfterRemove(l[1..], m, c);
      if Matches(l[0], m, c) {
        assert RemoveMatching(l, m, c) == rest;
        assert WithoutCtx(l, c) == WithoutCtx(l[1..], c);
      } else {
        assert RemoveMatching(l, m, c) == [l[0]] + rest;
        assert ([l[0]] + rest)[1..] == rest;
      }
    }
  }

  /** A list without bindings of context `c` is its own `WithoutCtx`. */
  lemma {:induction false} WithoutCtxNothing(l: seq<Binding>, c: Context)
    requires forall b :: b in l ==> b.context != c
    ensures WithoutCtx(l, c) == l
    decreases |l|
  {
    if l != [] {
      assert l == [l[0]] + l[1..];
      WithoutCtxNothing(l[1..], c);
    }
  }

  /** `WithoutCtx` distributes over concatenation. */
  lemma {:induction false} WithoutCtxAppend(l1: seq<Binding>, l2: seq<Binding>, c: Context)
    ensures WithoutCtx(l1 + l2, c) == WithoutCtx(l1, c) + WithoutCtx(l2, c)
    decreases |l1|
  {
    if l1 != [] {
      assert (l1 + l2)[1..] == l1[1..] + l2;
      WithoutCtxAppend(l1[1..], l2, c);
    } else {
      assert l1 + l2 == l2;
    }
  }

  /**
   * The step of the backward removal loop of `disconnect`: when no binding
   * past position `i` has context `c` and the binding at `i` is removed,
   * no binding at position `i` or later has context `c` afterwards.
   */
  lemma RemovePositions(l: seq<Binding>, i: nat, m: Method, c: Context)
    requires i < |l| && Matches(l[i], m, c)
    requires forall j :: i < j < |l| ==> l[j].context != c
    ensures var r := RemoveMatching(l, m, c); forall j :: i <= j < |r| ==> r[j].context != c
  {
    assert l == l[..i] + ([l[i]] + l[i + 1..]);
    RemoveMatchingAppend(l[..i], [l[i]] + l[i + 1..], m, c);
    RemoveMatchingAppend([l[i]], l[i + 1..], m, c);
    var p := RemoveMatching(l[..i], m, c);
    var q := RemoveMatching(l[i + 1..], m, c);
    assert RemoveMatching([l[i]], m, c) == [];
    assert RemoveMatching(l, m, c) == p + q;
    var r: seq<Binding> := p + q;
    forall j | i <= j < |r|
      ensures r[j].context != c
    {
      assert r[j] == q[j - |p|];
      RemoveMatchingMembers(l[i + 1..], m, c);
      assert q[j - |p|] in l[i + 1..];
    }
  }

  /** Two well-formed tables with the same lists are the same table. */
  lemma TableExt(t1: Table, t2: Table)
    requires WellFormed(t1) && WellFormed(t2)
    requires forall e :: ListOf(t1, e) == ListOf(t2, e)
    ensures t1 == t2
  {
    assert forall e :: e in t1 <==> ListOf(t1, e) != [];
    assert forall e :: e in t2 <==> ListOf(t2, e) != [];
    assert t1.Keys == t2.Keys;
    assert forall e :: e in t1 ==> t1[e] == ListOf(t1, e);
  }

  /** `on` followed by the matching `off` undoes it, when nothing else matched before. */
  lemma OnOffRoundTrip(t: Table, e: string, b: Binding)
    requires WellFormed(t)
    requires forall x :: x in ListOf(t, e) ==> !Matches(x, b.listener, b.context)
    ensures OffSpec(Append(t, e, b), e, b.listener, b.context) == t
  {
    var l := ListOf(t, e);
    RemoveMatchingAppend(l, [b], b.listener, b.context);
    RemoveMatchingNothing(l, b.listener, b.context);
    assert RemoveMatching([b], b.listener, b.context) == [];
    assert RemoveMatching(l + [b], b.listener, b.context) == l;
    if e in t {
      assert t[e := l] == t;
    } else {
      assert Append(t, e, b) - {e} == t;
    }
  }

  /** The function a binding calls: its own, or the named method resolved at call time. */
  function Resolve(b: Binding, world: World): Option<FnId> {
    match b.listener
    case Fn(id) => Some(id)
    case Name(n) => Lookup(world, b.context, n)
    case NotCallable => None
  }

  /** `binding.args ? binding.args.concat( args ) : args`. */
  function CallArgs(b: Binding, args: seq<Arg>): seq<Arg> {
    if b.args.Some? then b.args.value + args else args
  }

  /**
   * The calls and errors of emitting to the snapshot `snap`, in order:
   * every binding is tried, whatever the ones before it did.
   */
  function Dispatch(snap: seq<Binding>, args: seq<Arg>, world: World, throws: Call -> bool): Trace
    decreases |snap|
  {
    if snap == [] then Trace([], [])
    else
      var prev := Dispatch(snap[..|snap| - 1], args, world, throws);
      var b := snap[|snap| - 1];
      match Resolve(b, world)
      case None => Trace(prev.calls, prev.errors + [UnresolvedError(b)])
      case Some(fn) =>
        var c := Call(fn, b.context, CallArgs(b, args));
        Trace(prev.calls + [c], prev.errors + if throws(c) then [HandlerError(c)] else [])
  }

  /** The effect on the table of the `off` a `once` binding makes before its call. */
  function OnceStep(t: Table, e: string, b: Binding): Table {
    if b.once && b.listener.Fn? then OffSpec(t, e, b.listener, Null) else t
  }

  /** The table after emitting to the snapshot `snap`. */
  function AfterOnce(t: Table, e: string, snap: seq<Binding>): Table
    decreases |snap|
  {
    if snap == [] then t
    else OnceStep(AfterOnce(t, e, snap[..|snap| - 1]), e, snap[|snap| - 1])
  }

  /** The call a resolved binding makes. */
  function CallOf(b: Binding, args: seq<Arg>, world: World): Call
    requires Resolve(b, world).Some?
  {
    Call(Resolve(b, world).value, b.context, CallArgs(b, args))
  }

  /** Errors are isolated: the calls made do not depend on which listeners throw. */
  lemma {:induction false} DispatchIsolation(snap: seq<Binding>, args: seq<Arg>, world: World, t1: Call -> bool, t2: Call -> bool)
    ensures Dispatch(snap, args, world, t1).calls == Dispatch(snap, args, world, t2).calls
    decreases |snap|
  {
    if snap != [] {
      DispatchIsolation(snap[..|snap| - 1], args, world, t1, t2);
    }
  }

  /**
   * When every listener resolves, each binding of the snapshot is called
   * once, in order, with its context and its bound arguments before the
   * emitted ones.
   */
  lemma {:induction false} DispatchCallsAll(snap: seq<Binding>, args: seq<Arg>, world: World, throws: Call -> bool)
    requires forall b :: b in snap ==> Resolve(b, world).Some?
    ensures var tr := Dispatch(snap, args, world, throws);
      |tr.calls| == |snap| && forall i :: 0 <= i < |snap| ==> tr.calls[i] == CallOf(snap[i], args, world)
    decreases |snap|
  {
    if snap != [] {
      var init, last := snap[..|snap| - 1], snap[|snap| - 1];
      assert forall b :: b in init ==> b in snap;
      DispatchCallsAll(init, args, world, throws);
      assert last in snap;
      var calls := Dispatch(snap, args, world, throws).calls;
      assert calls == Dispatch(init, args, world, throws).calls + [CallOf(last, args, world)];
      forall i | 0 <= i < |snap| ensures calls[i] == CallOf(snap[i], args, world) {
        if i < |init| {
          assert snap[i] == init[i];
        }
      }
    }
  }

  /** No error is raised exactly when every listener resolves and none of the calls throws. */
  lemma {:induction false} DispatchNoErrors(snap: seq<Binding>, args: seq<Arg>, world: World, throws: Call -> bool)
    ensures Dispatch(snap, args, world, throws).errors == [] <==>
      forall b :: b in snap ==> Resolve(b, world).Some? && !throws(CallOf(b, args, world))
    decreases |snap|
  {
    if snap != [] {
      var init := snap[..|snap| - 1];
      assert snap == init + [snap[|snap| - 1]];
      DispatchNoErrors(init, args, world, throws);
    }
  }

  /** Emitting leaves every other event alone and keeps the table well-formed. */
  lemma {:induction false} AfterOnceFrame(t: Table, e: string, snap: seq<Binding>)
    ensures forall e' :: e' != e ==> ListOf(AfterOnce(t, e, snap), e') == ListOf(t, e')
    ensures WellFormed(t) ==> WellFormed(AfterOnce(t, e, snap))
    decreases |snap|
  {
    if snap != [] {
      var prev := AfterOnce(t, e, snap[..|snap| - 1]);
      AfterOnceFrame(t, e, snap[..|snap| - 1]);
      OffSpecLists(prev, e, snap[|snap| - 1].listener, Null);
    }
  }

  /**
   * Emitting only removes bindings of its event: those matching a `once`
   * binding of the snapshot. Every binding of the function of a `once`
   * binding with a null context is gone afterwards, the `once` binding
   * among them, so it is called by one emit only; a binding with an object
   * as context stays.
   */
  lemma {:induction false} AfterOnceList(t: Table, e: string, snap: seq<Binding>)
    ensures forall b :: b in ListOf(AfterOnce(t, e, snap), e) ==> b in ListOf(t, e)
    ensures forall b, x :: b in snap && b.once && b.listener.Fn? && x in ListOf(AfterOnce(t, e, snap), e) ==>
      !Matches(x, b.listener, Null)
    ensures forall b :: b in ListOf(t, e) && b.context.Ref? ==> b in ListOf(AfterOnce(t, e, snap), e)
    decreases |snap|
  {
    if snap != [] {
      var init := snap[..|snap| - 1];
      var last := snap[|snap| - 1];
      var prev := AfterOnce(t, e, init);
      AfterOnceList(t, e, init);
      OffSpecLists(prev, e, last.listener, Null);
      RemoveMatchingMembers(ListOf(prev, e), last.listener, Null);
      assert forall b :: b in snap ==> b in init || b == last;
    }
  }

  /**
   * `connect( host, entries )`: each entry in turn becomes a binding through
   * `on( event, method, args, host )`; the first invalid listener throws and
   * the entries before it keep their bindings.
   */
  function ConnectSpec(t: Table, host: Context, entries: seq<(string, Spec)>, world: World): Step
    decreases |entries|
  {
    if entries == [] then Step(t, Pass)
    else
      var (e, spec) := entries[0];
      var m := SpecMethod(spec);
      var v := ValidateMethod(m, host, world);
      if v.Fail? then Step(t, v)
      else ConnectSpec(Append(t, e, Binding(m, Some(SpecArgs(spec)), host, false)), host, entries[1..], world)
  }

  /** The method of an entry: the entry itself, or the first element of the array. */
  function SpecMethod(spec: Spec): Method {
    match spec
    case Plain(m) => m
    case Listed(m, _) => m
  }

  /** The bound arguments of an entry: `[]`, or the rest of the array. */
  function SpecArgs(spec: Spec): seq<Arg> {
    match spec
    case Plain(_) => []
    case Listed(_, extra) => extra
  }

  /** Every listener of the entries is valid in the context. */
  predicate AllValid(host: Context, entries: seq<(string, Spec)>, world: World) {
    forall i :: 0 <= i < |entries| ==> ValidateMethod(SpecMethod(entries[i].1), host, world).Pass?
  }

  /** `AllValid` of a non-empty sequence: its first entry and the rest. */
  lemma AllValidCons(host: Context, entries: seq<(string, Spec)>, world: World)
    requires entries != []
    ensures AllValid(host, entries, world) <==>
      ValidateMethod(SpecMethod(entries[0].1), host, world).Pass? && AllValid(host, entries[1..], world)
  {
    if ValidateMethod(SpecMethod(entries[0].1), host, world).Pass? && AllValid(host, entries[1..], world) {
      forall i | 0 <= i < |entries|
        ensures ValidateMethod(SpecMethod(entries[i].1), host, world).Pass?
      {
        if i > 0 {
          assert entries[i] == entries[1..][i - 1];
        }
      }
    }
  }

  /** `connect` throws exactly when some listener is invalid in the context. */
  lemma {:induction false} ConnectOutcome(t: Table, host: Context, entries: seq<(string, Spec)>, world: World)
    ensures ConnectSpec(t, host, entries, world).outcome.Pass? <==> AllValid(host, entries, world)
    decreases |entries|
  {
    if entries != [] {
      AllValidCons(host, entries, world);
      var (e, spec) := entries[0];
      var m := SpecMethod(spec);
      if ValidateMethod(m, host, world).Pass? {
        ConnectOutcome(Append(t, e, Binding(m, Some(SpecArgs(spec)), host, false)), host, entries[1..], world);
      }
    }
  }

  /**
   * `connect` only adds bindings, all of them with the host as context, and
   * keeps the table well-formed.
   */
  lemma {:induction false} ConnectAddsHostBindings(t: Table, host: Context, entries: seq<(string, Spec)>, world: World)
    ensures var s := ConnectSpec(t, host, entries, world);
      && (forall e :: WithoutCtx(ListOf(s.table, e), host) == WithoutCtx(ListOf(t, e), host))
      && (forall e, b :: b in ListOf(t, e) ==> b in ListOf(s.table, e))
      && (WellFormed(t) ==> WellFormed(s.table))
    decreases |entries|
  {
    if entries != [] {
      var (e, spec) := entries[0];
      var m := SpecMethod(spec);
      if ValidateMethod(m, host, world).Pass? {
        var b := Binding(m, Some(SpecArgs(spec)), host, false);
        var t' := Append(t, e, b);
        ConnectAddsHostBindings(t', host, entries[1..], world);
        forall e' ensures WithoutCtx(ListOf(t', e'), host) == WithoutCtx(ListOf(t, e'), host) {
          if e' == e {
            WithoutCtxAppend(ListOf(t, e), [b], host);
          }
        }
        assert BindingOk(b);
      }
    }
  }

  /**
   * `disconnect( host, entries )`: each entry in turn removes the bindings
   * of its event with its method and the host as context, through
   * `off( event, method, host )`; the first invalid listener throws.
   */
  function DisconnectSpec(t: Table, host: Context, entries: seq<(string, Spec)>, world: World): Step
    decreases |entries|
  {
    if entries == [] then Step(t, Pass)
    else
      var (e, spec) := entries[0];
      var m := SpecMethod(spec);
      var v := ValidateMethod(m, host, world);
      if v.Fail? then Step(t, v)
      else DisconnectSpec(OffSpec(t, e, m, host), host, entries[1..], world)
  }

  /** `disconnect` with entries throws exactly when some listener is invalid in the context. */
  lemma {:induction false} DisconnectOutcome(t: Table, host: Context, entries: seq<(string, Spec)>, world: World)
    ensures DisconnectSpec(t, host, entries, world).outcome.Pass? <==> AllValid(host, entries, world)
    decreases |entries|
  {
    if entries != [] {
      AllValidCons(host, entries, world);
      var (e, spec) := entries[0];
      var m := SpecMethod(spec);
      if ValidateMethod(m, host, world).Pass? {
        DisconnectOutcome(OffSpec(t, e, m, host), host, entries[1..], world);
      }
    }
  }

  /**
   * `disconnect` with entries only removes bindings, all of them with the
   * host as context, and keeps the table well-formed.
   */
  lemma {:induction false} DisconnectRemovesHostBindings(t: Table, host: Context, entries: seq<(string, Spec)>, world: World)
    ensures var s := DisconnectSpec(t, host, entries, world);
      && (forall e :: WithoutCtx(ListOf(s.table, e), host) == WithoutCtx(ListOf(t, e), host))
      && (forall e, b :: b in ListOf(s.table, e) ==> b in ListOf(t, e))
      && (WellFormed(t) ==> WellFormed(s.table))
    decreases |entries|
  {
    if entries != [] {
      var (e, spec) := entries[0];
      var m := SpecMethod(spec);
      if ValidateMethod(m, host, world).Pass? {
        var t' := OffSpec(t, e, m, host);
        OffSpecLists(t, e, m, host);
        RemoveMatchingMembers(ListOf(t, e), m, host);
        DisconnectRemovesHostBindings(t', host, entries[1..], world);
        WithoutCtxAfterRemove(ListOf(t, e), m, host);
      }
    }
  }

  /**
   * After a successful `disconnect` with entries, no binding of a listed
   * event has the listed method and the host as context.
   */
  lemma {:induction false} DisconnectRemovesListed(t: Table, host: Context, entries: seq<(string, Spec)>, world: World)
    requires DisconnectSpec(t, host, entries, world).outcome.Pass?
    ensures var s := DisconnectSpec(t, host, entries, world);
      forall i, b :: 0 <= i < |entries| && b in ListOf(s.table, entries[i].0) ==> !Matches(b, SpecMethod(entries[i].1), host)
    decreases |entries|
  {
    if entries != [] {
      var (e, spec) := entries[0];
      var m := SpecMethod(spec);
      var t' := OffSpec(t, e, m, host);
      var s := DisconnectSpec(t', host, entries[1..], world);
      OffSpecLists(t, e, m, host);
      RemoveMatchingMembers(ListOf(t, e), m, host);
      DisconnectRemovesListed(t', host, entries[1..], world);
      DisconnectRemovesHostBindings(t', host, entries[1..], world);
      forall i, b | 0 <= i < |entries| && b in ListOf(s.table, entries[i].0)
        ensures !Matches(b, SpecMethod(entries[i].1), host)
      {
        if i > 0 {
          assert entries[i] == entries[1..][i - 1];
        }
      }
    }
  }

  /** `disconnect( host )` without entries: every binding whose context is the host goes. */
  function DisconnectAllSpec(t: Table, host: Context): (r: Table)
    ensures forall e :: ListOf(r, e) == WithoutCtx(ListOf(t, e), host)
  {
    map e | e in t && WithoutCtx(t[e], host) != [] :: WithoutCtx(t[e], host)
  }

  /** Disconnecting everything of a context keeps the table well-formed. */
  lemma DisconnectAllWellFormed(t: Table, host: Context)
    requires WellFormed(t)
    ensures WellFormed(DisconnectAllSpec(t, host))
  {
    forall e | e in t {
      WithoutCtxMembers(t[e], host);
    }
  }

  /** A binding of the host whose method name no longer resolves: `disconnect( host )` throws on it. */
  predicate Stale(b: Binding, host: Context, world: World) {
    b.context == host && ValidateMethod(b.listener, host, world).Fail?
  }

  /** Some binding of the table is stale for the host. */
  ghost predicate HasStale(t: Table, host: Context, world: World) {
    exists e, b :: e in t && b in t[e] && Stale(b, host, world)
  }

  /**
   * Connecting and then disconnecting everything of the host gives back the
   * table, when it had no binding of the host before.
   */
  lemma ConnectThenDisconnectAll(t: Table, host: Context, entries: seq<(string, Spec)>, world: World)
    requires WellFormed(t)
    requires forall e, b :: b in ListOf(t, e) ==> b.context != host
    ensures DisconnectAllSpec(ConnectSpec(t, host, entries, world).table, host) == t
  {
    var s := ConnectSpec(t, host, entries, world);
    ConnectAddsHostBindings(t, host, entries, world);
    var r := DisconnectAllSpec(s.table, host);
    DisconnectAllWellFormed(s.table, host);
    forall e ensures ListOf(r, e) == ListOf(t, e) {
      WithoutCtxNothing(ListOf(t, e), host);
    }
    TableExt(r, t);
  }

  /** No binding at position `i` or later has context `c`. */
  predicate HostFreeFrom(l: seq<Binding>, i: nat, c: Context) {
    forall j :: i <= j < |l| ==> l[j].context != c
  }

  /**
   * What `disconnect( host )` keeps true of the list of `e` while it removes
   * bindings from it: other events untouched, only bindings of the host
   * removed, and no stale binding removed.
   */
  ghost predicate Progress(t0: Table, t: Table, e: string, host: Context, world: World) {
    && (forall e' :: e' != e ==> ListOf(t, e') == ListOf(t0, e'))
    && (forall b :: b in ListOf(t, e) ==> b in ListOf(t0, e))
    && (forall b :: b in ListOf(t0, e) && Stale(b, host, world) ==> b in ListOf(t, e))
    && WithoutCtx(ListOf(t, e), host) == WithoutCtx(ListOf(t0, e), host)
  }

  /** One `off` of the loop of `disconnect( host )` over one event keeps its progress. */
  lemma OffKeepsProgress(t0: Table, t: Table, e: string, i: nat, host: Context, world: World)
    requires Progress(t0, t, e, host, world)
    requires i < |ListOf(t, e)| && HostFreeFrom(ListOf(t, e), i + 1, host)
    requires ListOf(t, e)[i].context == host
    requires ValidateMethod(ListOf(t, e)[i].listener, host, world).Pass?
    ensures var t' := OffSpec(t, e, ListOf(t, e)[i].listener, host);
      Progress(t0, t', e, host, world) && HostFreeFrom(ListOf(t', e), i, host)
  {
    var cur := ListOf(t, e);
    var m := cur[i].listener;
    OffSpecLists(t, e, m, host);
    RemovePositions(cur, i, m, host);
    RemoveMatchingMembers(cur, m, host);
    WithoutCtxAfterRemove(cur, m, host);
  }

  /**
   * What the loop of `disconnect( host )` over the events keeps true: the
   * events already visited hold no binding of the host, and every list has
   * only lost bindings of the host, none of them stale.
   */
  ghost predicate AllProgress(t0: Table, t: Table, keys: set<string>, host: Context, world: World) {
    && (forall e :: e in t0 && e !in keys ==> HostFreeFrom(ListOf(t, e), 0, host))
    && (forall e, b :: b in ListOf(t, e) ==> b in ListOf(t0, e))
    && (forall e, b :: b in ListOf(t0, e) && Stale(b, host, world) ==> b in ListOf(t, e))
    && (forall e :: WithoutCtx(ListOf(t, e), host) == WithoutCtx(ListOf(t0, e), host))
  }

  /** Visiting one more event of the loop of `disconnect( host )`. */
  lemma VisitKeepsProgress(t0: Table, t: Table, t': Table, keys: set<string>, e: string, host: Context, world: World)
    requires AllProgress(t0, t, keys, host, world)
    requires Progress(t, t', e, host, world)
    requires HostFreeFrom(ListOf(t', e), 0, host)
    ensures AllProgress(t0, t', keys - {e}, host, world)
  {
  }

  /** A throw in the loop of `disconnect( host )` comes from a stale binding. */
  lemma FailedVisit(t0: Table, t: Table, t': Table, keys: set<string>, e: string, host: Context, world: World)
    requires AllProgress(t0, t, keys, host, world)
    requires Progress(t, t', e, host, world)
    requires exists b :: b in ListOf(t, e) && Stale(b, host, world)
    ensures HasStale(t0, host, world)
    ensures forall e :: WithoutCtx(ListOf(t', e), host) == WithoutCtx(ListOf(t0, e), host)
  {
    var b :| b in ListOf(t, e) && Stale(b, host, world);
    assert b in ListOf(t0, e);
    forall e' ensures WithoutCtx(ListOf(t', e'), host) == WithoutCtx(ListOf(t0, e'), host) {
    }
  }

  /**
   * The state a throw of `disconnect( host )` leaves: the event `stuck` it
   * was visiting holds a stale binding of the host, and every other event
   * is either unchanged or rid of exactly the host's bindings.
   */
  ghost predicate ThrewAt(t0: Table, t: Table, stuck: string, host: Context, world: World) {
    && (exists b :: b in ListOf(t0, stuck) && Stale(b, host, world))
    && forall e :: e != stuck ==>
         ListOf(t, e) == ListOf(t0, e) || ListOf(t, e) == WithoutCtx(ListOf(t0, e), host)
  }

  /** A list that is not empty holds its first binding. */
  lemma HeadMember(l: seq<Binding>)
    ensures l == [] || l[0] in l
  {
  }

  /**
   * Where a throw leaves the loop of `disconnect( host )`: every event but
   * the one it was visiting is either not reached yet, and so unchanged, or
   * already rid of exactly the host's bindings.
   */
  lemma FailedVisitShape(t0: Table, t: Table, t': Table, keys: set<string>, e: string, host: Context, world: World)
    requires AllProgress(t0, t, keys, host, world)
    requires forall e' :: e' in keys ==> ListOf(t, e') == ListOf(t0, e')
    requires Progress(t, t', e, host, world)
    ensures forall e' :: e' != e ==>
      ListOf(t', e') == ListOf(t0, e') || ListOf(t', e') == WithoutCtx(ListOf(t0, e'), host)
  {
    forall e' | e' != e
      ensures ListOf(t', e') == ListOf(t0, e') || ListOf(t', e') == WithoutCtx(ListOf(t0, e'), host)
    {
      assert ListOf(t', e') == ListOf(t, e');
      if e' in keys {
        assert ListOf(t, e') == ListOf(t0, e');
      } else if e' in t0 {
        assert HostFreeFrom(ListOf(t, e'), 0, host);
        WithoutCtxNothing(ListOf(t, e'), host);
        assert ListOf(t, e') == WithoutCtx(ListOf(t0, e'), host);
      } else {
        assert ListOf(t0, e') == [];
        HeadMember(ListOf(t, e'));
      }
    }
  }

  /** At the end of the loop of `disconnect( host )`, every binding of the host is gone and none was stale. */
  lemma AllVisited(t0: Table, t: Table, host: Context, world: World)
    requires WellFormed(t0) && WellFormed(t)
    requires AllProgress(t0, t, {}, host, world)
    ensures t == DisconnectAllSpec(t0, host)
    ensures !HasStale(t0, host, world)
  {
    forall e ensures ListOf(t, e) == WithoutCtx(ListOf(t0, e), host) {
      WithoutCtxNothing(ListOf(t, e), host);
    }
    DisconnectAllWellFormed(t0, host);
    TableExt(t, DisconnectAllSpec(t0, host));
  }

  /** A listener body that never throws. */
  function NeverThrows(c: Call): bool {
    false
  }

  /** Listener bodies of which only function 1 throws. */
  function FirstThrows(c: Call): bool {
    c.fn == 1
  }

  /** A `once` listener is called by the first emit and is gone before the second. */
  lemma OnceExample()
    ensures var b := Binding(Fn(1), None, Null, true);
      var t := Append(map[], "e", b);
      && Dispatch(t["e"], [NumArg(7)], map[], NeverThrows) == Trace([Call(1, Null, [NumArg(7)])], [])
      && AfterOnce(t, "e", t["e"]) == map[]
  {
    var b := Binding(Fn(1), None, Null, true);
    var t := Append(map[], "e", b);
    assert t["e"] == [b];
    assert t["e"][..0] == [];
    assert RemoveMatching([b], Fn(1), Null) == [];
  }

  /**
   * A throwing listener does not stop the next one: both are called, with
   * the bound arguments first, and the error is reported.
   */
  lemma IsolationExample()
    ensures var b1 := Binding(Fn(1), None, Null, false);
      var b2 := Binding(Fn(2), Some([StrArg("bound")]), Null, false);
      var c1 := Call(1, Null, [NumArg(7)]);
      var c2 := Call(2, Null, [StrArg("bound"), NumArg(7)]);
      Dispatch([b1, b2], [NumArg(7)], map[], FirstThrows) == Trace([c1, c2], [HandlerError(c1)])
  {
    var b1 := Binding(Fn(1), None, Null, false);
    var b2 := Binding(Fn(2), Some([StrArg("bound")]), Null, false);
    var c1 := Call(1, Null, [NumArg(7)]);
    var c2 := Call(2, Null, [StrArg("bound"), NumArg(7)]);
    assert [b1, b2][..1] == [b1];
    assert [b1][..0] == [];
    assert Dispatch([b1], [NumArg(7)], map[], FirstThrows) == Trace([c1], [HandlerError(c1)]);
    assert CallArgs(b2, [NumArg(7)]) == [StrArg("bound"), NumArg(7)];
    assert !FirstThrows(c2);
  }

  /** A method name needs a context; a number is not a listener. */
  lemma ValidateExamples(host: object)
    ensures ValidateMethod(Name("onChange"), Undefined, map[]) == Fail(NoContext("onChange"))
    ensures ValidateMethod(Name("onChange"), Ref(host), map[host := map[]]) == Fail(NotAFunction("onChange"))
    ensures ValidateMethod(Name("onChange"), Ref(host), map[host := map["onChange" := 3]]) == Pass
    ensures ValidateMethod(NotCallable, Null, map[]) == Fail(InvalidCallback)
  {
  }

  /** An event emitter: the bindings table and the operations on it. */
  class EventEmitter {
    var bindings: Table

    ghost predicate Valid()
      reads this
    {
      WellFormed(bindings)
    }

    /** A new emitter has no bindings. */
    constructor ()
      ensures Valid() && bindings == map[]
    {
      bindings := map[];
    }

    /**
     * `on( event, m, args, context )`: validate, then append a binding that
     * is not `once`; an omitted context is stored as null.
     */
    method On(event: string, m: Method, args: Option<seq<Arg>>, context: Option<Context>, world: World)
      returns (r: Outcome<MethodError>)
      requires Valid()
      modifies this
      ensures Valid()
      ensures r == ValidateMethod(m, OrUndefined(context), world)
      ensures r.Pass? ==> bindings == Append(old(bindings), event, Binding(m, args, OrNull(context), false))
      ensures r.Fail? ==> bindings == old(bindings)
    {
      r := ValidateMethod(m, OrUndefined(context), world);
      if r.Fail? {
        return;
      }
      var b := Binding(m, args, OrNull(context), false);
      var list := if event in bindings then bindings[event] else [];
      bindings := bindings[event := list + [b]];
    }

    /**
     * `once( event, listener )`: the listener is validated without a
     * context, so only a function passes; it is stored with a null context.
     */
    method Once(event: string, listener: Method) returns (r: Outcome<MethodError>)
      requires Valid()
      modifies this
      ensures Valid()
      ensures r.Pass? <==> listener.Fn?
      ensures r.Pass? ==> bindings == Append(old(bindings), event, Binding(listener, None, Null, true))
      ensures r.Fail? ==> bindings == old(bindings)
    {
      r := ValidateMethod(listener, Undefined, map[]);
      if r.Fail? {
        return;
      }
      var b := Binding(listener, None, Null, true);
      var list := if event in bindings then bindings[event] else [];
      bindings := bindings[event := list + [b]];
    }

    /**
     * `off( event )` drops the entry of the event. `off( event, m, context )`
     * validates `m` in the context as given (even when the event has no
     * bindings), then removes the bindings matching `m` and the context,
     * null when omitted, walking the list from its end.
     */
    method Off(event: string, which: OffArgs, world: World) returns (r: Outcome<MethodError>)
      requires Valid()
      modifies this
      ensures Valid()
      ensures which.AllListeners? ==> r.Pass? && bindings == old(bindings) - {event}
      ensures which.Listener? ==> r == ValidateMethod(which.m, OrUndefined(which.context), world)
      ensures which.Listener? && r.Pass? ==> bindings == OffSpec(old(bindings), event, which.m, OrNull(which.context))
      ensures r.Fail? ==> bindings == old(bindings)
    {
      if which.AllListeners? {
        bindings := bindings - {event};
        return Pass;
      }
      r := ValidateMethod(which.m, OrUndefined(which.context), world);
      if r.Fail? {
        return;
      }
      if event !in bindings || |bindings[event]| == 0 {
        return;
      }
      var orig := bindings[event];
      var list := Unbind(orig, which.m, OrNull(which.context));
      RemoveMatchingMembers(orig, which.m, OrNull(which.context));
      if |list| == 0 {
        bindings := bindings - {event};
      } else {
        bindings := bindings[event := list];
      }
    }

    /**
     * `emit( event, ...args )`: false when the event has no entry;
     * otherwise every binding of a snapshot of the list is called in order,
     * a `once` binding after `off( event, fn )`, and the errors raised are
     * all deferred. The result is whether the event had an entry.
     */
    method Emit(event: string, args: seq<Arg>, world: World, throws: Call -> bool)
      returns (handled: bool, calls: seq<Call>, deferred: seq<Thrown>)
      requires Valid()
      modifies this
      ensures Valid()
      ensures handled <==> event in old(bindings)
      ensures !handled ==> calls == [] && deferred == [] && bindings == old(bindings)
      ensures handled ==>
        && Trace(calls, deferred) == Dispatch(old(bindings)[event], args, world, throws)
        && bindings == AfterOnce(old(bindings), event, old(bindings)[event])
    {
      calls, deferred := [], [];
      if event !in bindings {
        return false, calls, deferred;
      }
      handled := true;
      var snap := bindings[event];
      var i := 0;
      while i < |snap|
        invariant 0 <= i <= |snap|
        invariant Valid()
        invariant forall b :: b in snap ==> BindingOk(b)
        invariant bindings == AfterOnce(old(bindings), event, snap[..i])
        invariant Trace(calls, deferred) == Dispatch(snap[..i], args, world, throws)
      {
        var b := snap[i];
        assert snap[..i + 1][..i] == snap[..i];
        var fn := Resolve(b, world);
        if b.once {
          var _ := Off(event, Listener(b.listener, None), world);
        }
        if fn.None? {
          deferred := deferred + [UnresolvedError(b)];
        } else {
          var c := Call(fn.value, b.context, CallArgs(b, args));
          calls := calls + [c];
          if throws(c) {
            deferred := deferred + [HandlerError(c)];
          }
        }
        i := i + 1;
      }
      assert snap[..i] == snap;
    }

    /**
     * `emitThrow( event, ...args )`: as `emit`, but the first error raised
     * is thrown once every listener has been called; the others are
     * deferred.
     */
    method EmitThrow(event: string, args: seq<Arg>, world: World, throws: Call -> bool)
      returns (handled: bool, calls: seq<Call>, thrown: Option<Thrown>, deferred: seq<Thrown>)
      requires Valid()
      modifies this
      ensures Valid()
      ensures handled <==> event in old(bindings)
      ensures !handled ==> calls == [] && thrown == None && deferred == [] && bindings == old(bindings)
      ensures handled ==>
        var tr := Dispatch(old(bindings)[event], args, world, throws);
        && calls == tr.calls
        && (tr.errors == [] ==> thrown == None && deferred == [])
        && (tr.errors != [] ==> thrown == Some(tr.errors[0]) && deferred == tr.errors[1..])
        && bindings == AfterOnce(old(bindings), event, old(bindings)[event])
    {
      calls, thrown, deferred := [], None, [];
      if event !in bindings {
        return false, calls, thrown, deferred;
      }
      handled := true;
      var snap := bindings[event];
      ghost var errors: seq<Thrown> := [];
      var i := 0;
      while i < |snap|
        invariant 0 <= i <= |snap|
        invariant Valid()
        invariant forall b :: b in snap ==> BindingOk(b)
        invariant bindings == AfterOnce(old(bindings), event, snap[..i])
        invariant Trace(calls, errors) == Dispatch(snap[..i], args, world, throws)
        invariant errors == [] ==> thrown == None && deferred == []
        invariant errors != [] ==> thrown == Some(errors[0]) && deferred == errors[1..]
      {
        var b := snap[i];
        assert snap[..i + 1][..i] == snap[..i];
        var fn := Resolve(b, world);
        if b.once {
          var _ := Off(event, Listener(b.listener, None), world);
        }
        var err: Option<Thrown> := None;
        if fn.None? {
          err := Some(UnresolvedError(b));
        } else {
          var c := Call(fn.value, b.context, CallArgs(b, args));
          calls := calls + [c];
          if throws(c) {
            err := Some(HandlerError(c));
          }
        }
        if err.Some? {
          if thrown.None? {
            thrown := err;
          } else {
            deferred := deferred + [err.value];
          }
          errors := errors + [err.value];
        }
        i := i + 1;
      }
      assert snap[..i] == snap;
    }

    /**
     * `connect( host, entries )`: one `on( event, method, args, host )` per
     * entry, in order, stopping at the first that throws.
     */
    method Connect(host: Context, entries: seq<(string, Spec)>, world: World) returns (r: Outcome<MethodError>)
      requires Valid()
      modifies this
      ensures Valid()
      ensures Step(bindings, r) == ConnectSpec(old(bindings), host, entries, world)
    {
      var i := 0;
      while i < |entries|
        invariant 0 <= i <= |entries|
        invariant Valid()
        invariant ConnectSpec(old(bindings), host, entries, world) == ConnectSpec(bindings, host, entries[i..], world)
      {
        var (e, spec) := entries[i];
        assert entries[i..][1..] == entries[i + 1..];
        r := On(e, SpecMethod(spec), Some(SpecArgs(spec)), Some(host), world);
        if r.Fail? {
          return;
        }
        i := i + 1;
      }
      r := Pass;
    }

    /**
     * `disconnect( host, entries )` when `entries` is given (`Some`):
     * one `off( event, method, host )` per entry, in order, stopping at
     * the first that throws. `disconnect( host )` (`None`): every binding
     * with the host as context is removed, event by event, each list walked
     * from its end; it throws when one of them names a method the host no
     * longer has.
     */
    method Disconnect(host: Context, entries: Option<seq<(string, Spec)>>, world: World) returns (r: Outcome<MethodError>)
      requires Valid()
      modifies this
      ensures Valid()
      ensures entries.Some? ==> Step(bindings, r) == DisconnectSpec(old(bindings), host, entries.value, world)
      ensures entries.None? ==> (r.Fail? <==> HasStale(old(bindings), host, world))
      ensures entries.None? && r.Pass? ==> bindings == DisconnectAllSpec(old(bindings), host)
      ensures entries.None? && r.Fail? ==>
        forall e :: WithoutCtx(ListOf(bindings, e), host) == WithoutCtx(ListOf(old(bindings), e), host)
      ensures entries.None? && r.Fail? ==> exists stuck :: ThrewAt(old(bindings), bindings, stuck, host, world)
    {
      if entries.Some? {
        r := DisconnectEntries(host, entries.value, world);
      } else {
        r := DisconnectAll(host, world);
      }
    }

    /** The loop of `disconnect( host, entries )`. */
    method DisconnectEntries(host: Context, list: seq<(string, Spec)>, world: World) returns (r: Outcome<MethodError>)
      requires Valid()
      modifies this
      ensures Valid()
      ensures Step(bindings, r) == DisconnectSpec(old(bindings), host, list, world)
    {
      var i := 0;
      while i < |list|
        invariant 0 <= i <= |list|
        invariant Valid()
        invariant DisconnectSpec(old(bindings), host, list, world) == DisconnectSpec(bindings, host, list[i..], world)
      {
        var (e, spec) := list[i];
        assert list[i..][1..] == list[i + 1..];
        r := Off(e, Listener(SpecMethod(spec), Some(host)), world);
        if r.Fail? {
          return;
        }
        i := i + 1;
      }
      r := Pass;
    }

    /** The loop of `disconnect( host )` over the events of the table. */
    method DisconnectAll(host: Context, world: World) returns (r: Outcome<MethodError>)
      requires Valid()
      modifies this
      ensures Valid()
      ensures r.Fail? <==> HasStale(old(bindings), host, world)
      ensures r.Pass? ==> bindings == DisconnectAllSpec(old(bindings), host)
      ensures r.Fail? ==>
        forall e :: WithoutCtx(ListOf(bindings, e), host) == WithoutCtx(ListOf(old(bindings), e), host)
      ensures r.Fail? ==> exists stuck :: ThrewAt(old(bindings), bindings, stuck, host, world)
    {
      var keys := bindings.Keys;
      while keys != {}
        invariant Valid()
        invariant AllProgress(old(bindings), bindings, keys, host, world)
        invariant forall e :: e in keys ==> ListOf(bindings, e) == ListOf(old(bindings), e)
        decreases keys
      {
        var e :| e in keys;
        ghost var before := bindings;
        r := DisconnectEvent(host, e, world);
        if r.Fail? {
          FailedVisit(old(bindings), before, bindings, keys, e, host, world);
          FailedVisitShape(old(bindings), before, bindings, keys, e, host, world);
          assert ThrewAt(old(bindings), bindings, e, host, world);
          return;
        }
        VisitKeepsProgress(old(bindings), before, bindings, keys, e, host, world);
        keys := keys - {e};
      }
      AllVisited(old(bindings), bindings, host, world);
      r := Pass;
    }

    /** The loop of `disconnect( host )` over the list of one event. */
    method DisconnectEvent(host: Context, e: string, world: World) returns (r: Outcome<MethodError>)
      requires Valid()
      modifies this
      ensures Valid()
      ensures Progress(old(bindings), bindings, e, host, world)
      ensures r.Pass? ==> HostFreeFrom(ListOf(bindings, e), 0, host)
      ensures r.Fail? ==> exists b :: b in ListOf(old(bindings), e) && Stale(b, host, world)
    {
      var i := |ListOf(bindings, e)|;
      while i > 0
        invariant 0 <= i
        invariant Valid()
        invariant Progress(old(bindings), bindings, e, host, world)
        invariant HostFreeFrom(ListOf(bindings, e), i, host)
      {
        i := i - 1;
        var cur := ListOf(bindings, e);
        if i < |cur| && cur[i].context == host {
          ghost var before := bindings;
          r := Off(e, Listener(cur[i].listener, Some(host)), world);
          if r.Fail? {
            assert Stale(cur[i], host, world);
            return;
          }
          OffKeepsProgress(old(bindings), before, e, i, host, world);
        }
      }
      r := Pass;
    }
  }
}
