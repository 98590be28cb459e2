/**
 * OO.Factory (src/Factory.js): a registry of constructors, each under a
 * symbolic key that the constructor usually declares itself.
 *
 * A constructor is a function value of `JsValues` (an object of kind
 * `FunctionKind`); its `key` and `static` are own properties. The factory
 * is a subclass of the registry in JavaScript; here it holds the registry
 * whose entries it edits.
 */
module Factories {
  import opened Wrappers
  import opened JsValues
  import opened Registries

  /** The errors the factory throws. */
  datatype FactoryError =
    | NotAFunction(typeName: string)  // "constructor must be a function, got <typeof>"
    | InvalidKey                      // "key must be a non-empty string"
    | NoClass(key: string)            // "No class registered by that key: <key>"

  /** `typeof v === 'function'`. */
  predicate IsFunction(v: Value) {
    Typeof(v) == "function"
  }

  /** `c.key || ( c.static && c.static.name )`: the key a constructor declares. */
  function DeclaredKey(c: Value): Value {
    var key, st := Get(c, "key"), Get(c, "static");
    if Truthy(key) then key
    else if !Truthy(st) then st
    else Get(st, "name")
  }

  /** The test `typeof key !== 'string' || key === ''`, passed: the key as a string. */
  function CheckKey(key: Value): (r: Result<string, FactoryError>)
    ensures r.Success? <==> key.Str? && key.s != ""
    ensures r.Success? ==> key == Str(r.value)
    ensures r.Failure? ==> r.error == InvalidKey
  {
    if key.Str? && key.s != "" then Success(key.s) else Failure(InvalidKey)
  }

  /**
   * The checks of `register( constructor, key )` before it stores anything:
   * the constructor must be a function, and the key (the argument when one
   * is given, even undefined, else the declared key) a non-empty string.
   */
  function RegisterKey(c: Value, key: Option<Value>): (r: Result<string, FactoryError>)
    ensures !IsFunction(c) ==> r == Failure(NotAFunction(Typeof(c)))
    ensures IsFunction(c) && r.Failure? ==> r.error == InvalidKey
    ensures r.Success? ==> IsFunction(c) && r.value != ""
    ensures r.Success? && key.Some? ==> key.value == Str(r.value)
    ensures r.Success? && key.None? ==> DeclaredKey(c) == Str(r.value)
    ensures IsFunction(c) && key.Some? && key.value.Str? && key.value.s != "" ==> r == Success(key.value.s)
  {
    if !IsFunction(c) then Failure(NotAFunction(Typeof(c)))
    else CheckKey(if key.None? then DeclaredKey(c) else key.value)
  }

  /**
   * The checks of `unregister( key )`: a function stands for the key it
   * declares, and the key must then be a non-empty string.
   */
  function UnregisterKey(key: Value): (r: Result<string, FactoryError>)
    ensures r.Failure? ==> r.error == InvalidKey
    ensures r.Success? ==> r.value != ""
    ensures r.Success? && IsFunction(key) ==> DeclaredKey(key) == Str(r.value)
    ensures !IsFunction(key) ==> (r.Success? <==> key.Str? && key.s != "") && (r.Success? ==> key == Str(r.value))
  {
    CheckKey(if IsFunction(key) then DeclaredKey(key) else key)
  }

  /** A non-empty `key` of the constructor wins over `static.name`. */
  lemma KeyBeforeStaticName(c: Value, k: string)
    requires IsFunction(c) && Get(c, "key") == Str(k) && k != ""
    ensures RegisterKey(c, None) == Success(k) && UnregisterKey(c) == Success(k)
  {
  }

  /** Without a truthy `key`, a constructor declares its key through `static.name`. */
  lemma StaticNameFallback(c: Value, name: string)
    requires IsFunction(c) && !Truthy(Get(c, "key"))
    requires Get(Get(c, "static"), "name") == Str(name) && name != ""
    ensures RegisterKey(c, None) == Success(name) && UnregisterKey(c) == Success(name)
  {
    assert Get(c, "static").Obj?;
  }

  /** A constructor that declares neither a key nor a static name cannot be registered or unregistered by itself. */
  lemma NoDeclaredKey(c: Value)
    requires IsFunction(c) && !Truthy(Get(c, "key")) && !Truthy(Get(c, "static"))
    ensures RegisterKey(c, None) == Failure(InvalidKey) && UnregisterKey(c) == Failure(InvalidKey)
  {
  }

  /** A constructor registered under the key it declares is unregistered, by itself, under that same key. */
  lemma DeclaredKeyBothWays(c: Value)
    requires RegisterKey(c, None).Success?
    ensures UnregisterKey(c) == RegisterKey(c, None)
  {
  }

  /** What `create` would construct: the registered constructor and the arguments after the key. */
  datatype Construction = Construction(ctor: Value, args: seq<Value>)

  class Factory {
    /** The registry the factory inherits: its entries map keys to constructors. */
    const registry: Registry

    /** A new factory, with an empty registry. */
    constructor ()
      ensures fresh(registry) && registry.registry == map[] && registry.emitted == []
    {
      registry := new Registry();
    }

    /**
     * `register( constructor, key )`: `key` is `None` when the call passes
     * the constructor alone. On success the key maps to the constructor
     * (any earlier entry overridden) and one `register` event is emitted;
     * on failure nothing changes.
     */
    method Register(c: Value, key: Option<Value>) returns (r: Outcome<FactoryError>)
      modifies registry
      ensures var k := RegisterKey(c, key);
        if k.Failure? then r == Fail(k.error) && unchanged(registry)
        else
          && r == Pass
          && registry.registry == old(registry.registry)[k.value := c]
          && registry.emitted == old(registry.emitted) + [RegisterEvent(k.value, c)]
    {
      var k := RegisterKey(c, key);
      if k.Failure? {
        return Fail(k.error);
      }
      var done := registry.Register(Single(k.value), c);
      assert registry.registry == old(registry.registry)[k.value := c];
      assert [k.value][1..] == [];
      assert RegisterEvents([k.value], c) == [RegisterEvent(k.value, c)] + [];
      r := Pass;
    }

    /**
     * `unregister( key )`, with a key or a constructor: on a valid key the
     * entry is deleted and reported when it had data, and an unknown key
     * changes nothing; an invalid key throws and changes nothing.
     */
    method Unregister(key: Value) returns (r: Outcome<FactoryError>)
      modifies registry
      ensures var k := UnregisterKey(key);
        if k.Failure? then r == Fail(k.error) && unchanged(registry)
        else
          && r == Pass
          && var data := old(registry.Lookup(k.value));
          && registry.registry == (if data != Undefined then old(registry.registry) - {k.value} else old(registry.registry))
          && registry.emitted == old(registry.emitted) + (if data != Undefined then [UnregisterEvent(k.value, data)] else [])
    {
      var k := UnregisterKey(key);
      if k.Failure? {
        return Fail(k.error);
      }
      ghost var was := registry.registry;
      var done := registry.Unregister(Single(k.value));
      assert [k.value][1..] == [];
      r := Pass;
    }

    /**
     * The part of `create( key, ...args )` before the constructor runs: a
     * key without a truthy entry throws; otherwise the arguments after the
     * key are collected, in order, for the constructor.
     */
    method Create(key: string, rest: seq<Value>) returns (r: Result<Construction, FactoryError>)
      ensures r.Success? <==> Truthy(registry.Lookup(key))
      ensures r.Failure? ==> r.error == NoClass(key)
      ensures r.Success? ==> r.value.ctor == registry.registry[key] && r.value.args == rest
    {
      var ctor := registry.Lookup(key);
      if !Truthy(ctor) {
        return Failure(NoClass(key));
      }
      var args: seq<Value> := [];
      var i := 0;
      while i < |rest|
        invariant 0 <= i <= |rest|
        invariant args == rest[..i]
      {
        args := args + [rest[i]];
        i := i + 1;
      }
      assert rest[..i] == rest;
      r := Success(Construction(ctor, args));
    }
  }

  /** The constructors of the factory tests: a key, a static name, and both. */
  function Ctor(props: map<string, Value>): Value {
    Obj(FunctionKind, props)
  }

  /** Registering by declared key, by static name, by key over static name, and with an explicit key. */
  lemma FactoryKeyExamples()
    ensures RegisterKey(Ctor(map["key" := Str("my-foo")]), None) == Success("my-foo")
    ensures RegisterKey(Ctor(map["static" := Obj(PlainKind, map["name" := Str("my-bar")])]), None) == Success("my-bar")
    ensures RegisterKey(Ctor(map["key" := Str("my-quux"), "static" := Obj(PlainKind, map["name" := Str("not-quite-right")])]), None)
      == Success("my-quux")
    ensures RegisterKey(Ctor(map["key" := Str("my-foo")]), Some(Str("different-key"))) == Success("different-key")
    ensures RegisterKey(Str("not-a-function"), None) == Failure(NotAFunction("string"))
    ensures RegisterKey(Ctor(map[]), None) == Failure(InvalidKey)
    ensures UnregisterKey(Num(42)) == Failure(InvalidKey)
    ensures UnregisterKey(Ctor(map[])) == Failure(InvalidKey)
  {
    var bar := Ctor(map["static" := Obj(PlainKind, map["name" := Str("my-bar")])]);
    assert Get(bar, "key") == Undefined;
    var quux := Ctor(map["key" := Str("my-quux"), "static" := Obj(PlainKind, map["name" := Str("not-quite-right")])]);
    assert Get(quux, "key") == Str("my-quux");
  }
}
