/**
 * OO.getProp, OO.setProp and OO.deleteProp (src/core.js): reading,
 * writing and deleting a nested property along a path of keys.
 *
 * `setProp` and `deleteProp` change objects in place in JavaScript. With
 * objects as trees, the methods here walk down the path collecting the
 * objects they pass, as `deleteProp` does with its `props` stack, and then
 * walk back up writing each changed object into its parent; the result is
 * the new value of the root.
 */
module ObjectPaths {
  import opened Wrappers
  import opened JsValues

  /**
   * The value at `keys` below `v`, as `getProp` reads it: undefined as soon
   * as a value before the last key is null or undefined.
   */
  function PathValue(v: Value, keys: seq<string>): Value
    decreases |keys|
  {
    if |keys| == 0 then v
    else if v == Undefined || v == Null then Undefined
    else PathValue(Get(v, keys[0]), keys[1..])
  }

  /** OO.getProp: the loop that descends one key at a time. */
  method GetProp(obj: Value, keys: seq<string>) returns (r: Value)
    ensures r == PathValue(obj, keys)
  {
    var retval := obj;
    var i := 0;
    while i < |keys|
      invariant 0 <= i <= |keys|
      invariant PathValue(obj, keys) == PathValue(retval, keys[i..])
    {
      if retval == Undefined || retval == Null {
        return Undefined;
      }
      assert keys[i..][1..] == keys[i + 1..];
      retval := Get(retval, keys[i]);
      i := i + 1;
    }
    r := retval;
  }

  /** Without keys, getProp returns its argument, whatever it is. */
  lemma GetPropNoKeys(obj: Value)
    ensures PathValue(obj, []) == obj
  {
  }

  /** Reading along `k1 + k2` is reading `k2` below the value at `k1`. */
  lemma {:induction false} PathValueAppend(v: Value, k1: seq<string>, k2: seq<string>)
    ensures PathValue(v, k1 + k2) == PathValue(PathValue(v, k1), k2)
    decreases |k1|
  {
    if |k1| == 0 {
      assert k1 + k2 == k2;
    } else if v == Undefined || v == Null {
      UndefinedPath(k2);
    } else {
      assert (k1 + k2)[1..] == k1[1..] + k2;
      PathValueAppend(Get(v, k1[0]), k1[1..], k2);
    }
  }

  /** Below undefined every path reads undefined. */
  lemma UndefinedPath(keys: seq<string>)
    ensures PathValue(Undefined, keys) == Undefined
    ensures |keys| > 0 ==> PathValue(Null, keys) == Undefined
  {
  }

  /** Once a value on the path is null or undefined, the rest of the path reads undefined. */
  lemma GetPropStopsAtNothing(obj: Value, keys: seq<string>, i: nat)
    requires i < |keys|
    requires PathValue(obj, keys[..i]) == Undefined || PathValue(obj, keys[..i]) == Null
    ensures PathValue(obj, keys) == Undefined
  {
    assert keys == keys[..i] + keys[i..];
    PathValueAppend(obj, keys[..i], keys[i..]);
  }

  // ---------------------------------------------------------------- setProp

  /**
   * The walk of setProp from the object `o`: None when it meets a null or
   * primitive value before the last key; otherwise the new `o`, in which
   * undefined intermediates have become `{}` and the last key holds `value`.
   */
  function SetAt(o: Value, keys: seq<string>, value: Value): Option<Value>
    requires o.Obj? && |keys| > 0
    decreases |keys|
  {
    if |keys| == 1 then Some(Put(o, keys[0], value))
    else
      var child := Get(o, keys[0]);
      var next := if child == Undefined then EmptyObject else child;
      if !next.Obj? then None
      else match SetAt(next, keys[1..], value)
        case None => None
        case Some(c) => Some(Put(o, keys[0], c))
  }

  /**
   * OO.setProp( obj, ...keys, value ): with no keys, or on a non-object, or
   * when the walk aborts, `obj` is returned unchanged. (With no trailing
   * arguments at all, `value` is undefined and `keys` empty.)
   */
  function SetPropSpec(obj: Value, keys: seq<string>, value: Value): Value
  {
    if !IsObject(obj) || |keys| == 0 then obj
    else match SetAt(obj, keys, value)
      case None => obj
      case Some(r) => r
  }

  /**
   * The walk of setProp can reach the last key: every value met before it
   * is undefined (and becomes `{}`) or an object.
   */
  predicate Settable(o: Value, keys: seq<string>)
    requires o.Obj? && |keys| > 0
  {
    |keys| == 1 ||
    (var child := Get(o, keys[0]);
     child == Undefined || (child.Obj? && Settable(child, keys[1..])))
  }

  /** The walk succeeds exactly on a settable path. */
  lemma {:induction false} SetAtSucceeds(o: Value, keys: seq<string>, value: Value)
    requires o.Obj? && |keys| > 0
    ensures SetAt(o, keys, value).Some? <==> Settable(o, keys)
    ensures SetAt(o, keys, value).Some? ==> SetAt(o, keys, value).value.Obj?
    ensures SetAt(o, keys, value).Some? ==> SetAt(o, keys, value).value.kind == o.kind
    decreases |keys|
  {
    if |keys| > 1 {
      var child := Get(o, keys[0]);
      var next := if child == Undefined then EmptyObject else child;
      if next.Obj? {
        SetAtSucceeds(next, keys[1..], value);
        if child == Undefined {
          EmptyObjectSettableAll(keys[1..]);
        }
      }
    }
  }

  /** Every non-empty path is settable below `{}`. */
  lemma {:induction false} EmptyObjectSettableAll(keys: seq<string>)
    requires |keys| > 0
    ensures Settable(EmptyObject, keys)
  {
    if |keys| > 1 {
      assert Get(EmptyObject, keys[0]) == Undefined;
    }
  }

  /** After a successful walk the path reads `value`. */
  lemma {:induction false} SetAtReads(o: Value, keys: seq<string>, value: Value)
    requires o.Obj? && |keys| > 0
    requires SetAt(o, keys, value).Some?
    ensures PathValue(SetAt(o, keys, value).value, keys) == value
    decreases |keys|
  {
    var r := SetAt(o, keys, value).value;
    if |keys| == 1 {
      assert PathValue(r, keys) == PathValue(Get(r, keys[0]), keys[1..]);
    } else {
      var child := Get(o, keys[0]);
      var next := if child == Undefined then EmptyObject else child;
      SetAtReads(next, keys[1..], value);
    }
  }

  /**
   * A path that leaves `keys` at some position reads the same before and
   * after a successful walk.
   */
  lemma {:induction false} SetAtFrame(o: Value, keys: seq<string>, value: Value, p: seq<string>, i: nat)
    requires o.Obj? && |keys| > 0
    requires SetAt(o, keys, value).Some?
    requires i < |p| && i < |keys| && p[..i] == keys[..i] && p[i] != keys[i]
    ensures PathValue(SetAt(o, keys, value).value, p) == PathValue(o, p)
    decreases |keys|
  {
    var r := SetAt(o, keys, value).value;
    SetAtSucceeds(o, keys, value);
    if i > 0 {
      var child := Get(o, keys[0]);
      var next := if child == Undefined then EmptyObject else child;
      assert p[0] == keys[0] by { assert p[..i][0] == keys[..i][0]; }
      assert p[1..][..i - 1] == p[..i][1..];
      assert keys[1..][..i - 1] == keys[..i][1..];
      SetAtFrame(next, keys[1..], value, p[1..], i - 1);
      if child == Undefined {
        EmptyPaths(p[1..]);
        UndefinedPath(p[1..]);
      }
    }
  }

  /** Below `{}` every non-empty path reads undefined. */
  lemma EmptyPaths(p: seq<string>)
    requires |p| > 0
    ensures PathValue(EmptyObject, p) == Undefined
  {
    assert Get(EmptyObject, p[0]) == Undefined;
    UndefinedPath(p[1..]);
  }

  /**
   * What setProp promises: unchanged unless `obj` is an object, at least one
   * key is given and the path is settable; in that case the path reads
   * `value` and every path leaving it reads as before.
   */
  lemma SetPropMeaning(obj: Value, keys: seq<string>, value: Value)
    ensures var r := SetPropSpec(obj, keys, value);
      && (!IsObject(obj) || |keys| == 0 || !Settable(obj, keys) ==> r == obj)
      && (IsObject(obj) && |keys| > 0 && Settable(obj, keys) ==>
            && r.Obj? && r.kind == obj.kind
            && PathValue(r, keys) == value
            && (forall p: seq<string>, i: nat ::
                  i < |p| && i < |keys| && p[..i] == keys[..i] && p[i] != keys[i] ==>
                    PathValue(r, p) == PathValue(obj, p)))
  {
    if IsObject(obj) && |keys| > 0 {
      SetAtSucceeds(obj, keys, value);
      if Settable(obj, keys) {
        SetAtReads(obj, keys, value);
        forall p: seq<string>, i: nat |
          i < |p| && i < |keys| && p[..i] == keys[..i] && p[i] != keys[i]
          ensures PathValue(SetPropSpec(obj, keys, value), p) == PathValue(obj, p)
        {
          SetAtFrame(obj, keys, value, p, i);
        }
      }
    }
  }

  /** The value setProp steps to below `o` at `k`: the property, or `{}` in place of undefined. */
  function SetStep(o: Value, k: string): Value {
    var child := Get(o, k);
    if child == Undefined then EmptyObject else child
  }

  /**
   * OO.setProp: the loop down the path, turning undefined intermediates
   * into `{}` and aborting at a null or primitive one, then the write of the
   * last key and the way back up.
   */
  method SetProp(obj: Value, keys: seq<string>, value: Value) returns (r: Value)
    ensures r == SetPropSpec(obj, keys, value)
  {
    if !IsObject(obj) || |keys| == 0 {
      return obj;
    }
    var props, ok := SetDescend(obj, keys, value);
    if !ok {
      return obj;
    }
    r := SetAscend(props, keys, value);
  }

  /**
   * The loop down the path of setProp: `props[i]` is the object the walk
   * stands on after `i` keys; it fails at a null or primitive value.
   */
  method SetDescend(obj: Value, keys: seq<string>, value: Value) returns (props: seq<Value>, ok: bool)
    requires obj.Obj? && |keys| > 0
    ensures !ok ==> SetAt(obj, keys, value).None?
    ensures ok ==> |props| == |keys| && props[0] == obj
    ensures ok ==> forall j :: 0 <= j < |props| ==> props[j].Obj?
    ensures ok ==> forall j :: 0 <= j < |props| - 1 ==> props[j + 1] == SetStep(props[j], keys[j])
  {
    props := [obj];
    var i := 0;
    while i < |keys| - 1
      invariant 0 <= i <= |keys| - 1 && |props| == i + 1 && props[0] == obj
      invariant forall j :: 0 <= j <= i ==> props[j].Obj?
      invariant forall j :: 0 <= j < i ==> props[j + 1] == SetStep(props[j], keys[j])
      invariant SetAt(obj, keys, value).None? <==> SetAt(props[i], keys[i..], value).None?
    {
      var child := SetStep(props[i], keys[i]);
      if !IsObject(child) {
        return props, false;
      }
      assert keys[i..][1..] == keys[i + 1..];
      props := props + [child];
      i := i + 1;
    }
    ok := true;
  }

  /** The way back up of setProp: the last key is written, then each object into its parent. */
  method SetAscend(props: seq<Value>, keys: seq<string>, value: Value) returns (r: Value)
    requires |props| == |keys| > 0
    requires forall j :: 0 <= j < |props| ==> props[j].Obj?
    requires forall j :: 0 <= j < |props| - 1 ==> props[j + 1] == SetStep(props[j], keys[j])
    ensures SetAt(props[0], keys, value) == Some(r)
  {
    var i := |keys| - 1;
    var cur := Put(props[i], keys[i], value);
    assert SetAt(props[i], keys[i..], value) == Some(cur);
    var j := i;
    while j > 0
      invariant 0 <= j <= i
      invariant SetAt(props[j], keys[j..], value) == Some(cur)
    {
      assert keys[j - 1..][1..] == keys[j..];
      cur := Put(props[j - 1], keys[j - 1], cur);
      j := j - 1;
    }
    assert keys[0..] == keys;
    r := cur;
  }

  // ------------------------------------------------------------- deleteProp

  /**
   * The walk of deleteProp from the object `o`: None when a value before the
   * last key is undefined or not an object; otherwise the new `o`, with the
   * last key deleted and every plain object on the path that is left
   * without properties deleted from its parent.
   */
  function DeleteAt(o: Value, keys: seq<string>): Option<Value>
    requires o.Obj? && |keys| > 0
  {
    if |keys| == 1 then Some(Remove(o, keys[0]))
    else
      var child := Get(o, keys[0]);
      if !child.Obj? then None
      else match DeleteAt(child, keys[1..])
        case None => None
        case Some(c) =>
          if IsPlainObject(c) && |c.props| == 0 then Some(Remove(o, keys[0]))
          else Some(Put(o, keys[0], c))
  }

  /** OO.deleteProp( obj, ...keys ): unchanged on a non-object, without keys, or when the walk aborts. */
  function DeletePropSpec(obj: Value, keys: seq<string>): Value
  {
    if !IsObject(obj) || |keys| == 0 then obj
    else match DeleteAt(obj, keys)
      case None => obj
      case Some(r) => r
  }

  /** Every value the walk of deleteProp passes before the last key is an object. */
  predicate Deletable(o: Value, keys: seq<string>)
    requires o.Obj? && |keys| > 0
  {
    |keys| == 1 || (var child := Get(o, keys[0]); child.Obj? && Deletable(child, keys[1..]))
  }

  /**
   * The walk succeeds exactly on a deletable path; the result is an object of
   * the same kind, and no longer has the path.
   */
  lemma {:induction false} DeleteAtMeaning(o: Value, keys: seq<string>)
    requires o.Obj? && |keys| > 0
    ensures DeleteAt(o, keys).Some? <==> Deletable(o, keys)
    ensures DeleteAt(o, keys).Some? ==>
      var r := DeleteAt(o, keys).value;
      r.Obj? && r.kind == o.kind && PathValue(r, keys) == Undefined
  {
    if |keys| == 1 {
      var r := DeleteAt(o, keys).value;
      assert PathValue(r, keys) == PathValue(Get(r, keys[0]), keys[1..]);
    } else {
      var child := Get(o, keys[0]);
      if child.Obj? {
        DeleteAtMeaning(child, keys[1..]);
        if DeleteAt(child, keys[1..]).Some? {
          var c := DeleteAt(child, keys[1..]).value;
          var r := DeleteAt(o, keys).value;
          if IsPlainObject(c) && |c.props| == 0 {
            UndefinedPath(keys[1..]);
          }
          assert Get(r, keys[0]) == if IsPlainObject(c) && |c.props| == 0 then Undefined else c;
        }
      }
    }
  }

  /**
   * After a successful walk, no object strictly between the root and the
   * last key is a plain object without properties.
   */
  lemma {:induction false} DeleteAtLeavesNoEmptyPlain(o: Value, keys: seq<string>, i: nat)
    requires o.Obj? && |keys| > 0
    requires DeleteAt(o, keys).Some?
    requires 0 < i < |keys|
    ensures var v := PathValue(DeleteAt(o, keys).value, keys[..i]);
      !(IsPlainObject(v) && |v.props| == 0)
  {
    var child := Get(o, keys[0]);
    var c := DeleteAt(child, keys[1..]).value;
    var r := DeleteAt(o, keys).value;
    var tail := keys[1..][..i - 1];
    assert keys[..i][1..] == tail;
    var emptied := IsPlainObject(c) && |c.props| == 0;
    assert Get(r, keys[0]) == if emptied then Undefined else c;
    assert PathValue(r, keys[..i]) == PathValue(Get(r, keys[0]), tail);
    if emptied {
      UndefinedPath(tail);
    } else if i > 1 {
      DeleteAtLeavesNoEmptyPlain(child, keys[1..], i - 1);
    }
  }

  /** Properties of the root other than the first key are untouched by the walk. */
  lemma DeleteAtSiblings(o: Value, keys: seq<string>, k: string)
    requires o.Obj? && |keys| > 0
    requires DeleteAt(o, keys).Some?
    requires k != keys[0]
    ensures Get(DeleteAt(o, keys).value, k) == Get(o, k)
  {
  }

  /**
   * What deleteProp promises: unchanged unless `obj` is an object, a key is
   * given and every intermediate is an object; in that case the root stays
   * (an object of its kind), the path reads undefined, its other properties
   * keep their values, and no emptied plain object is left on the path.
   */
  lemma DeletePropMeaning(obj: Value, keys: seq<string>)
    ensures var r := DeletePropSpec(obj, keys);
      && (!IsObject(obj) || |keys| == 0 || !Deletable(obj, keys) ==> r == obj)
      && (IsObject(obj) && |keys| > 0 && Deletable(obj, keys) ==>
            && r.Obj? && r.kind == obj.kind
            && PathValue(r, keys) == Undefined
            && (forall k :: k != keys[0] ==> Get(r, k) == Get(obj, k))
            && (forall i :: 0 < i < |keys| ==>
                  !(IsPlainObject(PathValue(r, keys[..i])) && |PathValue(r, keys[..i]).props| == 0)))
  {
    if IsObject(obj) && |keys| > 0 {
      DeleteAtMeaning(obj, keys);
      if Deletable(obj, keys) {
        forall i | 0 < i < |keys|
          ensures !(IsPlainObject(PathValue(DeletePropSpec(obj, keys), keys[..i]))
                    && |PathValue(DeletePropSpec(obj, keys), keys[..i]).props| == 0)
        {
          DeleteAtLeavesNoEmptyPlain(obj, keys, i);
        }
      }
    }
  }

  /**
   * OO.deleteProp: the loop down the path pushing each object on `props`,
   * the delete of the last key, and the loop back up that deletes emptied
   * plain objects from their parents. The JavaScript loop stops at the first
   * object that is not emptied; here the walk back continues, writing each
   * object into its parent, which is what the in-place change amounts to.
   */
  method DeleteProp(obj: Value, keys: seq<string>) returns (r: Value)
    ensures r == DeletePropSpec(obj, keys)
  {
    if !IsObject(obj) || |keys| == 0 {
      return obj;
    }
    var props, ok := DeleteDescend(obj, keys);
    if !ok {
      return obj;
    }
    r := DeleteAscend(props, keys);
  }

  /**
   * The loop down the path of deleteProp: `props[i]` is the object reached
   * after `i` keys; it fails at an undefined or non-object value.
   */
  method DeleteDescend(obj: Value, keys: seq<string>) returns (props: seq<Value>, ok: bool)
    requires obj.Obj? && |keys| > 0
    ensures !ok ==> DeleteAt(obj, keys).None?
    ensures ok ==> |props| == |keys| && props[0] == obj
    ensures ok ==> forall j :: 0 <= j < |props| ==> props[j].Obj?
    ensures ok ==> forall j :: 0 <= j < |props| - 1 ==> props[j + 1] == Get(props[j], keys[j])
  {
    props := [obj];
    var i := 0;
    while i < |keys| - 1
      invariant 0 <= i <= |keys| - 1 && |props| == i + 1 && props[0] == obj
      invariant forall j :: 0 <= j <= i ==> props[j].Obj?
      invariant forall j :: 0 <= j < i ==> props[j + 1] == Get(props[j], keys[j])
      invariant Deletable(obj, keys) <==> Deletable(props[i], keys[i..])
    {
      var child := Get(props[i], keys[i]);
      if child == Undefined || !IsObject(child) {
        DeleteAtMeaning(obj, keys);
        return props, false;
      }
      assert keys[i..][1..] == keys[i + 1..];
      props := props + [child];
      i := i + 1;
    }
    ok := true;
  }

  /**
   * The loop back up of deleteProp: the last key is deleted, then each
   * object emptied to a plain `{}` is deleted from its parent.
   */
  method DeleteAscend(props: seq<Value>, keys: seq<string>) returns (r: Value)
    requires |props| == |keys| > 0
    requires forall j :: 0 <= j < |props| ==> props[j].Obj?
    requires forall j :: 0 <= j < |props| - 1 ==> props[j + 1] == Get(props[j], keys[j])
    ensures DeleteAt(props[0], keys) == Some(r)
  {
    var i := |keys| - 1;
    var cur := Remove(props[i], keys[i]);
    assert DeleteAt(props[i], keys[i..]) == Some(cur);
    var j := i;
    while j > 0
      invariant 0 <= j <= i
      invariant DeleteAt(props[j], keys[j..]) == Some(cur)
    {
      assert keys[j - 1..][1..] == keys[j..];
      if IsPlainObject(cur) && |cur.props| == 0 {
        cur := Remove(props[j - 1], keys[j - 1]);
      } else {
        cur := Put(props[j - 1], keys[j - 1], cur);
      }
      j := j - 1;
    }
    assert keys[0..] == keys;
    r := cur;
  }

  // --------------------------------------------------------------- examples

  /** The object of the unit tests: `{ foo: 3, bar: { baz: null, quux: { whee: 'yay' } } }`. */
  function TestObject(): Value
  {
    Obj(PlainKind, map[
      "foo" := Num(3),
      "bar" := Obj(PlainKind, map[
        "baz" := Null,
        "quux" := Obj(PlainKind, map["whee" := Str("yay")])])])
  }

  /** Reads of the unit tests, including reads through null and through a number. */
  lemma GetPropExamples()
    ensures PathValue(TestObject(), ["bar", "quux", "whee"]) == Str("yay")
    ensures PathValue(TestObject(), ["bar", "baz"]) == Null
    ensures PathValue(TestObject(), ["bar", "baz", "quux"]) == Undefined
    ensures PathValue(TestObject(), ["foo", "bar", "baz", "quux", "whee"]) == Undefined
  {
    assert ["bar", "quux", "whee"][1..] == ["quux", "whee"];
    assert ["bar", "baz", "quux"][1..] == ["baz", "quux"];
    assert ["foo", "bar", "baz", "quux", "whee"][1..] == ["bar", "baz", "quux", "whee"];
  }

  /** Unit test: a write below `bar` creates the missing intermediate `a`. */
  lemma SetPropCreatesExample()
    ensures PathValue(SetPropSpec(TestObject(), ["bar", "a", "b"], Str("c")), ["bar", "a", "b"]) == Str("c")
  {
    SetPropMeaning(TestObject(), ["bar", "a", "b"], Str("c"));
    assert ["bar", "a", "b"][1..] == ["a", "b"];
    assert Settable(TestObject(), ["bar", "a", "b"]);
  }

  /** Unit tests: a number or null on the path is not descended into, and a non-object is returned as is. */
  lemma SetPropBlockedExamples()
    ensures SetPropSpec(TestObject(), ["foo", "bar"], Num(5)) == TestObject()
    ensures SetPropSpec(TestObject(), ["bar", "baz", "whee", "wheee"], Str("wheeee")) == TestObject()
    ensures SetPropSpec(Num(1), ["foo"], Num(5)) == Num(1)
  {
    assert ["foo", "bar"][1..] == ["bar"];
    assert !Settable(TestObject(), ["foo", "bar"]);
    SetPropMeaning(TestObject(), ["foo", "bar"], Num(5));
    assert ["bar", "baz", "whee", "wheee"][1..] == ["baz", "whee", "wheee"];
    assert !Settable(TestObject(), ["bar", "baz", "whee", "wheee"]);
    SetPropMeaning(TestObject(), ["bar", "baz", "whee", "wheee"], Str("wheeee"));
  }

  /** `TestObject()` after `deleteProp( obj, 'bar', 'baz' )`. */
  function TestObjectWithoutBaz(): Value
  {
    Obj(PlainKind, map[
      "foo" := Num(3),
      "bar" := Obj(PlainKind, map["quux" := Obj(PlainKind, map["whee" := Str("yay")])])])
  }

  /** Deleting a key below the root keeps the non-empty parent. */
  lemma DeleteBazExample()
    ensures DeletePropSpec(TestObject(), ["bar", "baz"]) == TestObjectWithoutBaz()
  {
    assert ["bar", "baz"][1..] == ["baz"];
    var quux := Obj(PlainKind, map["whee" := Str("yay")]);
    var bar := Obj(PlainKind, map["quux" := quux]);
    assert map["baz" := Null, "quux" := quux] - {"baz"} == map["quux" := quux];
    assert TestObject().props["bar" := bar] == TestObjectWithoutBaz().props;
  }

  /**
   * The unit tests' "two cleanups": deleting `bar.quux.whee` empties `quux`
   * and then `bar`, so both are removed and `foo` stays.
   */
  lemma DeleteTwoCleanupsExample()
    ensures DeletePropSpec(TestObjectWithoutBaz(), ["bar", "quux", "whee"]) == Obj(PlainKind, map["foo" := Num(3)])
  {
    assert ["bar", "quux", "whee"][1..] == ["quux", "whee"];
    assert ["quux", "whee"][1..] == ["whee"];
    var quux := Obj(PlainKind, map["whee" := Str("yay")]);
    var bar := Obj(PlainKind, map["quux" := quux]);
    assert DeleteAt(quux, ["whee"]) == Some(EmptyObject);
    assert DeleteAt(bar, ["quux", "whee"]) == Some(EmptyObject);
    assert TestObjectWithoutBaz().props - {"bar"} == map["foo" := Num(3)];
  }

  /** Unit test: a number on the path is not descended into. */
  lemma DeletePropBlockedExample()
    ensures DeletePropSpec(TestObject(), ["foo", "bar"]) == TestObject()
  {
    assert Get(TestObject(), "foo") == Num(3);
    assert DeleteAt(TestObject(), ["foo", "bar"]) == None;
  }

  /** An empty plain object on the path is removed even when the last key was absent. */
  lemma DeleteEmptiedExample()
    ensures DeletePropSpec(Obj(PlainKind, map["a" := EmptyObject]), ["a", "x"]) == EmptyObject
  {
    assert ["a", "x"][1..] == ["x"];
    assert DeleteAt(EmptyObject, ["x"]) == Some(EmptyObject);
    assert map["a" := EmptyObject] - {"a"} == map[];
  }
}
