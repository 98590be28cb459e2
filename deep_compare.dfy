/**
 * OO.compare (src/core.js), without its branch for DOM nodes: a recursive
 * comparison of the own enumerable properties of two values, asymmetric
 * (every defined value of `a` is matched in `b`) or symmetric (both ways).
 */
module DeepCompare {
  import opened JsValues

  /** `v || {}`. */
  function OrEmpty(v: Value): (r: Value)
    ensures Truthy(v) ==> r == v
    ensures !Truthy(v) ==> r == EmptyObject
  {
    if Truthy(v) then v else EmptyObject
  }

  /** A `typeof` whose values compare with `!==` alone. */
  predicate IsPrimitiveType(t: string) {
    t == "string" || t == "number" || t == "boolean"
  }

  /**
   * The test of the loop body for one key with values `av` and `bv`: skip
   * when `av` is undefined or identical to `bv`; otherwise the types must
   * agree, the type must not be a primitive one (those already differ), and
   * when `av` is an object, `nested` (the asymmetric comparison of the two
   * values) must hold.
   */
  predicate EntryMatches(av: Value, bv: Value, nested: bool) {
    av == Undefined || av == bv ||
    (Typeof(av) == Typeof(bv) && !IsPrimitiveType(Typeof(av)) && nested)
  }

  /**
   * OO.compare( a, b, asymmetrical ): true at once for identical values;
   * otherwise every own property of `a || {}` must match in `b || {}` and,
   * unless asymmetrical, the comparison is repeated with the two swapped.
   *
   * `a === b` is value equality here: objects are trees, not references.
   */
  predicate Compare(a: Value, b: Value, asymmetrical: bool)
    decreases if asymmetrical then 0 else 1, a
  {
    a == b ||
    ((!a.Obj? ||
      forall k :: k in a.props ==>
        EntryMatches(a.props[k], Get(b, k), !a.props[k].Obj? || Compare(a.props[k], Get(b, k), true)))
     && (asymmetrical || Compare(OrEmpty(b), OrEmpty(a), true)))
  }

  /**
   * The same comparison without the `a === b` shortcut, as it runs on two
   * distinct objects with the same contents.
   */
  predicate CompareByContent(a: Value, b: Value, asymmetrical: bool)
    decreases if asymmetrical then 0 else 1, a
  {
    (!a.Obj? ||
     forall k :: k in a.props ==>
       EntryMatches(a.props[k], Get(b, k), !a.props[k].Obj? || CompareByContent(a.props[k], Get(b, k), true)))
    && (asymmetrical || CompareByContent(OrEmpty(b), OrEmpty(a), true))
  }

  /** Comparing a value with itself succeeds even without the shortcut. */
  lemma CompareByContentReflexive(a: Value, asymmetrical: bool)
    ensures CompareByContent(a, a, asymmetrical)
  {
  }

  /**
   * The shortcut does not change any answer: identical values (the only ones
   * it decides) also compare equal by content.
   */
  lemma {:induction false} CompareIgnoresIdentity(a: Value, b: Value, asymmetrical: bool)
    ensures Compare(a, b, asymmetrical) == CompareByContent(a, b, asymmetrical)
    decreases if asymmetrical then 0 else 1, a
  {
    if a == b {
      CompareByContentReflexive(a, asymmetrical);
    } else {
      if a.Obj? {
        forall k | k in a.props
          ensures Compare(a.props[k], Get(b, k), true) == CompareByContent(a.props[k], Get(b, k), true)
        {
          CompareIgnoresIdentity(a.props[k], Get(b, k), true);
        }
      }
      if !asymmetrical {
        CompareIgnoresIdentity(OrEmpty(b), OrEmpty(a), true);
      }
    }
  }

  /** Compare is reflexive. */
  lemma CompareReflexive(a: Value, asymmetrical: bool)
    ensures Compare(a, a, asymmetrical)
  {
  }

  /** A falsy first argument (null, undefined, ...) acts as `{}`. */
  lemma FalsyFirstIsEmpty(a: Value, b: Value, asymmetrical: bool)
    ensures Compare(a, b, asymmetrical) == Compare(OrEmpty(a), b, asymmetrical)
  {
    if !Truthy(a) {
      assert OrEmpty(OrEmpty(a)) == OrEmpty(a) == EmptyObject;
      if b == EmptyObject || b == a {
        assert OrEmpty(b) == EmptyObject;
      }
    }
  }

  /** A falsy second argument acts as `{}`. */
  lemma FalsySecondIsEmpty(a: Value, b: Value, asymmetrical: bool)
    ensures Compare(a, b, asymmetrical) == Compare(a, OrEmpty(b), asymmetrical)
  {
    if !Truthy(b) {
      assert forall k :: Get(b, k) == Get(OrEmpty(b), k);
      if !asymmetrical {
        assert OrEmpty(OrEmpty(b)) == OrEmpty(b);
      }
    }
  }

  /** null and undefined act as `{}` on either side. */
  lemma NullAndUndefinedAreEmpty(v: Value, asymmetrical: bool)
    ensures Compare(Null, v, asymmetrical) == Compare(EmptyObject, v, asymmetrical)
    ensures Compare(Undefined, v, asymmetrical) == Compare(EmptyObject, v, asymmetrical)
    ensures Compare(v, Null, asymmetrical) == Compare(v, EmptyObject, asymmetrical)
    ensures Compare(v, Undefined, asymmetrical) == Compare(v, EmptyObject, asymmetrical)
  {
    FalsyFirstIsEmpty(Null, v, asymmetrical);
    FalsyFirstIsEmpty(Undefined, v, asymmetrical);
    FalsySecondIsEmpty(v, Null, asymmetrical);
    FalsySecondIsEmpty(v, Undefined, asymmetrical);
  }

  /** The symmetric form is the asymmetric form in both directions. */
  lemma SymmetricIsBothWays(a: Value, b: Value)
    ensures Compare(a, b, false) <==> Compare(a, b, true) && Compare(b, a, true)
  {
    FalsyFirstIsEmpty(b, OrEmpty(a), true);
    FalsySecondIsEmpty(b, a, true);
  }

  /** The symmetric form does not depend on the order of its arguments. */
  lemma SymmetricCommutes(a: Value, b: Value)
    ensures Compare(a, b, false) == Compare(b, a, false)
  {
    SymmetricIsBothWays(a, b);
    SymmetricIsBothWays(b, a);
  }

  /** A key of `a` holding undefined is the same as a missing key. */
  lemma UndefinedKeyIgnoredFirst(a: Value, k: string, b: Value)
    requires a.Obj? && k !in a.props
    ensures Compare(Put(a, k, Undefined), b, true) == Compare(a, b, true)
  {
    var a' := Put(a, k, Undefined);
    if a' == b {
      assert forall j :: j in a.props ==> Get(b, j) == a.props[j];
    }
  }

  /** A key of `b` holding undefined is the same as a missing key. */
  lemma UndefinedKeyIgnoredSecond(a: Value, b: Value, k: string)
    requires b.Obj? && k !in b.props
    ensures Compare(a, Put(b, k, Undefined), true) == Compare(a, b, true)
  {
    var b' := Put(b, k, Undefined);
    assert forall j :: Get(b', j) == Get(b, j);
    if a == b' && a.Obj? {
      assert forall j :: j in a.props ==> a.props[j] == Undefined || Get(b, j) == a.props[j];
    }
  }

  /** For the symmetric form, a key holding undefined is the same as a missing key. */
  lemma UndefinedKeyIgnored(a: Value, k: string, b: Value)
    requires a.Obj? && k !in a.props
    ensures Compare(Put(a, k, Undefined), b, false) == Compare(a, b, false)
  {
    UndefinedKeyIgnoredFirst(a, k, b);
    UndefinedKeyIgnoredSecond(b, a, k);
    SymmetricIsBothWays(Put(a, k, Undefined), b);
    SymmetricIsBothWays(a, b);
  }

  /**
   * The asymmetric form checks that `a` is contained in `b`: if `b` has
   * every own property of the object `a` with the same value, it holds.
   */
  lemma ExtensionMatches(a: Value, b: Value)
    requires a.Obj? && b.Obj?
    requires forall k :: k in a.props ==> k in b.props && b.props[k] == a.props[k]
    ensures Compare(a, b, true)
  {
  }

  /**
   * The only way the asymmetric form fails: some own property of `a` is
   * defined and differs from `b`'s in type, in primitive value, or, for an
   * object, in the nested asymmetric comparison.
   */
  lemma AsymmetricFailure(a: Value, b: Value)
    requires !Compare(a, b, true)
    ensures a.Obj?
    ensures exists k ::
      && k in a.props && a.props[k] != Undefined && a.props[k] != Get(b, k)
      && (|| Typeof(a.props[k]) != Typeof(Get(b, k))
          || IsPrimitiveType(Typeof(a.props[k]))
          || (a.props[k].Obj? && !Compare(a.props[k], Get(b, k), true)))
  {
  }

  /** Unit tests: `[]` equals `{}`, and `{}` equals null both ways. */
  lemma EmptyExamples()
    ensures Compare(Obj(ArrayKind, map[]), EmptyObject, false)
    ensures Compare(EmptyObject, Null, false) && Compare(Null, EmptyObject, false)
  {
    assert Compare(EmptyObject, EmptyObject, true);
  }

  /** Unit test: `{ a: 1 }` does not equal null. */
  lemma NonEmptyAgainstNullExample()
    ensures !Compare(Obj(PlainKind, map["a" := Num(1)]), Null, false)
  {
    var one := Obj(PlainKind, map["a" := Num(1)]);
    assert one.props["a"] == Num(1) && Get(Null, "a") == Undefined;
  }

  /** Unit test: `[ true ]` does not equal `[ false ]`. */
  lemma DifferentBooleansExample()
    ensures !Compare(Obj(ArrayKind, map["0" := Bool(true)]), Obj(ArrayKind, map["0" := Bool(false)]), false)
  {
    var t := Obj(ArrayKind, map["0" := Bool(true)]);
    assert t.props["0"] == Bool(true) && Get(Obj(ArrayKind, map["0" := Bool(false)]), "0") == Bool(false);
  }

  /** Unit test: `[ 1, 2, undefined ]` equals `[ 1, 2 ]`. */
  lemma ExplicitUndefinedExample()
    ensures Compare(Obj(ArrayKind, map["0" := Num(1), "1" := Num(2), "2" := Undefined]),
                    Obj(ArrayKind, map["0" := Num(1), "1" := Num(2)]), false)
  {
    var x := Obj(ArrayKind, map["0" := Num(1), "1" := Num(2), "2" := Undefined]);
    var y := Obj(ArrayKind, map["0" := Num(1), "1" := Num(2)]);
    assert Compare(x, y, true) by {
      assert forall k :: k in x.props ==> x.props[k] == Undefined || x.props[k] == Get(y, k);
    }
    assert Compare(y, x, true) by {
      assert forall k :: k in y.props ==> y.props[k] == Get(x, k);
    }
    SymmetricIsBothWays(x, y);
  }

  /** Unit test: `{ a: 5 }` equals `{ a: 5, b: undefined }`. */
  lemma MissingKeyExample()
    ensures Compare(Obj(PlainKind, map["a" := Num(5)]), Obj(PlainKind, map["a" := Num(5), "b" := Undefined]), false)
  {
    var p := Obj(PlainKind, map["a" := Num(5)]);
    assert Put(p, "b", Undefined) == Obj(PlainKind, map["a" := Num(5), "b" := Undefined]);
    UndefinedKeyIgnoredSecond(p, p, "b");
    UndefinedKeyIgnoredFirst(p, "b", p);
    SymmetricIsBothWays(p, Put(p, "b", Undefined));
  }
}
