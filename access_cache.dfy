/**
 * The reflection-lookup cache: three independent nested dictionaries that
 * memoise field, property and method lookups. A miss asks a resolver and
 * stores its answer, `null` included; a hit returns what is stored. Method
 * lookups are keyed by the fingerprint of the argument types, so two argument
 * lists with the same fingerprint share one entry.
 */
module AccessCaching {
  import opened Wrappers
  import opened Int32
  import opened Fingerprints

  /** A runtime type, compared by identity. */
  datatype TypeId = TypeId(id: nat)

  /** Opaque reflection objects handed out by the resolvers. */
  datatype FieldInfo = FieldInfo(handle: nat)
  datatype PropertyInfo = PropertyInfo(handle: nat)
  datatype MethodBase = MethodBase(handle: nat)

  /** The key of one method entry: type, name and argument fingerprint. */
  type MethodKey = (TypeId, string, Word)

  /** The two-level dictionary `m` with `v` stored under `t` and `n`, creating the inner dictionary when `t` has none. */
  function Store<K, L, V>(m: map<K, map<L, V>>, t: K, n: L, v: V): (r: map<K, map<L, V>>)
    ensures t in r && n in r[t] && r[t][n] == v
    ensures forall t', n' :: t' in m && n' in m[t'] && (t', n') != (t, n) ==>
      t' in r && n' in r[t'] && r[t'][n'] == m[t'][n']
    ensures forall t', n' :: t' in r && n' in r[t'] ==> (t', n') == (t, n) || (t' in m && n' in m[t'])
  {
    m[t := (if t in m then m[t] else map[])[n := v]]
  }

  /** No entry of `before` is lost or overwritten in `after`; new entries may appear. */
  ghost predicate Grows<K, L, V>(before: map<K, map<L, V>>, after: map<K, map<L, V>>) {
    forall t, n :: t in before && n in before[t] ==> t in after && n in after[t] && after[t][n] == before[t][n]
  }

  /**
   * The memoisation invariant of a two-level dictionary: every stored value is
   * the resolver's answer for its key, and `calls`, the resolver calls made so
   * far, holds each stored key exactly once and nothing else.
   */
  ghost predicate Memoised<V>(m: map<TypeId, map<string, V>>, resolve: (TypeId, string) -> V, calls: multiset<(TypeId, string)>) {
    (forall t, n :: t in m && n in m[t] ==> m[t][n] == resolve(t, n)) &&
    (forall t, n :: calls[(t, n)] == if t in m && n in m[t] then 1 else 0)
  }

  /** A miss that stores the resolver's answer, with one more resolver call, keeps the invariant and loses nothing. */
  lemma StoreMiss<V>(m: map<TypeId, map<string, V>>, resolve: (TypeId, string) -> V, calls: multiset<(TypeId, string)>, t: TypeId, n: string)
    requires Memoised(m, resolve, calls)
    requires !(t in m && n in m[t])
    ensures Memoised(Store(m, t, n, resolve(t, n)), resolve, calls + multiset{(t, n)})
    ensures Grows(m, Store(m, t, n, resolve(t, n)))
  {
    var r, c := Store(m, t, n, resolve(t, n)), calls + multiset{(t, n)};
    forall t', n' ensures c[(t', n')] == if t' in r && n' in r[t'] then 1 else 0 {
      assert c[(t', n')] == calls[(t', n')] + if (t', n') == (t, n) then 1 else 0;
    }
  }

  /** The three-level method dictionary `m` with `v` stored under `t`, `n` and `h`, creating inner dictionaries as needed. */
  function StoreMethod<V>(m: map<TypeId, map<string, map<Word, V>>>, t: TypeId, n: string, h: Word, v: V): (r: map<TypeId, map<string, map<Word, V>>>)
    ensures t in r && n in r[t] && h in r[t][n] && r[t][n][h] == v
    ensures forall t', n', h' :: t' in m && n' in m[t'] && h' in m[t'][n'] && (t', n', h') != (t, n, h) ==>
      t' in r && n' in r[t'] && h' in r[t'][n'] && r[t'][n'][h'] == m[t'][n'][h']
    ensures forall t', n', h' :: t' in r && n' in r[t'] && h' in r[t'][n'] ==>
      (t', n', h') == (t, n, h) || (t' in m && n' in m[t'] && h' in m[t'][n'])
  {
    var byName: map<string, map<Word, V>> := if t in m then m[t] else map[];
    var byArguments: map<Word, V> := if n in byName then byName[n] else map[];
    m[t := byName[n := byArguments[h := v]]]
  }

  /**
   * The memoisation invariant of the method dictionary: `arguments` names, for
   * every stored key, the argument list that was resolved for it, whose
   * fingerprint is the key's last part; the stored value is the resolver's
   * answer for that list; and `calls` holds each stored key exactly once and
   * nothing else.
   */
  ghost predicate MethodsMemoised(m: map<TypeId, map<string, map<Word, Option<MethodBase>>>>,
                                  resolve: (TypeId, string, seq<TypeId>) -> Option<MethodBase>,
                                  hashCode: TypeId -> Word,
                                  arguments: map<MethodKey, seq<TypeId>>,
                                  calls: multiset<MethodKey>) {
    (forall t, n, h :: t in m && n in m[t] && h in m[t][n] <==> (t, n, h) in arguments) &&
    (forall t, n, h :: (t, n, h) in arguments ==>
      t in m && n in m[t] && h in m[t][n] &&
      m[t][n][h] == resolve(t, n, arguments[(t, n, h)]) && Fingerprint(arguments[(t, n, h)], hashCode) == h) &&
    (forall t, n, h :: calls[(t, n, h)] == if (t, n, h) in arguments then 1 else 0)
  }

  /** A method miss that stores the resolver's answer for `args` keeps the invariant. */
  lemma StoreMethodMiss(m: map<TypeId, map<string, map<Word, Option<MethodBase>>>>,
                        resolve: (TypeId, string, seq<TypeId>) -> Option<MethodBase>,
                        hashCode: TypeId -> Word,
                        arguments: map<MethodKey, seq<TypeId>>,
                        calls: multiset<MethodKey>,
                        t: TypeId, n: string, args: seq<TypeId>)
    requires MethodsMemoised(m, resolve, hashCode, arguments, calls)
    requires var h := Fingerprint(args, hashCode); !(t in m && n in m[t] && h in m[t][n])
    ensures var h := Fingerprint(args, hashCode);
      MethodsMemoised(StoreMethod(m, t, n, h, resolve(t, n, args)), resolve, hashCode,
                      arguments[(t, n, h) := args], calls + multiset{(t, n, h)})
  {
    var h := Fingerprint(args, hashCode);
    var r, a, c := StoreMethod(m, t, n, h, resolve(t, n, args)), arguments[(t, n, h) := args], calls + multiset{(t, n, h)};
    forall t', n', h' ensures c[(t', n', h')] == if (t', n', h') in a then 1 else 0 {
      assert c[(t', n', h')] == calls[(t', n', h')] + if (t', n', h') == (t, n, h) then 1 else 0;
    }
  }

  class AccessCache {
    /** `AccessTools.DeclaredField`: the field a type declares under a name, or `None`. */
    const declaredField: (TypeId, string) -> Option<FieldInfo>
    /** `AccessTools.DeclaredProperty`: the property a type declares under a name, or `None`. */
    const declaredProperty: (TypeId, string) -> Option<PropertyInfo>
    /** `AccessTools.Method`: the method of a type with a name and argument types, or `None`. */
    const findMethod: (TypeId, string, seq<TypeId>) -> Option<MethodBase>
    /** `Type.GetHashCode`, as a bit pattern. */
    const typeHashCode: TypeId -> Word

    var fields: map<TypeId, map<string, Option<FieldInfo>>>
    var properties: map<TypeId, map<string, Option<PropertyInfo>>>
    var methods: map<TypeId, map<string, map<Word, Option<MethodBase>>>>

    /** Every call made to each resolver so far, by key. */
    ghost var fieldResolutions: multiset<(TypeId, string)>
    ghost var propertyResolutions: multiset<(TypeId, string)>
    ghost var methodResolutions: multiset<MethodKey>
    /** For each method entry, the argument list whose resolution was stored there. */
    ghost var methodArguments: map<MethodKey, seq<TypeId>>

    ghost predicate HasField(t: TypeId, n: string)
      reads this
    {
      t in fields && n in fields[t]
    }

    ghost predicate HasProperty(t: TypeId, n: string)
      reads this
    {
      t in properties && n in properties[t]
    }

    ghost predicate HasMethod(k: MethodKey)
      reads this
    {
      k.0 in methods && k.1 in methods[k.0] && k.2 in methods[k.0][k.1]
    }

    /** The field dictionary memoises `declaredField`, and `fieldResolutions` records its calls. */
    ghost predicate FieldsValid()
      reads this`fields, this`fieldResolutions
    {
      Memoised(fields, declaredField, fieldResolutions)
    }

    /** The property dictionary memoises `declaredProperty`, and `propertyResolutions` records its calls. */
    ghost predicate PropertiesValid()
      reads this`properties, this`propertyResolutions
    {
      Memoised(properties, declaredProperty, propertyResolutions)
    }

    /** The method dictionary memoises `findMethod` by argument fingerprint. */
    ghost predicate MethodsValid()
      reads this`methods, this`methodResolutions, this`methodArguments
    {
      MethodsMemoised(methods, findMethod, typeHashCode, methodArguments, methodResolutions)
    }

    ghost predicate Valid()
      reads this
    {
      FieldsValid() && PropertiesValid() && MethodsValid()
    }

    /** A new, empty cache over the given resolvers. */
    constructor (declaredField: (TypeId, string) -> Option<FieldInfo>,
                 declaredProperty: (TypeId, string) -> Option<PropertyInfo>,
                 findMethod: (TypeId, string, seq<TypeId>) -> Option<MethodBase>,
                 typeHashCode: TypeId -> Word)
      ensures Valid()
      ensures this.declaredField == declaredField && this.declaredProperty == declaredProperty
      ensures this.findMethod == findMethod && this.typeHashCode == typeHashCode
      ensures fields == map[] && properties == map[] && methods == map[]
      ensures fieldResolutions == multiset{} && propertyResolutions == multiset{} && methodResolutions == multiset{}
    {
      this.declaredField := declaredField;
      this.declaredProperty := declaredProperty;
      this.findMethod := findMethod;
      this.typeHashCode := typeHashCode;
      fields, properties, methods := map[], map[], map[];
      fieldResolutions, propertyResolutions, methodResolutions := multiset{}, multiset{}, multiset{};
      methodArguments := map[];
    }

    /**
     * `GetFieldInfo`: the field of `type` named `name`. The answer is always
     * the resolver's; a miss resolves once and stores the answer (even
     * `None`), a hit changes nothing.
     */
    method GetFieldInfo(typ: TypeId, name: string) returns (field: Option<FieldInfo>)
      requires Valid()
      modifies this`fields, this`fieldResolutions
      ensures Valid()
      ensures field == declaredField(typ, name)
      ensures typ in fields && name in fields[typ] && fields[typ][name] == field
      ensures fieldResolutions[(typ, name)] == 1
      ensures old(HasField(typ, name)) ==>
        fields == old(fields) && fieldResolutions == old(fieldResolutions)
      ensures !old(HasField(typ, name)) ==>
        fields == Store(old(fields), typ, name, field) &&
        fieldResolutions == old(fieldResolutions) + multiset{(typ, name)}
      ensures Grows(old(fields), fields)
    {
      if typ in fields && name in fields[typ] {
        field := fields[typ][name];
      } else {
        field := declaredField(typ, name);
        StoreMiss(fields, declaredField, fieldResolutions, typ, name);
        fields := Store(fields, typ, name, field);
        fieldResolutions := fieldResolutions + multiset{(typ, name)};
      }
    }

    /**
     * `GetPropertyInfo`: the same memoisation as `GetFieldInfo`, on the
     * property dictionary and with the property resolver.
     */
    method GetPropertyInfo(typ: TypeId, name: string) returns (property: Option<PropertyInfo>)
      requires Valid()
      modifies this`properties, this`propertyResolutions
      ensures Valid()
      ensures property == declaredProperty(typ, name)
      ensures typ in properties && name in properties[typ] && properties[typ][name] == property
      ensures propertyResolutions[(typ, name)] == 1
      ensures old(HasProperty(typ, name)) ==>
        properties == old(properties) && propertyResolutions == old(propertyResolutions)
      ensures !old(HasProperty(typ, name)) ==>
        properties == Store(old(properties), typ, name, property) &&
        propertyResolutions == old(propertyResolutions) + multiset{(typ, name)}
      ensures Grows(old(properties), properties)
    {
      if typ in properties && name in properties[typ] {
        property := properties[typ][name];
      } else {
        property := declaredProperty(typ, name);
        StoreMiss(properties, declaredProperty, propertyResolutions, typ, name);
        properties := Store(properties, typ, name, property);
        propertyResolutions := propertyResolutions + multiset{(typ, name)};
      }
    }

    /**
     * `CombinedHashCode`: the fingerprint of an ordered list, computed by one
     * pass that alternates between the two accumulators.
     */
    static method CombinedHashCode<T>(objects: seq<T>, hashCode: T -> Word) returns (hash: Word)
      ensures hash == Fingerprint(objects, hashCode)
    {
      var hash1 := Seed;
      var hash2 := hash1;
      var i := 0;
      while i < |objects|
        invariant 0 <= i <= |objects|
        invariant hash1 == Fold(Evens(objects[..i]), hashCode)
        invariant hash2 == Fold(Odds(objects[..i]), hashCode)
      {
        assert objects[..i + 1] == objects[..i] + [objects[i]];
        EvensOddsSnoc(objects[..i], objects[i]);
        if i % 2 == 0 {
          FoldSnoc(Evens(objects[..i]), objects[i], hashCode);
          hash1 := Mix(hash1, hashCode(objects[i]));
        } else {
          FoldSnoc(Odds(objects[..i]), objects[i], hashCode);
          hash2 := Mix(hash2, hashCode(objects[i]));
        }
        i := i + 1;
      }
      assert objects[..i] == objects;
      hash := Combine(hash1, hash2);
    }

    /**
     * `GetMethodInfo`: the method of `type` named `name` for `arguments`,
     * looked up by the arguments' fingerprint. A miss resolves with these
     * arguments and stores the answer; a hit returns the stored answer, which
     * was resolved for an argument list with the same fingerprint, possibly
     * not this one.
     */
    method GetMethodInfo(typ: TypeId, name: string, arguments: seq<TypeId>) returns (methodBase: Option<MethodBase>)
      requires Valid()
      modifies this`methods, this`methodResolutions, this`methodArguments
      ensures Valid()
      ensures var k := (typ, name, Fingerprint(arguments, typeHashCode));
        HasMethod(k) && methods[typ][name][k.2] == methodBase && methodResolutions[k] == 1 &&
        (old(HasMethod(k)) ==>
          methods == old(methods) && methodResolutions == old(methodResolutions) &&
          methodArguments == old(methodArguments) &&
          methodBase == findMethod(typ, name, old(methodArguments)[k])) &&
        (!old(HasMethod(k)) ==>
          methodBase == findMethod(typ, name, arguments) &&
          methods == StoreMethod(old(methods), typ, name, k.2, methodBase) &&
          methodArguments == old(methodArguments)[k := arguments] &&
          methodResolutions == old(methodResolutions) + multiset{k})
      ensures forall t, n, h :: t in old(methods) && n in old(methods)[t] && h in old(methods)[t][n] ==>
        t in methods && n in methods[t] && h in methods[t][n] && methods[t][n][h] == old(methods)[t][n][h]
    {
      var argumentsHash := CombinedHashCode(arguments, typeHashCode);
      if typ in methods && name in methods[typ] && argumentsHash in methods[typ][name] {
        methodBase := methods[typ][name][argumentsHash];
      } else {
        methodBase := findMethod(typ, name, arguments);
        StoreMethodMiss(methods, findMethod, typeHashCode, methodArguments, methodResolutions, typ, name, arguments);
        var k := (typ, name, argumentsHash);
        methods := StoreMethod(methods, typ, name, argumentsHash, methodBase);
        methodArguments := methodArguments[k := arguments];
        methodResolutions := methodResolutions + multiset{k};
      }
    }
  }

  /**
   * Two method lookups whose argument lists have the same fingerprint share
   * one entry: the second returns what the first stored, and the resolver
   * has been asked once for that entry in all.
   */
  method SharedMethodEntry(c: AccessCache, typ: TypeId, name: string, first: seq<TypeId>, second: seq<TypeId>)
    returns (a: Option<MethodBase>, b: Option<MethodBase>)
    requires c.Valid()
    requires Fingerprint(first, c.typeHashCode) == Fingerprint(second, c.typeHashCode)
    modifies c`methods, c`methodResolutions, c`methodArguments
    ensures c.Valid()
    ensures a == b
    ensures c.methodResolutions[(typ, name, Fingerprint(first, c.typeHashCode))] == 1
  {
    a := c.GetMethodInfo(typ, name, first);
    b := c.GetMethodInfo(typ, name, second);
  }
}
