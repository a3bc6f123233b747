/**
 * The type classifier of util.py: fixed- versus variable-size fields, the
 * container predicates consulted by the codec templates, and the
 * decomposition of composite type names (`List_<Item>`, `ListCN_<Item>`,
 * `Map_<Key>_<Value>`, `EntryList_<Key>_<Value>`, `Enum_<Base>`).
 *
 * The override tables `FixedLengthTypes`, `FixedListTypes`, `FixedMapTypes`
 * and `FixedEntryListTypes` live in a module that is not part of this model;
 * they are parameters here. The per-language `lang_name` is a parameter too.
 */
module TypeNames {
  import opened Outcomes
  import Names
  import opened PyString

  /** A parameter of a message or custom type: its name and its type name. */
  datatype Field = Field(name: string, typ: string)

  const ListPrefix := "List_"
  const ListCNPrefix := "ListCN_"
  const MapPrefix := "Map_"
  const EntryListPrefix := "EntryList_"
  const EnumPrefix := "Enum_"

  /** `is_fixed_type(param)` */
  predicate IsFixedType(p: Field, fixedLengthTypes: set<string>) {
    p.typ in fixedLengthTypes
  }

  /** `fixed_params(params)`: the fixed-size fields, in their original order. */
  function FixedParams(ps: seq<Field>, fixedLengthTypes: set<string>): (r: seq<Field>)
    ensures |r| <= |ps|
    ensures forall k :: 0 <= k < |r| ==> IsFixedType(r[k], fixedLengthTypes)
  {
    if ps == [] then []
    else (if IsFixedType(ps[0], fixedLengthTypes) then [ps[0]] else [])
         + FixedParams(ps[1..], fixedLengthTypes)
  }

  /** `var_size_params(params)`: the other fields, in their original order. */
  function VarSizeParams(ps: seq<Field>, fixedLengthTypes: set<string>): (r: seq<Field>)
    ensures |r| <= |ps|
    ensures forall k :: 0 <= k < |r| ==> !IsFixedType(r[k], fixedLengthTypes)
  {
    if ps == [] then []
    else (if IsFixedType(ps[0], fixedLengthTypes) then [] else [ps[0]])
         + VarSizeParams(ps[1..], fixedLengthTypes)
  }

  /** Together the two lists hold every field exactly as often as `ps` does;
      so a field is in `fixed_params` exactly when it is a fixed-size field of
      `ps`, and in `var_size_params` exactly when it is any other field of `ps`. */
  lemma ParamsPartition(ps: seq<Field>, fixedLengthTypes: set<string>)
    ensures multiset(FixedParams(ps, fixedLengthTypes)) + multiset(VarSizeParams(ps, fixedLengthTypes))
            == multiset(ps)
    ensures forall p :: p in FixedParams(ps, fixedLengthTypes) <==> p in ps && IsFixedType(p, fixedLengthTypes)
    ensures forall p :: p in VarSizeParams(ps, fixedLengthTypes) <==> p in ps && !IsFixedType(p, fixedLengthTypes)
  {
    ParamsMultiset(ps, fixedLengthTypes);
    forall p ensures p in FixedParams(ps, fixedLengthTypes) <==> p in ps && IsFixedType(p, fixedLengthTypes) {
      PartitionMember(ps, fixedLengthTypes, p);
    }
    forall p ensures p in VarSizeParams(ps, fixedLengthTypes) <==> p in ps && !IsFixedType(p, fixedLengthTypes) {
      PartitionMember(ps, fixedLengthTypes, p);
    }
  }

  /** Membership of one field, read off the multiset identity. */
  lemma PartitionMember(ps: seq<Field>, fixedLengthTypes: set<string>, p: Field)
    requires multiset(FixedParams(ps, fixedLengthTypes)) + multiset(VarSizeParams(ps, fixedLengthTypes))
             == multiset(ps)
    ensures p in FixedParams(ps, fixedLengthTypes) <==> p in ps && IsFixedType(p, fixedLengthTypes)
    ensures p in VarSizeParams(ps, fixedLengthTypes) <==> p in ps && !IsFixedType(p, fixedLengthTypes)
  {
    var f := FixedParams(ps, fixedLengthTypes);
    var v := VarSizeParams(ps, fixedLengthTypes);
    MultisetUnionMember(f, v, ps, p);
    if p in f {
      var k :| 0 <= k < |f| && f[k] == p;
    }
    if p in v {
      var k :| 0 <= k < |v| && v[k] == p;
    }
  }

  /** A field is in `ps` when, and only when, it is in one of two lists whose
      multisets add up to that of `ps`. */
  lemma MultisetUnionMember(f: seq<Field>, v: seq<Field>, ps: seq<Field>, p: Field)
    requires multiset(f) + multiset(v) == multiset(ps)
    ensures p in ps <==> p in f || p in v
  {
    assert p in ps <==> p in multiset(ps);
    assert p in f <==> p in multiset(f);
    assert p in v <==> p in multiset(v);
  }

  lemma {:induction false} ParamsMultiset(ps: seq<Field>, fixedLengthTypes: set<string>)
    ensures multiset(FixedParams(ps, fixedLengthTypes)) + multiset(VarSizeParams(ps, fixedLengthTypes))
            == multiset(ps)
  {
    if ps != [] {
      var f, v := FixedParams(ps[1..], fixedLengthTypes), VarSizeParams(ps[1..], fixedLengthTypes);
      ParamsMultiset(ps[1..], fixedLengthTypes);
      assert ps == [ps[0]] + ps[1..];
      assert multiset(ps) == multiset{ps[0]} + multiset(ps[1..]);
      if IsFixedType(ps[0], fixedLengthTypes) {
        assert FixedParams(ps, fixedLengthTypes) == [ps[0]] + f;
        assert VarSizeParams(ps, fixedLengthTypes) == [] + v;
      } else {
        assert FixedParams(ps, fixedLengthTypes) == [] + f;
        assert VarSizeParams(ps, fixedLengthTypes) == [ps[0]] + v;
      }
    }
  }

  /** `fixed_params` keeps the relative order of `ps`: splitting a field list
      and concatenating the pieces' results gives the result for the whole list. */
  lemma {:induction false} FixedParamsKeepOrder(a: seq<Field>, b: seq<Field>, fixedLengthTypes: set<string>)
    ensures FixedParams(a + b, fixedLengthTypes)
            == FixedParams(a, fixedLengthTypes) + FixedParams(b, fixedLengthTypes)
  {
    if a == [] {
      assert a + b == b;
    } else {
      var head := if IsFixedType(a[0], fixedLengthTypes) then [a[0]] else [];
      assert (a + b)[0] == a[0];
      assert (a + b)[1..] == a[1..] + b;
      FixedParamsKeepOrder(a[1..], b, fixedLengthTypes);
      assert FixedParams(a + b, fixedLengthTypes) == head + FixedParams(a[1..] + b, fixedLengthTypes);
      assert FixedParams(a, fixedLengthTypes) == head + FixedParams(a[1..], fixedLengthTypes);
    }
  }

  /** `var_size_params` keeps the relative order of `ps` in the same way. */
  lemma {:induction false} VarSizeParamsKeepOrder(a: seq<Field>, b: seq<Field>, fixedLengthTypes: set<string>)
    ensures VarSizeParams(a + b, fixedLengthTypes)
            == VarSizeParams(a, fixedLengthTypes) + VarSizeParams(b, fixedLengthTypes)
  {
    if a == [] {
      assert a + b == b;
    } else {
      var other := if IsFixedType(a[0], fixedLengthTypes) then [] else [a[0]];
      assert (a + b)[0] == a[0];
      assert (a + b)[1..] == a[1..] + b;
      VarSizeParamsKeepOrder(a[1..], b, fixedLengthTypes);
      assert VarSizeParams(a + b, fixedLengthTypes) == other + VarSizeParams(a[1..] + b, fixedLengthTypes);
      assert VarSizeParams(a, fixedLengthTypes) == other + VarSizeParams(a[1..], fixedLengthTypes);
    }
  }

  /** `is_enum(type)` */
  predicate IsEnum(t: string) {
    StartsWith(t, EnumPrefix)
  }

  /** `is_var_sized_list(param_type)` */
  predicate IsVarSizedList(t: string, fixedListTypes: set<string>) {
    StartsWith(t, ListPrefix) && t !in fixedListTypes
  }

  /** `is_var_sized_list_contains_nullable(param_type)`: consults the same
      override table as `is_var_sized_list`. */
  predicate IsVarSizedListContainsNullable(t: string, fixedListTypes: set<string>) {
    StartsWith(t, ListCNPrefix) && t !in fixedListTypes
  }

  /** `is_var_sized_map(param_type)` */
  predicate IsVarSizedMap(t: string, fixedMapTypes: set<string>) {
    StartsWith(t, MapPrefix) && t !in fixedMapTypes
  }

  /** `is_var_sized_entry_list(param_type)` */
  predicate IsVarSizedEntryList(t: string, fixedEntryListTypes: set<string>) {
    StartsWith(t, EntryListPrefix) && t !in fixedEntryListTypes
  }

  /** How many of the four container predicates hold. */
  function VarSizedCount(t: string, fixedListTypes: set<string>, fixedMapTypes: set<string>,
                         fixedEntryListTypes: set<string>): nat
  {
    (if IsVarSizedList(t, fixedListTypes) then 1 else 0) +
    (if IsVarSizedListContainsNullable(t, fixedListTypes) then 1 else 0) +
    (if IsVarSizedMap(t, fixedMapTypes) then 1 else 0) +
    (if IsVarSizedEntryList(t, fixedEntryListTypes) then 1 else 0)
  }

  /** At most one container predicate holds for any name (`ListCN_...` does not
      start with `List_`); none holds for a name without a container prefix,
      nor for a name listed in its override table. */
  lemma VarSizedExclusive(t: string, fixedListTypes: set<string>, fixedMapTypes: set<string>,
                          fixedEntryListTypes: set<string>)
    ensures VarSizedCount(t, fixedListTypes, fixedMapTypes, fixedEntryListTypes) <= 1
    ensures !StartsWith(t, ListPrefix) && !StartsWith(t, ListCNPrefix) && !StartsWith(t, MapPrefix)
            && !StartsWith(t, EntryListPrefix)
            ==> VarSizedCount(t, fixedListTypes, fixedMapTypes, fixedEntryListTypes) == 0
    ensures t in fixedListTypes ==> !IsVarSizedList(t, fixedListTypes)
                                    && !IsVarSizedListContainsNullable(t, fixedListTypes)
    ensures t in fixedMapTypes ==> !IsVarSizedMap(t, fixedMapTypes)
    ensures t in fixedEntryListTypes ==> !IsVarSizedEntryList(t, fixedEntryListTypes)
  {
    if StartsWith(t, ListPrefix) {
      assert t[4] == '_' && t[0] == 'L';
    }
    if StartsWith(t, ListCNPrefix) {
      assert t[4] == 'C' && t[0] == 'L';
    }
    if StartsWith(t, MapPrefix) {
      assert t[0] == 'M';
    }
    if StartsWith(t, EntryListPrefix) {
      assert t[0] == 'E';
    }
  }

  /** Splitting at most `n >= 1` times at a first `sep` that ends `p`. */
  lemma SplitNAfterFirst(p: string, rest: string, sep: char, n: nat)
    requires sep !in p && n >= 1
    ensures SplitN(p + [sep] + rest, sep, n) == [p] + SplitN(rest, sep, n - 1)
  {
    var s := p + [sep] + rest;
    assert s == p + ([sep] + rest);
    IndexOfPrefix(p, [sep] + rest, sep);
    assert s[..|p|] == p && s[|p| + 1..] == rest;
  }

  /** A string with a separator splits into at least two parts. */
  lemma SplitNSeparated(s: string, sep: char, n: nat)
    requires sep in s && n >= 1
    ensures |SplitN(s, sep, n)| >= 2
  {
  }

  /** `item_type(lang_name, param_type)`: the language name of the text after
      the first `_` of a `List_` or `ListCN_` name, and `None` for any other name. */
  function ItemType<T>(langName: string -> T, t: string): (r: Option<T>)
    ensures r.Some? <==> StartsWith(t, ListPrefix) || StartsWith(t, ListCNPrefix)
  {
    if StartsWith(t, ListPrefix) || StartsWith(t, ListCNPrefix) then
      assert t[..5][4] == '_' || t[..7][6] == '_';
      SplitNSeparated(t, '_', 1);
      Some(langName(SplitN(t, '_', 1)[1]))
    else
      None
  }

  lemma TwoParts(t: string)
    ensures |SplitN(t, '_', 2)| >= 2 <==> '_' in t
  {
    if '_' in t {
      SplitNSeparated(t, '_', 2);
    } else {
      assert |SplitN(t, '_', 2)| < 3;
    }
  }

  /** `key_type(lang_name, param_type)`: the language name of the second
      `_`-separated part; `IndexError` when the name holds no `_`. */
  function KeyType<T>(langName: string -> T, t: string): (r: Outcome<T>)
    ensures r.Ok? <==> '_' in t
  {
    var parts := SplitN(t, '_', 2);
    TwoParts(t);
    if |parts| < 2 then IndexError else Ok(langName(parts[1]))
  }

  /** `t` holds at least two `_`. */
  predicate TwoSeparators(t: string) {
    exists i, j :: 0 <= i < j < |t| && t[i] == '_' && t[j] == '_'
  }

  lemma ThreeParts(t: string)
    ensures |SplitN(t, '_', 2)| == 3 <==> TwoSeparators(t)
  {
    var i := IndexOf(t, '_');
    if i < |t| {
      var rest := t[i + 1..];
      assert t == t[..i] + ['_'] + rest;
      SplitNAfterFirst(t[..i], rest, '_', 2);
      var j := IndexOf(rest, '_');
      if j < |rest| {
        assert t[i + 1 + j] == '_';
        SplitNSeparated(rest, '_', 1);
      } else {
        assert SplitN(rest, '_', 1) == [rest];
      }
    }
  }

  /** `value_type(lang_name, param_type)`: the language name of the third part
      of `split('_', 2)`, which keeps any further `_`; `IndexError` when the
      name holds fewer than two `_`. */
  function ValueType<T>(langName: string -> T, t: string): (r: Outcome<T>)
    ensures r.Ok? <==> TwoSeparators(t)
  {
    var parts := SplitN(t, '_', 2);
    ThreeParts(t);
    if |parts| < 3 then IndexError else Ok(langName(parts[2]))
  }

  /** `enum_type(lang_name, param_type)`: the language name of the second
      `_`-separated part; `IndexError` when the name holds no `_`. */
  function EnumType<T>(langName: string -> T, t: string): (r: Outcome<T>)
    ensures r.Ok? <==> '_' in t
  {
    var parts := SplitN(t, '_', 2);
    TwoParts(t);
    if |parts| < 2 then IndexError else Ok(langName(parts[1]))
  }

  /** `List_<X>` and `ListCN_<X>` give back the item `X`, even when `X` itself
      holds `_` (a nested container). */
  lemma ItemTypeOfList<T>(langName: string -> T, item: string)
    ensures ItemType(langName, ListPrefix + item) == Some(langName(item))
    ensures ItemType(langName, ListCNPrefix + item) == Some(langName(item))
  {
    assert ListPrefix + item == "List" + ['_'] + item;
    SplitNAfterFirst("List", item, '_', 1);
    assert ListCNPrefix + item == "ListCN" + ['_'] + item;
    SplitNAfterFirst("ListCN", item, '_', 1);
  }

  /** `<P>_<K>_<V>` with `P` and `K` free of `_` gives key `K` and value `V`;
      `V` may hold `_`. */
  lemma KeyValueOfPair<T>(langName: string -> T, prefix: string, key: string, value: string)
    requires '_' !in prefix && '_' !in key
    ensures KeyType(langName, prefix + "_" + key + "_" + value) == Ok(langName(key))
    ensures ValueType(langName, prefix + "_" + key + "_" + value) == Ok(langName(value))
  {
    var t := prefix + "_" + key + "_" + value;
    assert t == prefix + ['_'] + (key + ['_'] + value);
    SplitNAfterFirst(prefix, key + ['_'] + value, '_', 2);
    SplitNAfterFirst(key, value, '_', 1);
    assert SplitN(t, '_', 2) == [prefix, key, value];
  }

  /** `Map_<K>_<V>` decomposes into `K` and `V`. */
  /** With the `lang_name` the C++ templates get, `cpp_name`, the name `Map_`
      gets past `key_type`'s own split, but `cpp_name` of the empty key raises
      `IndexError`, which the result carries inside `Ok`. */
  lemma KeyTypeOfEmptyKey()
    ensures KeyType(Names.CppName, "Map_") == Ok(IndexError)
  {
    assert "Map_" == "Map" + ['_'] + "";
    SplitNAfterFirst("Map", "", '_', 2);
    assert SplitN("", '_', 1) == [""];
    assert Names.StripParens("") == "";
  }

  lemma MapDecompose<T>(langName: string -> T, key: string, value: string)
    requires '_' !in key
    ensures KeyType(langName, MapPrefix + key + "_" + value) == Ok(langName(key))
    ensures ValueType(langName, MapPrefix + key + "_" + value) == Ok(langName(value))
  {
    var p := "Map";
    assert MapPrefix + key + "_" + value == p + "_" + key + "_" + value;
    KeyValueOfPair(langName, p, key, value);
  }

  /** `EntryList_<K>_<V>` decomposes into `K` and `V`. */
  lemma EntryListDecompose<T>(langName: string -> T, key: string, value: string)
    requires '_' !in key
    ensures KeyType(langName, EntryListPrefix + key + "_" + value) == Ok(langName(key))
    ensures ValueType(langName, EntryListPrefix + key + "_" + value) == Ok(langName(value))
  {
    var p := "EntryList";
    assert EntryListPrefix + key + "_" + value == p + "_" + key + "_" + value;
    KeyValueOfPair(langName, p, key, value);
  }

  /** `Enum_<B>` gives `B` when `B` is free of `_`. */
  lemma EnumTypeOfBase<T>(langName: string -> T, base: string)
    requires '_' !in base
    ensures EnumType(langName, EnumPrefix + base) == Ok(langName(base))
  {
    var p := "Enum";
    assert EnumPrefix + base == p + ['_'] + base;
    SplitNAfterFirst(p, base, '_', 2);
    assert SplitN(base, '_', 1) == [base];
  }

  /** `Enum_<B>_<rest>` also gives `B`: whatever follows a second `_` is
      dropped (`split('_', 2)[1]`). */
  lemma EnumTypeDropsSuffix<T>(langName: string -> T, base: string, rest: string)
    requires '_' !in base
    ensures EnumType(langName, EnumPrefix + base + "_" + rest) == Ok(langName(base))
  {
    var p := "Enum";
    assert EnumPrefix + base + "_" + rest == p + ['_'] + (base + ['_'] + rest);
    SplitNAfterFirst(p, base + ['_'] + rest, '_', 2);
    SplitNAfterFirst(base, rest, '_', 1);
  }

  /** Every `Enum_` name has a base to decompose. */
  lemma EnumHasBase<T>(langName: string -> T, t: string)
    requires IsEnum(t)
    ensures EnumType(langName, t).Ok?
  {
    assert t[..5][4] == '_';
  }
}
