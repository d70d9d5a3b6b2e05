/**
  Runs of the option store of vlr-util/AppOptions.cpp that show what its guarantees leave open, and when.
*/
module AppOptionRuns {
  import opened OptionNames
  import opened SpecifiedValue
  import opened AppOptions
  import opened Wrappers

  // ---------- Invalidation ----------

  /**
    Adding a value changes nothing that is prepared for a name that does not match its own, and leaves
    nothing prepared for one that does.
  */
  method AddThenFindPrepared(store: CAppOptions, v: CSpecifiedValue, name: string)
    returns (before: Status, r: CSpecifiedValue?, after: Status, s: CSpecifiedValue?)
    requires store.Valid()
    modifies store`specified, store`cache, store`kinds
    ensures store.Valid() && before == (if name in old(store.cache) then Status.Ok else False)
    ensures !Matches(v.nativeName, name) ==> after == before && s == r
    ensures Matches(v.nativeName, name) ==> after == False && s == null
  {
    before, r := store.PopulatePrePreparedSpecifiedValueForOption(name);
    var status := store.AddSpecifiedValue(v);
    after, s := store.PopulatePrePreparedSpecifiedValueForOption(name);
  }

  /** Clearing a value does the same if a value of its name was there. */
  method ClearThenFindPrepared(store: CAppOptions, v: CSpecifiedValue, name: string)
    returns (before: Status, r: CSpecifiedValue?, after: Status, s: CSpecifiedValue?)
    requires store.Valid()
    modifies store`specified, store`cache, store`kinds
    ensures store.Valid() && before == (if name in old(store.cache) then Status.Ok else False)
    ensures !Matches(v.nativeName, name) || v.nativeName !in old(store.specified) ==> after == before && s == r
    ensures Matches(v.nativeName, name) && v.nativeName in old(store.specified) ==> after == False && s == null
  {
    before, r := store.PopulatePrePreparedSpecifiedValueForOption(name);
    var status := store.ClearSpecifiedValue(v);
    after, s := store.PopulatePrePreparedSpecifiedValueForOption(name);
  }

  // ---------- Qualifiers ----------

  /**
    After qualifiers are cleared, the next access hands out a value without any exactly if the name was
    cached at the time, or the value carried none.
  */
  method ClearThenAccess(store: CAppOptions, v: CSpecifiedValue, name: string, k: Kind) returns (r: CSpecifiedValue?)
    requires store.Valid() && Holds(store.specified, v)
    modifies store, store.cache.Values, store.specified.Values
    ensures store.Valid() && name !in store.qualifiers
    ensures r == v ==> (r.qualifiers == None <==> name in old(store.cache) || old(v.qualifiers) == None)
  {
    var status := store.ClearAppOptionQualifiers(name);
    r := AccessWithoutQualifiers(store, v, name, k);
  }

  method AccessWithoutQualifiers(store: CAppOptions, v: CSpecifiedValue, name: string, k: Kind) returns (r: CSpecifiedValue?)
    requires store.Valid() && Holds(store.specified, v) && name !in store.qualifiers
    modifies store`cache, store`kinds, store`disciplined, store.specified.Values
    ensures store.Valid() && name !in store.qualifiers
    ensures v.qualifiers == old(v.qualifiers) && (name in old(store.cache) ==> r == old(store.cache)[name])
  {
    var status;
    status, r := store.PopulateSpecifiedValueForOption(name, k);
  }

  /** A store with one value, accessed once under its own name and type. */
  method AccessedStore(convert: Conversion) returns (store: CAppOptions, v: CSpecifiedValue)
    requires WellTyped(convert)
    ensures fresh(store) && fresh(v) && store.Valid() && store.convert == convert
    ensures v.nativeName == "a" && v.nativeValue == BoolValue(true) && v.cachedValue == BoolValue(true)
    ensures store.specified == map["a" := v] && store.cache == map["a" := v] && store.kinds == map["a" := Bool]
  {
    store := new CAppOptions(convert, Policy(_ => "a", _ => Bool));
    v := new CSpecifiedValue("a", BoolValue(true));
    var status := store.AddSpecifiedValue(v);
    var r: CSpecifiedValue?;
    status, r := store.PopulateSpecifiedValueForOption("a", Bool);
    assert Candidate(convert, store.specified, v, "a", Bool);
  }

  /** Cleared while their value is out of the cache, the qualifiers stay on the value. */
  method ClearedOutOfCache(convert: Conversion, q: Qualifiers) returns (store: CAppOptions, v: CSpecifiedValue)
    requires WellTyped(convert)
    ensures fresh(store) && fresh(v) && store.Valid() && store.convert == convert
    ensures v.nativeName == "a" && v.nativeValue == BoolValue(true) && v.qualifiers == Some(q)
    ensures store.specified == map["a" := v] && store.cache == map[] && "a" !in store.qualifiers
  {
    store, v := AccessedStore(convert);
    var status := store.SetAppOptionQualifiers("a", Some(q));
    status := store.ClearPrePopulatedSpecifiedValueForOption("a");
    status := store.ClearAppOptionQualifiers("a");
  }

  /** And the next access brings them back although none are stored. */
  method ClearedQualifiersReappear(convert: Conversion, q: Qualifiers) returns (store: CAppOptions, r: CSpecifiedValue?)
    requires WellTyped(convert)
    ensures fresh(store) && store.Valid() && "a" !in store.qualifiers
    ensures r != null && "a" in store.cache && store.cache["a"] == r && r.qualifiers == Some(q)
  {
    var v: CSpecifiedValue;
    var status;
    store, v := ClearedOutOfCache(convert, q);
    status, r := store.PopulateSpecifiedValueForOption("a", Bool);
    assert Candidate(convert, store.specified, v, "a", Bool);
  }

  // ---------- The typed slot ----------

  /**
    The inline read of the value that an access returns throws exactly if the name was cached and the
    cached value's slot held another type, whatever that came from.
  */
  method AccessThenRead(store: CAppOptions, name: string, k: Kind) returns (r: CSpecifiedValue?, read: Option<Value>)
    requires store.Valid()
    modifies store`cache, store`kinds, store`disciplined, store.specified.Values
    ensures store.Valid() && (name in old(store.cache) ==> r == old(store.cache)[name])
    ensures r != null ==> (read == None <==>
      old(name in store.cache && store.cache[name] != null && KindOf(store.cache[name].cachedValue) != Some(k)))
  {
    read := None;
    var status;
    status, r := store.PopulateSpecifiedValueForOption(name, k);
    if r != null {
      assert Holds(store.specified, r);
      read := r.GetCachedValueInline(k);
    }
  }

  /** One spelling asked for as two types: the second read throws although the value converts to both. */
  method SecondTypeThrows(convert: Conversion) returns (store: CAppOptions, r: CSpecifiedValue?, read: Option<Value>)
    requires WellTyped(convert) && convert(BoolValue(true), Text) == Some(TextValue("1"))
    ensures fresh(store) && store.Valid() && r != null && As(convert, r.nativeValue, Text).Some? && read == None
  {
    var v: CSpecifiedValue;
    store, v := AccessedStore(convert);
    r, read := AccessThenRead(store, "a", Text);
  }

  /**
    An access makes the inline read of a value cached for another name throw exactly if it is a first
    access, the names match, the value converts, and the type is another one.
  */
  method AccessThenReadOther(store: CAppOptions, first: string, kind: Kind, other: string, k: Kind) returns (read: Option<Value>)
    requires store.Valid() && first in store.cache && store.cache[first] != null && kind == store.kinds[first]
    requires KindOf(store.cache[first].cachedValue) == Some(kind)
    modifies store`cache, store`kinds, store`disciplined, store.specified.Values
    ensures store.Valid() && first in store.cache && store.cache[first] == old(store.cache[first]) && store.kinds[first] == kind
    ensures read == None <==>
      k != kind && other !in old(store.cache) && Matches(first, other) && As(store.convert, store.cache[first].nativeValue, k).Some?
  {
    var v := store.cache[first];
    assert EntryCoherent(store.convert, store.specified, v, first, kind);
    var status, r := store.PopulateSpecifiedValueForOption(other, k);
    assert Holds(store.specified, v);
    read := v.GetCachedValueInline(kind);
  }

  lemma TwoSpellings()
    ensures Matches("a", "A")
  {
    CaseIsIgnored("a", "A");
  }

  /**
    Two spellings of one name share the value's only typed slot: an access to the second as another
    type makes the inline read of the first throw. Hence the policy.
  */
  method SecondSpellingTakesTheSlot(convert: Conversion) returns (store: CAppOptions, r: CSpecifiedValue?, read: Option<Value>)
    requires WellTyped(convert) && convert(BoolValue(true), Text) == Some(TextValue("1"))
    ensures fresh(store) && store.Valid() && r != null && "a" in store.cache && store.cache["a"] == r
    ensures store.kinds["a"] == Bool && read == None
  {
    store, r := AccessedStore(convert);
    TwoSpellings();
    read := AccessThenReadOther(store, "a", Bool, "A", Text);
  }
}
