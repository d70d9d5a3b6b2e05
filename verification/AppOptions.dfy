/**
  The option store of vlr-util/AppOptions.h and vlr-util/AppOptions.cpp: the specified values by
  native name, and a cache by accessed name that holds negative results too and is invalidated by
  name match. Every public operation runs under one lock and is one method here, so what every
  method keeps holds after every interleaving of calls.
*/
module AppOptions {
  import opened OptionNames
  import opened SpecifiedValue
  import opened Wrappers

  datatype Status = Ok | False | Success | SuccessWithNuance | Unexpected

  /** A discipline for callers: one spelling and one type for each class of matching names. */
  datatype Policy = Policy(spelling: seq<string> -> string, kind: seq<string> -> Kind)

  ghost predicate Follows(p: Policy, name: string, k: Kind) {
    name == p.spelling(NameKey(name)) && k == p.kind(NameKey(name))
  }

  // ---------- Cache coherence, a relation between the maps alone ----------

  /** v is the value specified under its own name. */
  ghost predicate Holds(specified: map<string, CSpecifiedValue>, v: CSpecifiedValue) {
    v.nativeName in specified && specified[v.nativeName] == v
  }

  ghost predicate NamesAgree(specified: map<string, CSpecifiedValue>) {
    forall n :: n in specified ==> specified[n].nativeName == n
  }

  /** What a fresh scan for the name and type could choose. */
  ghost predicate Candidate(convert: Conversion, specified: map<string, CSpecifiedValue>,
      v: CSpecifiedValue, name: string, k: Kind)
  {
    Holds(specified, v) && Matches(v.nativeName, name) && As(convert, v.nativeValue, k).Some?
  }

  /** The slot of a specified value after a scan for the name and type: overwritten if it matches and converts. */
  function Scanned(convert: Conversion, nativeName: string, nativeValue: Value, slot: Value, name: string, k: Kind): Value {
    if Matches(nativeName, name) && As(convert, nativeValue, k).Some? then As(convert, nativeValue, k).value else slot
  }

  /** A cached entry is what a fresh scan could return, and null only if it would find nothing. */
  ghost predicate EntryCoherent(convert: Conversion, specified: map<string, CSpecifiedValue>,
      entry: CSpecifiedValue?, name: string, k: Kind)
  {
    if entry == null
    then forall n :: n in specified ==> !Candidate(convert, specified, specified[n], name, k)
    else Candidate(convert, specified, entry, name, k)
  }

  ghost predicate CacheCoherent(convert: Conversion, specified: map<string, CSpecifiedValue>,
      cache: map<string, CSpecifiedValue?>, kinds: map<string, Kind>)
  {
    && cache.Keys == kinds.Keys
    && (forall name :: name in cache ==> EntryCoherent(convert, specified, cache[name], name, kinds[name]))
  }

  /** The cache without the entries whose name matches. */
  ghost function Without<V>(m: map<string, V>, name: string): map<string, V> {
    map n | n in m && !Matches(name, n) :: m[n]
  }

  lemma ErasedNext<V>(m: map<string, V>, gone: set<string>, n: string)
    ensures m - gone - {n} == m - (gone + {n})
  {}

  /** Adding or replacing a value leaves the entries of other names coherent. */
  lemma CoherentAfterAdd(convert: Conversion, specified: map<string, CSpecifiedValue>,
      cache: map<string, CSpecifiedValue?>, kinds: map<string, Kind>, v: CSpecifiedValue)
    requires CacheCoherent(convert, specified, cache, kinds)
    ensures CacheCoherent(convert, specified[v.nativeName := v], Without(cache, v.nativeName), Without(kinds, v.nativeName))
  {}

  lemma CoherentAfterClear(convert: Conversion, specified: map<string, CSpecifiedValue>,
      cache: map<string, CSpecifiedValue?>, kinds: map<string, Kind>, gone: string)
    requires CacheCoherent(convert, specified, cache, kinds) && NamesAgree(specified)
    ensures CacheCoherent(convert, specified - {gone}, Without(cache, gone), Without(kinds, gone))
  {
    var after := specified - {gone};
    forall name | name in cache && !Matches(gone, name)
      ensures EntryCoherent(convert, after, cache[name], name, kinds[name])
    {
      assert EntryCoherent(convert, specified, cache[name], name, kinds[name]);
      if cache[name] == null {
        forall n | n in after ensures !Candidate(convert, after, after[n], name, kinds[name]) {
          assert !Candidate(convert, specified, specified[n], name, kinds[name]);
        }
      }
    }
  }

  /** A first access enters a coherent entry and leaves the others as they are. */
  lemma CoherentAfterEntry(convert: Conversion, specified: map<string, CSpecifiedValue>,
      cache: map<string, CSpecifiedValue?>, kinds: map<string, Kind>, entry: CSpecifiedValue?, name: string, k: Kind)
    requires CacheCoherent(convert, specified, cache, kinds) && EntryCoherent(convert, specified, entry, name, k)
    ensures CacheCoherent(convert, specified, cache[name := entry], kinds[name := k])
  {}

  /** The choice among the candidates found makes a coherent entry. */
  lemma CoherentChoice(convert: Conversion, specified: map<string, CSpecifiedValue>,
      found: seq<CSpecifiedValue>, name: string, k: Kind)
    requires NamesAgree(specified)
    requires forall v :: v in found <==> Candidate(convert, specified, v, name, k)
    ensures EntryCoherent(convert, specified, if |found| == 0 then null else found[0], name, k)
  {}

  // ---------- The store ----------

  class CAppOptions {
    const convert: Conversion
    var specified: map<string, CSpecifiedValue>
    var cache: map<string, CSpecifiedValue?>
    var qualifiers: map<string, Option<Qualifiers>>

    // The type of each cached name's first access; the callers' policy, and whether they kept to it.
    ghost var kinds: map<string, Kind>
    ghost const policy: Policy
    ghost var disciplined: bool

    ghost predicate Coherent()
      reads this`specified, this`cache, this`kinds
    {
      CacheCoherent(convert, specified, cache, kinds)
    }

    /** The cached value holds its conversion, and the qualifiers stored for the name if there are any. */
    ghost predicate TypedEntry(v: CSpecifiedValue, name: string)
      reads this`qualifiers, v
    {
      && Some(v.cachedValue) == As(convert, v.nativeValue, policy.kind(NameKey(name)))
      && (name in qualifiers ==> v.qualifiers == qualifiers[name])
    }

    ghost predicate Typed()
      reads this`cache, this`kinds, this`qualifiers, cache.Values
    {
      && cache.Keys == kinds.Keys
      && (forall name :: name in cache ==> Follows(policy, name, kinds[name]))
      && (forall name :: name in cache && cache[name] != null ==> TypedEntry(cache[name], name))
    }

    ghost predicate Valid()
      reads this, cache.Values
    {
      WellTyped(convert) && NamesAgree(specified) && Coherent() && (disciplined ==> Typed())
    }

    constructor (convert: Conversion, ghost policy: Policy)
      requires WellTyped(convert)
      ensures Valid() && disciplined && this.convert == convert && this.policy == policy
      ensures specified == map[] && cache == map[] && qualifiers == map[] && kinds == map[]
    {
      this.convert, this.policy := convert, policy;
      specified, cache, qualifiers := map[], map[], map[];
      kinds, disciplined := map[], true;
    }

    /** The values whose native name matches, in the arbitrary order of the hash table. */
    method PopulateCollection_NameMatch(name: string) returns (found: seq<CSpecifiedValue>)
      requires NamesAgree(specified)
      modifies specified.Values`normalizedName
      ensures forall v :: v in found <==> Holds(specified, v) && Matches(v.nativeName, name)
    {
      found := [];
      var todo := specified.Keys;
      while todo != {}
        invariant todo <= specified.Keys
        invariant forall v :: v in found <==>
          Holds(specified, v) && v.nativeName !in todo && Matches(v.nativeName, name)
        decreases |todo|
      {
        var n :| n in todo;
        todo := todo - {n};
        var match_ := specified[n].CheckForOptionMatch(name);
        if match_ {
          found := found + [specified[n]];
        }
      }
    }

    /** Caches the conversion in each of the values that convert, and returns those. */
    method CacheEach(matching: seq<CSpecifiedValue>, k: Kind) returns (found: seq<CSpecifiedValue>)
      modifies matching`cachedValue
      ensures forall v :: v in found <==> v in matching && As(convert, v.nativeValue, k).Some?
      ensures forall v :: v in matching && v in found ==> Some(v.cachedValue) == As(convert, v.nativeValue, k)
      ensures forall v :: v in matching && v !in found ==> v.cachedValue == old(v.cachedValue)
    {
      found := [];
      for i := 0 to |matching|
        invariant forall v :: v in found ==> v in matching && As(convert, v.nativeValue, k).Some?
        invariant forall j :: 0 <= j < i && As(convert, matching[j].nativeValue, k).Some? ==> matching[j] in found
        invariant forall v :: v in matching && v in found ==> Some(v.cachedValue) == As(convert, v.nativeValue, k)
        invariant forall v :: v in matching && v !in found ==> v.cachedValue == old(v.cachedValue)
      {
        var ok := matching[i].CacheOptionValueAs(convert, k);
        if ok {
          found := found + [matching[i]];
        }
      }
    }

    /** The matching values that convert to the type, which is cached in each of them and in no other. */
    method PopulateCollection(name: string, k: Kind) returns (found: seq<CSpecifiedValue>)
      requires NamesAgree(specified)
      modifies specified.Values`normalizedName, specified.Values`cachedValue
      ensures forall v :: v in found <==> Candidate(convert, specified, v, name, k)
      ensures forall v :: v in found ==> Some(v.cachedValue) == As(convert, v.nativeValue, k)
      ensures forall v :: Holds(specified, v) && v !in found ==> v.cachedValue == old(v.cachedValue)
    {
      var matching := PopulateCollection_NameMatch(name);
      forall v | v in matching ensures v in specified.Values {
        assert specified[v.nativeName] in specified.Values;
      }
      found := CacheEach(matching, k);
    }

    /** Under the policy a first access to one name never meets a value cached for another name. */
    lemma OthersUntouched(name: string, k: Kind, other: string)
      requires Coherent() && name !in cache && other in cache && cache[other] != null
      requires Follows(policy, name, k) && Follows(policy, other, kinds[other])
      ensures Holds(specified, cache[other]) && !Matches(cache[other].nativeName, name)
    {}

    method HandleOptionInitialAccess(name: string, k: Kind)
      requires Valid() && name !in cache
      modifies this`cache, this`kinds, this`disciplined, specified.Values
      ensures Valid()
      ensures name in cache && cache == old(cache)[name := cache[name]]
      ensures kinds == old(kinds)[name := k]
      ensures disciplined == (old(disciplined) && Follows(policy, name, k))
      ensures cache[name] != null ==> Some(cache[name].cachedValue) == As(convert, cache[name].nativeValue, k)
      ensures forall v :: Holds(specified, v) ==>
        v.cachedValue == Scanned(convert, v.nativeName, v.nativeValue, old(v.cachedValue), name, k)
      ensures forall v :: Holds(specified, v) && (v != cache[name] || name !in qualifiers) ==> v.qualifiers == old(v.qualifiers)
      ensures cache[name] != null && name in qualifiers ==> cache[name].qualifiers == qualifiers[name]
    {
      var found := ScanForOption(name, k);
      Install(name, k, found, disciplined && Follows(policy, name, k));
    }

    /** The scan of a first access writes the slots of the candidates; under the policy no cached value is one. */
    method ScanForOption(name: string, k: Kind) returns (found: seq<CSpecifiedValue>)
      requires Valid() && name !in cache
      modifies specified.Values`normalizedName, specified.Values`cachedValue
      ensures EntryCoherent(convert, specified, if |found| == 0 then null else found[0], name, k)
      ensures forall v :: v in found ==> v in specified.Values && Some(v.cachedValue) == As(convert, v.nativeValue, k)
      ensures forall v :: Holds(specified, v) ==>
        v.cachedValue == Scanned(convert, v.nativeName, v.nativeValue, old(v.cachedValue), name, k)
      ensures disciplined && Follows(policy, name, k) ==> Typed()
    {
      found := PopulateCollection(name, k);
      if disciplined && Follows(policy, name, k) {
        forall other | other in cache && cache[other] != null ensures TypedEntry(cache[other], other) {
          OthersUntouched(name, k, other);
        }
      }
      CoherentChoice(convert, specified, found, name, k);
      forall v | v in found ensures v in specified.Values {
        assert specified[v.nativeName] in specified.Values;
      }
    }

    /** Enters the first value found, if any, and hands it the qualifiers stored for the name. */
    method Install(name: string, k: Kind, found: seq<CSpecifiedValue>, ghost keeps: bool)
      requires WellTyped(convert) && NamesAgree(specified) && Coherent() && name !in cache
      requires EntryCoherent(convert, specified, if |found| == 0 then null else found[0], name, k)
      requires keeps ==> disciplined && Follows(policy, name, k) && Typed()
      requires |found| > 0 ==> Some(found[0].cachedValue) == As(convert, found[0].nativeValue, k)
      modifies this`cache, this`kinds, this`disciplined, found`qualifiers
      ensures Valid()
      ensures name in cache && cache == old(cache)[name := cache[name]]
      ensures kinds == old(kinds)[name := k] && disciplined == keeps
      ensures cache[name] == if |found| == 0 then null else found[0]
      ensures forall v :: Holds(specified, v) && (v != cache[name] || name !in qualifiers) ==> v.qualifiers == old(v.qualifiers)
      ensures cache[name] != null && name in qualifiers ==> cache[name].qualifiers == qualifiers[name]
    {
      ghost var entry := if |found| == 0 then null else found[0];
      CoherentAfterEntry(convert, specified, cache, kinds, entry, name, k);
      if keeps {
        forall other | other in cache && cache[other] != null ensures cache[other] != entry {
          OthersUntouched(name, k, other);
        }
      }
      kinds, disciplined := kinds[name := k], keeps;
      if |found| == 0 {
        cache := cache[name := null];
      } else {
        cache := cache[name := found[0]];
        if name in qualifiers {
          found[0].qualifiers := qualifiers[name];
        }
      }
      if keeps {
        forall other | other in cache && cache[other] != null ensures TypedEntry(cache[other], other) {
          assert other != name ==> old(TypedEntry(cache[other], other));
        }
      }
    }

    /** The value for an option, or null if none is specified; the status is the same for both. */
    method PopulateSpecifiedValueForOption(name: string, k: Kind) returns (status: Status, r: CSpecifiedValue?)
      requires Valid()
      modifies this`cache, this`kinds, this`disciplined, specified.Values
      ensures Valid() && status == Ok
      ensures name in cache && r == cache[name] && cache == old(cache)[name := r]
      ensures name in old(cache) ==> r == old(cache)[name]
      ensures kinds == if name in old(cache) then old(kinds) else old(kinds)[name := k]
      ensures disciplined == (old(disciplined) && (name in old(cache) || Follows(policy, name, k)))
      // null exactly when a fresh scan for the type of the first access finds nothing
      ensures r == null <==> forall n :: n in specified ==> !Candidate(convert, specified, specified[n], name, kinds[name])
      ensures r != null ==> Candidate(convert, specified, r, name, kinds[name])
      // on first access: the conversion is in the slot, and the qualifiers stored, if any, are attached
      ensures name !in old(cache) && r != null ==> Some(r.cachedValue) == As(convert, r.nativeValue, k)
      ensures name !in old(cache) && r != null && name in qualifiers ==> r.qualifiers == qualifiers[name]
      ensures forall v :: Holds(specified, v) && (name in old(cache) || v != r || name !in qualifiers) ==>
        v.qualifiers == old(v.qualifiers)
      // only a first access writes slots, and it does so in every value that matches and converts
      ensures forall v :: Holds(specified, v) ==>
        v.cachedValue == if name in old(cache) then old(v.cachedValue)
          else Scanned(convert, v.nativeName, v.nativeValue, old(v.cachedValue), name, k)
      // under the policy the inline read cannot throw, and the qualifiers are the stored ones
      ensures disciplined && Follows(policy, name, k) && r != null ==>
        && Some(r.cachedValue) == As(convert, r.nativeValue, k) && KindOf(r.cachedValue) == Some(k)
        && (name in qualifiers ==> r.qualifiers == qualifiers[name])
    {
      if name in cache {
        r := cache[name];
      } else {
        HandleOptionInitialAccess(name, k);
        r := cache[name];
      }
      status := Ok;
      assert EntryCoherent(convert, specified, r, name, kinds[name]);
      if disciplined && r != null {
        assert TypedEntry(r, name);
      }
    }

    /** The names of the cache entries that match, collected before any is erased. */
    method OptionNamesToRemove(specifiedName: string) returns (remove: set<string>)
      ensures remove == set n | n in cache && Matches(specifiedName, n)
    {
      remove := {};
      var todo := cache.Keys;
      while todo != {}
        invariant todo <= cache.Keys
        invariant remove == set n | n in cache.Keys - todo && Matches(specifiedName, n)
        decreases |todo|
      {
        var n :| n in todo;
        todo := todo - {n};
        var match_ := CheckOptionNameMatch(specifiedName, n);
        if match_ {
          remove := remove + {n};
        }
      }
    }

    method EraseEntries(names: set<string>)
      modifies this`cache, this`kinds
      ensures cache == old(cache) - names && kinds == old(kinds) - names
    {
      var todo := names;
      ghost var gone := {};
      while todo != {}
        invariant gone + todo == names
        invariant cache == old(cache) - gone && kinds == old(kinds) - gone
        decreases |todo|
      {
        var n :| n in todo;
        todo := todo - {n};
        cache := cache - {n};
        kinds := kinds - {n};
        ErasedNext(old(cache), gone, n);
        ErasedNext(old(kinds), gone, n);
        gone := gone + {n};
      }
    }

    method ClearAllPrePopulatedSpecifiedValuesOnValueAdd(specifiedName: string)
      requires cache.Keys == kinds.Keys
      modifies this`cache, this`kinds
      ensures cache == Without(old(cache), specifiedName) && kinds == Without(old(kinds), specifiedName)
      ensures forall n :: n in cache <==> n in old(cache) && !Matches(specifiedName, n)
      ensures forall n :: n in cache ==> n in kinds && cache[n] == old(cache)[n] && kinds[n] == old(kinds)[n]
    {
      var remove := OptionNamesToRemove(specifiedName);
      EraseEntries(remove);
    }

    method AddSpecifiedValue(v: CSpecifiedValue?) returns (status: Status)
      requires Valid()
      modifies this`specified, this`cache, this`kinds
      ensures Valid()
      ensures v == null ==> status == Unexpected && unchanged(this)
      ensures v != null ==>
        && status == (if v.nativeName in old(specified) then SuccessWithNuance else Success)
        && specified == old(specified)[v.nativeName := v]
        && cache == Without(old(cache), v.nativeName) && kinds == Without(old(kinds), v.nativeName)
      // exactly the entries of other names stay, as they are
      ensures v != null ==> forall n :: n in cache <==> n in old(cache) && !Matches(v.nativeName, n)
      ensures forall n :: n in cache ==> n in kinds && cache[n] == old(cache)[n] && kinds[n] == old(kinds)[n]
    {
      if v == null {
        return Unexpected;
      }
      CoherentAfterAdd(convert, specified, cache, kinds, v);
      var hadPrevious := v.nativeName in specified;
      specified := specified[v.nativeName := v];
      ClearAllPrePopulatedSpecifiedValuesOnValueAdd(v.nativeName);
      status := if hadPrevious then SuccessWithNuance else Success;
    }

    /** Identified by name; the cache is left alone when there was nothing to clear. */
    method ClearSpecifiedValue(v: CSpecifiedValue?) returns (status: Status)
      requires Valid()
      modifies this`specified, this`cache, this`kinds
      ensures Valid()
      ensures v == null ==> status == Unexpected && unchanged(this)
      ensures v != null && v.nativeName !in old(specified) ==> status == SuccessWithNuance && unchanged(this)
      ensures v != null && v.nativeName in old(specified) ==>
        && status == Success && specified == old(specified) - {v.nativeName}
        && cache == Without(old(cache), v.nativeName) && kinds == Without(old(kinds), v.nativeName)
      ensures v != null && v.nativeName in old(specified) ==> forall n :: n in cache <==> n in old(cache) && !Matches(v.nativeName, n)
      ensures forall n :: n in cache ==> n in kinds && cache[n] == old(cache)[n] && kinds[n] == old(kinds)[n]
    {
      if v == null {
        return Unexpected;
      }
      if v.nativeName !in specified {
        return SuccessWithNuance;
      }
      CoherentAfterClear(convert, specified, cache, kinds, v.nativeName);
      specified := specified - {v.nativeName};
      ClearAllPrePopulatedSpecifiedValuesOnValueAdd(v.nativeName);
      status := Success;
    }

    method ClearAllSpecifiedValues() returns (status: Status)
      requires Valid()
      modifies this`specified, this`cache, this`kinds
      ensures Valid() && status == Success && specified == map[] && cache == map[]
    {
      specified, cache, kinds := map[], map[], map[];
      status := Success;
    }

    method FindSpecifiedValueByName(name: string) returns (status: Status, r: CSpecifiedValue?)
      requires Valid()
      ensures status == (if name == "" then Unexpected else if name in specified then Ok else False)
      ensures r == if name != "" && name in specified then specified[name] else null
      ensures r != null ==> Holds(specified, r) && r.nativeName == name
      ensures status == False ==> forall v :: Holds(specified, v) ==> v.nativeName != name
    {
      if name == "" {
        return Unexpected, null;
      }
      if name !in specified {
        return False, null;
      }
      return Ok, specified[name];
    }

    /** All matching values, including those not yet accessed. */
    method FindSpecifiedValuesMatchingNormalizedName(name: string) returns (status: Status, found: seq<CSpecifiedValue>)
      requires Valid()
      modifies specified.Values`normalizedName
      ensures Valid() && status == Ok
      ensures forall v :: v in found <==> Holds(specified, v) && Matches(v.nativeName, name)
    {
      found := PopulateCollection_NameMatch(name);
      status := Ok;
    }

    /** Only what an earlier access has prepared. */
    method PopulatePrePreparedSpecifiedValueForOption(name: string) returns (status: Status, r: CSpecifiedValue?)
      requires Valid()
      ensures status == (if name in cache then Ok else False)
      ensures r == if name in cache then cache[name] else null
      // what was prepared is still what a fresh scan for the type of the first access could give
      ensures status == Ok ==> EntryCoherent(convert, specified, r, name, kinds[name])
      ensures disciplined && r != null ==>
        && KindOf(r.cachedValue) == Some(kinds[name]) && Some(r.cachedValue) == As(convert, r.nativeValue, kinds[name])
        && (name in qualifiers ==> r.qualifiers == qualifiers[name])
    {
      if name !in cache {
        return False, null;
      }
      assert EntryCoherent(convert, specified, cache[name], name, kinds[name]);
      if disciplined && cache[name] != null {
        assert TypedEntry(cache[name], name);
      }
      return Ok, cache[name];
    }

    method ClearPrePopulatedSpecifiedValueForOption(name: string) returns (status: Status)
      requires Valid()
      modifies this`cache, this`kinds
      ensures Valid() && status == Ok && cache == old(cache) - {name} && kinds == old(kinds) - {name}
    {
      cache := cache - {name};
      kinds := kinds - {name};
      status := Ok;
    }

    method SetAppOptionQualifiers(name: string, q: Option<Qualifiers>) returns (status: Status)
      requires Valid()
      modifies this`qualifiers, cache.Values`qualifiers
      ensures Valid() && status == Ok && qualifiers == old(qualifiers)[name := q]
      ensures name in cache && cache[name] != null ==> cache[name].qualifiers == q
      ensures forall v :: v in cache.Values && v != null && (name !in cache || v != cache[name]) ==>
        v.qualifiers == old(v.qualifiers)
    {
      qualifiers := qualifiers[name := q];
      if name in cache && cache[name] != null {
        NoSharing(name);
        cache[name].qualifiers := q;
      }
      if disciplined {
        forall other | other in cache && cache[other] != null ensures TypedEntry(cache[other], other) {
          assert old(TypedEntry(cache[other], other));
        }
      }
      status := Ok;
    }

    method ClearAppOptionQualifiers(name: string) returns (status: Status)
      requires Valid()
      modifies this`qualifiers, cache.Values`qualifiers
      ensures Valid() && status == Ok && qualifiers == old(qualifiers) - {name}
      ensures name in cache && cache[name] != null ==> cache[name].qualifiers == None
      ensures forall v :: v in cache.Values && v != null && (name !in cache || v != cache[name]) ==>
        v.qualifiers == old(v.qualifiers)
    {
      qualifiers := qualifiers - {name};
      if name in cache && cache[name] != null {
        NoSharing(name);
        cache[name].qualifiers := None;
      }
      if disciplined {
        forall other | other in cache && cache[other] != null ensures TypedEntry(cache[other], other) {
          assert old(TypedEntry(cache[other], other));
        }
      }
      status := Ok;
    }

    /** Under the policy no value is cached for two names. */
    lemma NoSharing(name: string)
      requires Coherent() && name in cache && cache[name] != null
      ensures (forall other :: other in cache ==> Follows(policy, other, kinds[other])) ==>
        forall other :: other in cache && other != name ==> cache[other] != cache[name]
    {}
  }
}
