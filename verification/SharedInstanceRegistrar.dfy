/**
  The registrar of vlr-util/SharedInstanceRegistrar.h and vlr-util/SharedInstanceRegistrar.cpp.
  Releasing an instance may run its destructor, which may call the registrar again.
*/
module SharedInstanceRegistrar {
  import opened InstanceCollections
  import opened Wrappers

  datatype Status = Success | SuccessWithNuance | Failure | InvalidArgument

  class CSharedInstanceRegistrar {
    var instances: map<string, Instance>
    var ordered: seq<Entry>

    // The entries of the map, in some order.
    ghost var entries: seq<Entry>

    // The instances that the ordered collection has given up so far, in order.
    ghost var released: seq<Instance>

    // How often some instance, any instance, has taken a place in the ordered collection, and how often
    // calls in progress have taken it off but not released it yet.
    ghost const watched: Instance
    ghost var registered: nat
    ghost var inHand: nat

    ghost predicate Valid()
      reads this
    {
      Lists(instances, entries) && Conserved()
    }

    /** Every registration is either still there or has been released, once. */
    ghost predicate Conserved()
      reads this`registered, this`released, this`ordered, this`inHand
    {
      registered == Times(released, watched) + Places(ordered, watched) + inHand
    }

    /** The two collections agree, and every instance is registered under its own name. */
    ghost predicate IsTidy()
      reads this`instances, this`ordered
    {
      Tidy(instances, ordered)
    }

    /** The two collections hold the same names, each once, with the same instances. */
    ghost predicate InAgreement()
      reads this`instances, this`ordered
    {
      Lists(instances, ordered)
    }

    /** No destructor has anything to do. */
    ghost predicate IsQuiet()
      reads this`entries, this`ordered
    {
      All(entries, QuietEntry()) && All(ordered, QuietEntry())
    }

    /** No destructor leads to a registration of the watched instance. */
    ghost predicate SparesWatched()
      reads this`entries, this`ordered
    {
      All(entries, Sparing(watched)) && All(ordered, Sparing(watched))
    }

    /** Bounds what destructors can still do. */
    ghost function Load(): nat
      reads this`entries, this`ordered
    {
      Sum(entries, Weight) + Sum(ordered, Weight)
    }

    ghost function Snapshot(): (map<string, Instance>, seq<Entry>, seq<Entry>, seq<Instance>, nat, nat)
      reads this
    {
      (instances, ordered, entries, released, registered, inHand)
    }

    constructor (ghost w: Instance)
      ensures Valid() && IsTidy() && instances == map[] && ordered == [] && released == []
      ensures registered == 0 && inHand == 0 && watched == w
    {
      instances, ordered, entries, released, registered, inHand, watched := map[], [], [], [], 0, 0, w;
    }

    /** Finds or makes the instance of a name; one of the wrong type is left alone. */
    method PopulateSharedInstance(name: string, type_: string, made: Instance) returns (status: Status, result: Option<Instance>)
      requires Valid()
      modifies this`instances, this`ordered, this`entries, this`registered
      ensures Valid()
      ensures name in old(instances) ==>
        && Snapshot() == old(Snapshot())
        && if type_ in instances[name].types then status == Success && result == Some(instances[name]) else status == Failure && result == None
      ensures name !in old(instances) ==>
        && status == Success && result == Some(made)
        && instances == old(instances)[name := made] && ordered == old(ordered) + [Entry(name, made)]
        && registered == old(registered) + One(made, watched)
      ensures Load() <= old(Load()) + 2 * Weight(made)
      ensures old(InAgreement()) ==> InAgreement()
      ensures old(IsTidy()) && OwnNamed(Entry(name, made)) ==> IsTidy()
      ensures old(SparesWatched()) && InstanceSpares(Some(made), watched) ==> SparesWatched()
    {
      if name in instances {
        if type_ !in instances[name].types {
          return Failure, None;
        }
        return Success, Some(instances[name]);
      }
      AppendedLast(instances, ordered, Entry(name, made));
      if SparesWatched() && InstanceSpares(Some(made), watched) {
        SparingPlaced(ordered, Entry(name, made), watched);
        SparingPlaced(entries, Entry(name, made), watched);
      }
      RegisterLast(name, made);
      return Success, Some(made);
    }

    method RegisterLast(name: string, made: Instance)
      requires Valid() && name !in instances
      modifies this`instances, this`ordered, this`entries, this`registered
      ensures Valid()
      ensures instances == old(instances)[name := made] && ordered == old(ordered) + [Entry(name, made)]
      ensures entries == Placed(old(entries), Entry(name, made))
      ensures registered == old(registered) + One(made, watched)
      ensures Load() == old(Load()) + 2 * Weight(made)
    {
      var e := Entry(name, made);
      AppendAccounts(ordered, e, watched);
      MapPlaced(instances, entries, e);
      instances := instances[name := made];
      entries := Placed(entries, e);
      ordered := ordered + [e];
      registered := registered + One(made, watched);
    }

    method CheckSharedInstanceCached(name: string) returns (status: Status, result: Option<Instance>)
      requires Valid()
      ensures status == if result.Some? then Success else SuccessWithNuance
      ensures result == Lookup(instances, name)
      ensures InAgreement() ==> result == Taken(ordered, name)
    {
      if InAgreement() {
        ListsIff(instances, ordered);
        LookupIsTaken(instances, ordered, name);
      }
      if name !in instances {
        return SuccessWithNuance, None;
      }
      return Success, Some(instances[name]);
    }

    method GetSharedInstanceCount() returns (count: nat)
      requires Valid()
      ensures count == |instances|
      ensures InAgreement() ==> count == |ordered|
    {
      if InAgreement() {
        ListsIff(instances, ordered);
        AgreeCount(instances, ordered);
      }
      count := |instances|;
    }

    method EnsureSharedInstanceInOrderedCollection(name: string, i: Instance) returns (replaced: Option<Instance>)
      modifies this`ordered
      ensures ordered == Placed(old(ordered), Entry(name, i))
      ensures replaced == Replaced(old(ordered), name, i)
    {
      for k := 0 to |ordered|
        invariant ordered == old(ordered)
        invariant forall j :: 0 <= j < k ==> ordered[j].name != name
      {
        if ordered[k].name == name {
          assert k == IndexOf(ordered, name);
          if ordered[k].inst == i {
            assert ordered[k := Entry(name, i)] == ordered;
            return None;
          }
          replaced := Some(ordered[k].inst);
          ordered := ordered[k := Entry(name, i)];
          return;
        }
      }
      ordered := ordered + [Entry(name, i)];
      replaced := None;
    }

    method RemoveSharedInstanceFromOrderedCollection(name: string) returns (status: Status, removing: Option<Instance>)
      modifies this`ordered
      ensures ordered == Removed(old(ordered), name) && removing == Taken(old(ordered), name)
      ensures status == if removing.Some? then Success else SuccessWithNuance
    {
      for k := 0 to |ordered|
        invariant ordered == old(ordered)
        invariant forall j :: 0 <= j < k ==> ordered[j].name != name
      {
        if ordered[k].name == name {
          assert k == IndexOf(ordered, name);
          removing := Some(ordered[k].inst);
          ordered := ordered[..k] + ordered[k + 1..];
          return Success, removing;
        }
      }
      return SuccessWithNuance, None;
    }

    // ---------- Letting go ----------

    /**
      Some owner of the instance, the registrar or another, lets go of it. If no collection refers to it
      its destructor may run; whether owners elsewhere prevent that is left open.
    */
    method LetGo(i: Instance)
      requires Valid()
      modifies this
      ensures Valid() && inHand == old(inHand) && old(released) <= released && old(registered) <= registered
      ensures Load() <= old(Load()) + PlanWeight(i.onDestroy)
      ensures (Quiet(Some(i)) || old(Referenced(instances, ordered, i))) ==> Snapshot() == old(Snapshot())
      ensures i.onDestroy != Nothing && i.onDestroy.rest == Nothing ==>
        Snapshot() == old(Snapshot()) || AsAsked(i.onDestroy, old(instances), old(ordered), instances, ordered)
      ensures old(IsTidy()) && PlanNamed(i.onDestroy) ==> IsTidy()
      ensures old(SparesWatched()) && InstanceSpares(Some(i), watched) ==> SparesWatched() && registered == old(registered)
      decreases Load() + PlanWeight(i.onDestroy), 2
    {
      var last: bool := *;
      if last && !Referenced(instances, ordered, i) {
        Run(i.onDestroy);
      }
    }

    /** What a destructor does, call after call. */
    method Run(p: Plan)
      requires Valid()
      modifies this
      ensures Valid() && inHand == old(inHand) && old(released) <= released && old(registered) <= registered
      ensures Load() <= old(Load()) + PlanWeight(p)
      ensures p == Nothing ==> Snapshot() == old(Snapshot())
      ensures p != Nothing && p.rest == Nothing ==> AsAsked(p, old(instances), old(ordered), instances, ordered)
      ensures old(IsTidy()) && PlanNamed(p) ==> IsTidy()
      ensures old(SparesWatched()) && PlanSpares(p, watched) ==> SparesWatched() && registered == old(registered)
      decreases Load() + PlanWeight(p), 1
    {
      if p != Nothing {
        RunFirst(p);
        Run(p.rest);
      }
    }

    method RunFirst(p: Plan)
      requires Valid() && p != Nothing
      modifies this
      ensures Valid() && inHand == old(inHand) && old(released) <= released && old(registered) <= registered
      ensures Load() + PlanWeight(p.rest) < old(Load()) + PlanWeight(p)
      ensures AsAsked(p, old(instances), old(ordered), instances, ordered)
      ensures old(IsTidy()) && PlanNamed(p) ==> IsTidy()
      ensures old(SparesWatched()) && PlanSpares(p, watched) ==> SparesWatched() && registered == old(registered)
      decreases Load() + PlanWeight(p), 0
    {
      var status: Status;
      match p
      case PopulateThen(name, type_, made, _) =>
        var result: Option<Instance>;
        status, result := PopulateSharedInstance(name, type_, made);
      case SetThen(name, i, _) =>
        JustSet(instances, Placed(ordered, Entry(name, i)), name, i);
        status := SetSharedInstance(name, Some(i));
        LetGo(i);
      case ClearThen(name, _) =>
        status := ClearSharedInstance(name);
      case ClearAllThen(_) =>
        status := ClearAllSharedInstances();
    }

    /** Releases an instance that has been taken off the ordered collection. */
    method Release(i: Instance)
      requires Valid() && inHand >= One(i, watched)
      modifies this
      ensures Valid() && inHand == old(inHand) - One(i, watched)
      ensures old(released) + [i] <= released && old(registered) <= registered
      ensures Load() <= old(Load()) + PlanWeight(i.onDestroy)
      ensures (Quiet(Some(i)) || old(Referenced(instances, ordered, i))) ==>
        && instances == old(instances) && ordered == old(ordered) && entries == old(entries)
        && released == old(released) + [i] && registered == old(registered)
      ensures old(IsTidy()) && PlanNamed(i.onDestroy) ==> IsTidy()
      ensures old(SparesWatched()) && InstanceSpares(Some(i), watched) ==> SparesWatched() && registered == old(registered)
      decreases Load() + PlanWeight(i.onDestroy), 3
    {
      TimesNext(released, i, watched);
      released := released + [i];
      inHand := inHand - One(i, watched);
      LetGo(i);
    }

    // ---------- Registering and clearing ----------

    method SetSharedInstance(name: string, i: Option<Instance>) returns (status: Status)
      requires Valid()
      modifies this
      ensures Valid() && inHand == old(inHand) && old(released) <= released && old(registered) <= registered
      ensures i.None? ==> status == InvalidArgument && Snapshot() == old(Snapshot())
      ensures i.Some? ==> status == Success && Load() <= old(Load()) + 2 * Weight(i.value)
      ensures i.Some? && (Lookup(old(instances), name) == i || old(LeavesMapCalmly(instances, ordered, name))) ==>
        && old(released) + ListOf(Replaced(old(ordered), name, i.value)) <= released
        && old(registered) + Newcomers(old(ordered), Entry(name, i.value), watched) <= registered
      ensures i.Some? && (Lookup(old(instances), name) == i || old(LeavesMapCalmly(instances, ordered, name))) && Quiet(Replaced(old(ordered), name, i.value)) ==>
        && instances == old(instances)[name := i.value]
        && ordered == Placed(old(ordered), Entry(name, i.value))
        && released == old(released) + ListOf(Replaced(old(ordered), name, i.value))
        && registered == old(registered) + Newcomers(old(ordered), Entry(name, i.value), watched)
      ensures i.Some? && old(IsTidy()) && OwnNamed(Entry(name, i.value)) ==> IsTidy()
      ensures i.Some? && old(SparesWatched()) && InstanceSpares(i, watched) ==>
        SparesWatched() && registered <= old(registered) + One(i.value, watched)
      decreases Load() + if i.Some? then 2 * Weight(i.value) else 0, 1
    {
      if i.None? {
        return InvalidArgument;
      }
      if IsTidy() && OwnNamed(Entry(name, i.value)) {
        TidyPlaced(instances, ordered, Entry(name, i.value));
      }
      AssignInMap(name, i.value);
      PlaceInOrder(name, i.value);
      status := Success;
    }

    /** The name's entry in the map is assigned, which lets go of the instance that was there. */
    method AssignInMap(name: string, i: Instance)
      requires Valid()
      modifies this
      ensures Valid() && inHand == old(inHand) && old(released) <= released && old(registered) <= registered
      ensures Load() <= old(Load()) + Weight(i)
      ensures Lookup(old(instances), name) == Some(i) || old(LeavesMapCalmly(instances, ordered, name)) ==>
        && instances == old(instances)[name := i] && ordered == old(ordered)
        && released == old(released) && registered == old(registered)
      ensures old(SparesWatched()) && InstanceSpares(Some(i), watched) ==> SparesWatched() && registered == old(registered)
      decreases Load() + Weight(i), 0
    {
      var before := Lookup(instances, name);
      if SparesWatched() {
        SparingInMap(instances, entries, name, watched);
        SparingPlaced(entries, Entry(name, i), watched);
      }
      MapPlaced(instances, entries, Entry(name, i));
      instances := instances[name := i];
      entries := Placed(entries, Entry(name, i));
      if before.Some? {
        assert instances[name] in instances.Values;
        assert before.value == i ==> Referenced(instances, ordered, before.value);
        assert old(LeavesMapCalmly(instances, ordered, name)) ==> Quiet(before) || Referenced(instances, ordered, before.value);
        LetGo(before.value);
      }
    }

    /** The name's entry in the ordered collection is replaced or added, and a replaced instance released. */
    method PlaceInOrder(name: string, i: Instance)
      requires Valid()
      modifies this
      ensures Valid() && inHand == old(inHand)
      ensures Load() <= old(Load()) + Weight(i)
      ensures old(released) + ListOf(Replaced(old(ordered), name, i)) <= released
      ensures old(registered) + Newcomers(old(ordered), Entry(name, i), watched) <= registered
      ensures Quiet(Replaced(old(ordered), name, i)) ==>
        && instances == old(instances) && ordered == Placed(old(ordered), Entry(name, i))
        && released == old(released) + ListOf(Replaced(old(ordered), name, i))
        && registered == old(registered) + Newcomers(old(ordered), Entry(name, i), watched)
      ensures old(Tidy(instances, Placed(ordered, Entry(name, i))) && CallsNamed(Taken(ordered, name))) ==> IsTidy()
      ensures old(SparesWatched()) && InstanceSpares(Some(i), watched) ==>
        SparesWatched() && registered == old(registered) + Newcomers(old(ordered), Entry(name, i), watched)
      decreases Load() + Weight(i), 0
    {
      if SparesWatched() {
        SparingPlaced(ordered, Entry(name, i), watched);
      }
      var replaced := PutInOrder(name, i);
      if replaced.Some? {
        Release(replaced.value);
      }
    }

    /** The part of it that comes before the release. */
    method PutInOrder(name: string, i: Instance) returns (replaced: Option<Instance>)
      requires Valid()
      modifies this`ordered, this`registered, this`inHand
      ensures Valid() && inHand == old(inHand) + Of(replaced, Counts(watched))
      ensures replaced == Replaced(old(ordered), name, i) && ordered == Placed(old(ordered), Entry(name, i))
      ensures registered == old(registered) + Newcomers(old(ordered), Entry(name, i), watched)
      ensures Load() + Of(replaced, Weight) <= old(Load()) + Weight(i)
    {
      PlacedAccounts(ordered, Entry(name, i), watched);
      ghost var more := Newcomers(ordered, Entry(name, i), watched);
      replaced := EnsureSharedInstanceInOrderedCollection(name, i);
      registered := registered + more;
      inHand := inHand + Of(replaced, Counts(watched));
    }

    method ClearSharedInstance(name: string) returns (status: Status)
      requires Valid()
      modifies this
      ensures Valid() && inHand == old(inHand) && old(released) <= released && old(registered) <= registered && status == Success
      ensures Load() <= old(Load())
      ensures old(LeavesMapCalmly(instances, ordered, name)) ==> old(released) + ListOf(Taken(old(ordered), name)) <= released
      ensures old(LeavesMapCalmly(instances, ordered, name)) && Quiet(Taken(old(ordered), name)) ==>
        && instances == old(instances) - {name} && ordered == Removed(old(ordered), name)
        && released == old(released) + ListOf(Taken(old(ordered), name)) && registered == old(registered)
      ensures old(IsTidy()) ==> IsTidy()
      ensures old(SparesWatched()) ==> SparesWatched() && registered == old(registered)
      decreases Load(), 1
    {
      if IsTidy() {
        TidyRemoved(instances, ordered, name);
      }
      EraseFromMap(name);
      TakeOff(name);
      status := Success;
    }

    method EraseFromMap(name: string)
      requires Valid()
      modifies this
      ensures Valid() && inHand == old(inHand) && old(released) <= released && old(registered) <= registered
      ensures Load() <= old(Load())
      ensures old(LeavesMapCalmly(instances, ordered, name)) ==>
        && instances == old(instances) - {name} && ordered == old(ordered)
        && released == old(released) && registered == old(registered)
      ensures old(SparesWatched()) ==> SparesWatched() && registered == old(registered)
      decreases Load(), 0
    {
      var before := Lookup(instances, name);
      if SparesWatched() {
        SparingInMap(instances, entries, name, watched);
      }
      MapRemoved(instances, entries, name);
      instances := instances - {name};
      entries := Removed(entries, name);
      if before.Some? {
        LetGo(before.value);
      }
    }

    /** The name's entry leaves the ordered collection, and its instance is released. */
    method TakeOff(name: string)
      requires Valid()
      modifies this
      ensures Valid() && inHand == old(inHand) && old(registered) <= registered
      ensures Load() <= old(Load())
      ensures old(released) + ListOf(Taken(old(ordered), name)) <= released
      ensures Quiet(Taken(old(ordered), name)) ==>
        && instances == old(instances) && ordered == Removed(old(ordered), name)
        && released == old(released) + ListOf(Taken(old(ordered), name)) && registered == old(registered)
      ensures old(Tidy(instances, Removed(ordered, name)) && CallsNamed(Taken(ordered, name))) ==> IsTidy()
      ensures old(SparesWatched()) ==> SparesWatched() && registered == old(registered)
      decreases Load(), 0
    {
      if SparesWatched() {
        SparingRemoved(ordered, name, watched);
      }
      var removing := TakeInHand(name);
      if removing.Some? {
        Release(removing.value);
      }
    }

    /** The part of it that comes before the release. */
    method TakeInHand(name: string) returns (removing: Option<Instance>)
      requires Valid()
      modifies this`ordered, this`inHand
      ensures Valid() && inHand == old(inHand) + Of(removing, Counts(watched))
      ensures removing == Taken(old(ordered), name) && ordered == Removed(old(ordered), name)
      ensures Load() + Of(removing, Weight) == old(Load())
    {
      RemovedAccounts(ordered, name, watched);
      var status;
      status, removing := RemoveSharedInstanceFromOrderedCollection(name);
      inHand := inHand + Of(removing, Counts(watched));
    }

    // ---------- Clearing everything ----------

    /** Takes the newest instance off, again and again, until none is left. */
    method ClearAllSharedInstances() returns (status: Status)
      requires Valid()
      modifies this
      ensures Valid() && inHand == old(inHand) && old(released) <= released && old(registered) <= registered
      ensures status == Success && ordered == [] && Load() <= old(Load())
      // every instance has been released as often as it was ever registered, now once for each of its places
      // if no destructor leads to a registration of it
      ensures Times(released, watched) + inHand == registered
      ensures old(SparesWatched()) ==> SparesWatched() && registered == old(registered)
      ensures old(SparesWatched()) ==> Times(released, watched) == old(Times(released, watched) + Places(ordered, watched))
      ensures old(IsTidy()) ==> IsTidy() && instances == map[]
      ensures old(IsQuiet()) ==>
        && released == old(released) + NewestFirst(old(ordered)) && registered == old(registered)
        && instances == old(instances) - OwnNames(old(ordered))
      ensures old(IsQuiet() && InAgreement()) ==>
        (instances == map[] <==> old(Names(ordered) <= OwnNames(ordered)))
      decreases Load(), 2
    {
      if InAgreement() {
        ListsIff(instances, ordered);
        ClearsAllIff(instances, ordered);
      }
      while ordered != []
        invariant Valid() && inHand == old(inHand) && old(released) <= released && old(registered) <= registered
        invariant Load() <= old(Load())
        invariant old(IsTidy()) ==> IsTidy()
        invariant old(SparesWatched()) ==> SparesWatched() && registered == old(registered)
        invariant old(IsQuiet()) ==>
          && IsQuiet() && registered == old(registered)
          && Rest(instances, ordered, released) == old(Rest(instances, ordered, released))
        decreases Load()
      {
        ClearNewest();
      }
      status := Success;
    }

    /** One round of clearing everything, and what it leaves to do. */
    method ClearNewest()
      requires Valid() && ordered != []
      modifies this
      ensures Valid() && inHand == old(inHand) && old(released) <= released && old(registered) <= registered
      ensures Load() < old(Load())
      ensures old(IsTidy()) ==> IsTidy()
      ensures old(SparesWatched()) ==> SparesWatched() && registered == old(registered)
      ensures old(IsQuiet()) ==>
        && IsQuiet() && registered == old(registered)
        && Rest(instances, ordered, released) == old(Rest(instances, ordered, released))
      decreases Load(), 1
    {
      RestStep(instances, ordered, released);
      if IsQuiet() {
        QuietStep(instances, entries, ordered);
        AllLast(ordered, QuietEntry());
        AllRemoved(entries, ordered[|ordered| - 1].inst.name, QuietEntry());
      }
      TakeNewest();
    }

    method TakeNewest()
      requires Valid() && ordered != []
      modifies this
      ensures Valid() && inHand == old(inHand) && old(released) <= released && old(registered) <= registered
      ensures Load() < old(Load())
      ensures var removing := old(ordered[|ordered| - 1].inst);
        Quiet(Some(removing)) && Quiet(Lookup(old(instances), removing.name)) ==>
          && ordered == old(ordered[..|ordered| - 1]) && instances == old(instances) - {removing.name}
          && entries == Removed(old(entries), removing.name)
          && released == old(released) + [removing] && registered == old(registered)
      ensures old(IsTidy()) ==> IsTidy() && old(released) + [old(ordered[|ordered| - 1].inst)] <= released
      ensures old(SparesWatched()) ==> SparesWatched() && registered == old(registered)
      decreases Load(), 0
    {
      var removing, alias := PopKeeping();
      LetGoUnlessSame(alias, removing);
      Release(removing);
    }

    /** The map lets go of what was under the name, unless that is the instance still in hand. */
    method LetGoUnlessSame(alias: Option<Instance>, removing: Instance)
      requires Valid()
      modifies this
      ensures Valid() && inHand == old(inHand) && old(released) <= released && old(registered) <= registered
      ensures Load() <= old(Load()) + if alias.Some? then PlanWeight(alias.value.onDestroy) else 0
      ensures Quiet(alias) || alias == Some(removing) ==> Snapshot() == old(Snapshot())
      ensures old(SparesWatched()) && InstanceSpares(alias, watched) ==> SparesWatched() && registered == old(registered)
      decreases Load() + if alias.Some? then PlanWeight(alias.value.onDestroy) else 0, 3
    {
      if alias.Some? && alias.value != removing {
        LetGo(alias.value);
      }
    }

    /** The same, with what is known of the instances that leave. */
    method PopKeeping() returns (removing: Instance, alias: Option<Instance>)
      requires Valid() && ordered != []
      modifies this`instances, this`ordered, this`entries, this`inHand
      ensures Valid() && inHand == old(inHand) + One(removing, watched)
      ensures removing == old(ordered[|ordered| - 1].inst) && alias == Lookup(old(instances), removing.name)
      ensures ordered == old(ordered[..|ordered| - 1]) && instances == old(instances) - {removing.name}
      ensures entries == Removed(old(entries), removing.name)
      ensures Load() + Weight(removing) + Of(alias, Weight) == old(Load())
      ensures old(IsTidy()) ==> IsTidy() && alias == Some(removing) && PlanNamed(removing.onDestroy)
      ensures old(SparesWatched()) ==> SparesWatched() && InstanceSpares(alias, watched) && InstanceSpares(Some(removing), watched)
    {
      if IsTidy() {
        TidyLast(instances, ordered);
      }
      if SparesWatched() {
        SparingInMap(instances, entries, ordered[|ordered| - 1].inst.name, watched);
        AllLast(ordered, Sparing(watched));
      }
      removing, alias := PopNewest();
    }

    /** The newest instance leaves the ordered collection, and whatever is under its own name leaves the map. */
    method PopNewest() returns (removing: Instance, alias: Option<Instance>)
      requires Valid() && ordered != []
      modifies this`instances, this`ordered, this`entries, this`inHand
      ensures Valid() && inHand == old(inHand) + One(removing, watched)
      ensures removing == old(ordered[|ordered| - 1].inst) && alias == Lookup(old(instances), removing.name)
      ensures ordered == old(ordered[..|ordered| - 1]) && instances == old(instances) - {removing.name}
      ensures entries == Removed(old(entries), removing.name)
      ensures Load() + Weight(removing) + Of(alias, Weight) == old(Load())
    {
      removing := ordered[|ordered| - 1].inst;
      alias := Lookup(instances, removing.name);
      LastAccounts(ordered, watched);
      MapRemoved(instances, entries, removing.name);
      inHand := inHand + One(removing, watched);
      ordered := ordered[..|ordered| - 1];
      instances := instances - {removing.name};
      entries := Removed(entries, removing.name);
    }
  }
}
