/**
  The two collections of vlr-util/SharedInstanceRegistrar.h as values: a map from names to instances,
  and a vector of named instances in the order of their registration.
*/
module InstanceCollections {
  import opened Wrappers

  /**
    The id stands for the identity of the object, name is the name it reports for itself, types are
    the types it can be cast to and onDestroy is what its destructor asks of the registrar.
  */
  datatype Instance = Instance(id: nat, name: string, types: set<string>, onDestroy: Plan)

  datatype Plan =
    | Nothing
    | PopulateThen(name: string, type_: string, inst: Instance, rest: Plan)
    | SetThen(name: string, inst: Instance, rest: Plan)
    | ClearThen(name: string, rest: Plan)
    | ClearAllThen(rest: Plan)

  datatype Entry = Entry(name: string, inst: Instance)

  // ---------- The map against the ordered collection ----------

  /** The index of the name's entry, or the length if there is none. */
  function IndexOf(v: seq<Entry>, name: string): (k: nat)
    ensures k <= |v|
    ensures k < |v| ==> v[k].name == name
    ensures forall j :: 0 <= j < k ==> v[j].name != name
    decreases |v|
  {
    if v == [] || v[0].name == name then 0 else 1 + IndexOf(v[1..], name)
  }

  function Placed(v: seq<Entry>, e: Entry): seq<Entry> {
    var k := IndexOf(v, e.name);
    if k < |v| then v[k := e] else v + [e]
  }

  function Removed(v: seq<Entry>, name: string): seq<Entry> {
    var k := IndexOf(v, name);
    if k < |v| then v[..k] + v[k + 1..] else v
  }

  function Names(v: seq<Entry>): set<string> {
    if v == [] then {} else Names(v[..|v| - 1]) + {v[|v| - 1].name}
  }

  lemma {:induction false} NameAt(v: seq<Entry>, k: nat)
    requires k < |v|
    ensures v[k].name in Names(v)
    decreases |v|
  {
    if k < |v| - 1 {
      NameAt(v[..|v| - 1], k);
    }
  }

  lemma {:induction false} NamedEntry(v: seq<Entry>, name: string) returns (k: nat)
    requires name in Names(v)
    ensures k < |v| && v[k].name == name
    decreases |v|
  {
    if v[|v| - 1].name == name {
      k := |v| - 1;
    } else {
      k := NamedEntry(v[..|v| - 1], name);
    }
  }

  lemma {:induction false} ListedIff(v: seq<Entry>, name: string)
    ensures name in Names(v) <==> IndexOf(v, name) < |v|
  {
    if name in Names(v) {
      var k := NamedEntry(v, name);
    }
    if IndexOf(v, name) < |v| {
      NameAt(v, IndexOf(v, name));
    }
  }

  /** The same names, each once, with the same instances. */
  ghost predicate Agree(m: map<string, Instance>, v: seq<Entry>) {
    && (forall i, j :: 0 <= i < j < |v| ==> v[i].name != v[j].name)
    && (forall k :: 0 <= k < |v| ==> v[k].name in m && m[v[k].name] == v[k].inst)
    && m.Keys == Names(v)
  }

  lemma PlacedNames(v: seq<Entry>, e: Entry)
    ensures Names(Placed(v, e)) == Names(v) + {e.name}
  {
    var w, n := Placed(v, e), IndexOf(v, e.name);
    if n == |v| {
      assert w[..|w| - 1] == v;
    } else {
      forall name ensures name in Names(w) <==> name in Names(v) + {e.name} {
        if name in Names(w) {
          var k := NamedEntry(w, name);
          NameAt(v, k);
        }
        if name in Names(v) {
          var k := NamedEntry(v, name);
          NameAt(w, k);
        }
        NameAt(w, n);
      }
    }
  }

  lemma PlacedEntry(v: seq<Entry>, e: Entry, k: nat)
    requires k < |Placed(v, e)|
    ensures Placed(v, e)[k] == if k == IndexOf(v, e.name) then e else v[k]
  {}

  lemma AgreePlaced(m: map<string, Instance>, v: seq<Entry>, e: Entry)
    requires Agree(m, v)
    ensures Agree(m[e.name := e.inst], Placed(v, e))
  {
    var w := Placed(v, e);
    PlacedNames(v, e);
    forall i, j | 0 <= i < j < |w| ensures w[i].name != w[j].name {
      PlacedEntry(v, e, i);
      PlacedEntry(v, e, j);
    }
    forall k | 0 <= k < |w| ensures w[k].name in m[e.name := e.inst] && m[e.name := e.inst][w[k].name] == w[k].inst {
      PlacedEntry(v, e, k);
    }
  }

  lemma CutEntry(v: seq<Entry>, n: nat, k: nat)
    requires n < |v| && k < |v| - 1
    ensures (v[..n] + v[n + 1..])[k] == v[if n <= k then k + 1 else k]
  {}

  lemma RemovedEntry(v: seq<Entry>, name: string, k: nat)
    requires k < |Removed(v, name)|
    ensures Removed(v, name)[k] == v[if IndexOf(v, name) <= k && IndexOf(v, name) < |v| then k + 1 else k]
  {
    var n := IndexOf(v, name);
    if n < |v| {
      CutEntry(v, n, k);
    }
  }

  lemma KeptName(v: seq<Entry>, gone: string, name: string)
    requires name in Names(v) && name != gone
    ensures name in Names(Removed(v, gone))
  {
    var w, n := Removed(v, gone), IndexOf(v, gone);
    var k := NamedEntry(v, name);
    var at := if n < k then k - 1 else k;
    assert w[at] == v[k];
    NameAt(w, at);
  }

  lemma {:induction false} RemovedName(v: seq<Entry>, gone: string, name: string)
    requires forall i, j :: 0 <= i < j < |v| ==> v[i].name != v[j].name
    requires name in Names(Removed(v, gone))
    ensures name in Names(v) && name != gone
  {
    var n := IndexOf(v, gone);
    var k := NamedEntry(Removed(v, gone), name);
    RemovedEntry(v, gone, k);
    var at := if n <= k && n < |v| then k + 1 else k;
    NameAt(v, at);
  }

  lemma {:induction false} RemovedNames(v: seq<Entry>, gone: string)
    requires forall i, j :: 0 <= i < j < |v| ==> v[i].name != v[j].name
    ensures Names(Removed(v, gone)) == Names(v) - {gone}
  {
    forall name ensures name in Names(Removed(v, gone)) <==> name in Names(v) - {gone} {
      if name in Names(Removed(v, gone)) {
        RemovedName(v, gone, name);
      }
      if name in Names(v) && name != gone {
        KeptName(v, gone, name);
      }
    }
  }

  lemma AgreeRemoved(m: map<string, Instance>, v: seq<Entry>, name: string)
    requires Agree(m, v)
    ensures Agree(m - {name}, Removed(v, name))
  {
    var w := Removed(v, name);
    RemovedNames(v, name);
    forall k | 0 <= k < |w| ensures w[k].name in m - {name} && (m - {name})[w[k].name] == w[k].inst {
      RemovedEntry(v, name, k);
    }
    forall i, j | 0 <= i < j < |w| ensures w[i].name != w[j].name {
      RemovedEntry(v, name, i);
      RemovedEntry(v, name, j);
    }
  }

  lemma RemovedLast(v: seq<Entry>)
    requires v != [] && forall i, j :: 0 <= i < j < |v| ==> v[i].name != v[j].name
    ensures Removed(v, v[|v| - 1].name) == v[..|v| - 1]
  {}

  /** In agreement, both hold the same number of instances. */
  lemma {:induction false} AgreeCount(m: map<string, Instance>, v: seq<Entry>)
    requires Agree(m, v)
    ensures |m| == |v|
  {
    if v == [] {
      assert m == map[];
    } else {
      var last := v[|v| - 1].name;
      AgreeRemoved(m, v, last);
      RemovedLast(v);
      AgreeCount(m - {last}, v[..|v| - 1]);
      assert (m - {last}).Keys == m.Keys - {last};
    }
  }

  // ---------- Clearing by the instances' own names ----------

  function OwnNames(v: seq<Entry>): set<string> {
    if v == [] then {} else OwnNames(v[..|v| - 1]) + {v[|v| - 1].inst.name}
  }

  /**
    Clearing everything by the instances' own names empties the map exactly when every name that is
    registered is the own name of some registered instance.
  */
  lemma ClearsAllIff(m: map<string, Instance>, v: seq<Entry>)
    requires Agree(m, v)
    ensures m - OwnNames(v) == map[] <==> Names(v) <= OwnNames(v)
  {
    assert (m - OwnNames(v)).Keys == Names(v) - OwnNames(v);
    assert m - OwnNames(v) == map[] <==> (m - OwnNames(v)).Keys == {};
  }

  /** The instance of the name in the map. */
  function Lookup(m: map<string, Instance>, name: string): Option<Instance> {
    if name in m then Some(m[name]) else None
  }

  /** The instance of the name in the ordered collection. */
  function Taken(v: seq<Entry>, name: string): Option<Instance> {
    var k := IndexOf(v, name);
    if k < |v| then Some(v[k].inst) else None
  }

  lemma LookupIsTaken(m: map<string, Instance>, v: seq<Entry>, name: string)
    requires Agree(m, v)
    ensures Lookup(m, name) == Taken(v, name)
  {
    ListedIff(v, name);
  }

  /** What has to be released when an instance takes the place of the name's instance. */
  function Replaced(v: seq<Entry>, name: string, successor: Instance): Option<Instance> {
    if Taken(v, name) == Some(successor) then None else Taken(v, name)
  }

  function ListOf(i: Option<Instance>): seq<Instance> {
    if i.Some? then [i.value] else []
  }

  predicate InOrder(v: seq<Entry>, i: Instance) {
    exists k | 0 <= k < |v| :: v[k].inst == i
  }

  /** Whether one of the collections refers to the instance. */
  predicate Referenced(m: map<string, Instance>, v: seq<Entry>, i: Instance) {
    i in m.Values || InOrder(v, i)
  }

  /** There is no instance, or its destructor does nothing. */
  predicate Quiet(i: Option<Instance>) {
    i.None? || i.value.onDestroy == Nothing
  }

  function QuietEntry(): Entry -> bool {
    (e: Entry) => Quiet(Some(e.inst))
  }

  /** When the name's entry leaves the map, no destructor runs that has something to do. */
  predicate LeavesMapCalmly(m: map<string, Instance>, v: seq<Entry>, name: string) {
    var i := Lookup(m, name);
    Quiet(i) || InOrder(v, i.value)
  }

  /** So it is while the collections agree: the ordered one still refers to the instance. */
  lemma AgreeIsCalm(m: map<string, Instance>, v: seq<Entry>, name: string)
    requires Agree(m, v)
    ensures LeavesMapCalmly(m, v, name)
  {
    LookupIsTaken(m, v, name);
    if name in m {
      assert v[IndexOf(v, name)].inst == m[name];
    }
  }

  /** An instance registered under another name than its own stays in the map. */
  lemma AliasStays(i: Instance, alias: string)
    requires alias != i.name
    ensures Agree(map[alias := i], [Entry(alias, i)])
    ensures map[alias := i] - OwnNames([Entry(alias, i)]) == map[alias := i]
  {}

  // ---------- All entries ----------

  /** The condition holds of every entry. */
  ghost predicate All(v: seq<Entry>, p: Entry -> bool) {
    v == [] || (p(v[|v| - 1]) && All(v[..|v| - 1], p))
  }

  lemma {:induction false} AllIff(v: seq<Entry>, p: Entry -> bool)
    ensures All(v, p) <==> forall k :: 0 <= k < |v| ==> p(v[k])
    decreases |v|
  {
    if v != [] {
      var front := v[..|v| - 1];
      AllIff(front, p);
      if All(v, p) {
        forall k | 0 <= k < |v| ensures p(v[k]) {
          assert k < |front| ==> front[k] == v[k];
        }
      }
      if forall k :: 0 <= k < |v| ==> p(v[k]) {
        forall k | 0 <= k < |front| ensures p(front[k]) {
          assert p(v[k]);
        }
      }
    }
  }

  lemma AllLast(v: seq<Entry>, p: Entry -> bool)
    requires All(v, p) && v != []
    ensures p(v[|v| - 1]) && All(v[..|v| - 1], p)
  {}

  lemma AllPlaced(v: seq<Entry>, e: Entry, p: Entry -> bool)
    requires All(v, p)
    ensures p(e) ==> All(Placed(v, e), p)
    ensures var k := IndexOf(v, e.name); k < |v| ==> p(v[k])
  {
    AllIff(v, p);
    AllIff(Placed(v, e), p);
  }

  lemma AllRemoved(v: seq<Entry>, name: string, p: Entry -> bool)
    requires All(v, p)
    ensures All(Removed(v, name), p)
    ensures var k := IndexOf(v, name); k < |v| ==> p(v[k])
  {
    AllIff(v, p);
    AllIff(Removed(v, name), p);
    forall k | 0 <= k < |Removed(v, name)| ensures p(Removed(v, name)[k]) {
      RemovedEntry(v, name, k);
    }
  }

  lemma AllAppended(v: seq<Entry>, e: Entry, p: Entry -> bool)
    ensures All(v + [e], p) <==> All(v, p) && p(e)
  {
    assert (v + [e])[..|v|] == v;
  }

  // ---------- Sums over the entries ----------

  function Sum(v: seq<Entry>, f: Instance -> nat): nat {
    if v == [] then 0 else Sum(v[..|v| - 1], f) + f(v[|v| - 1].inst)
  }

  function Of(i: Option<Instance>, f: Instance -> nat): nat {
    if i.Some? then f(i.value) else 0
  }

  lemma {:induction false} SumAppend(a: seq<Entry>, b: seq<Entry>, f: Instance -> nat)
    ensures Sum(a + b, f) == Sum(a, f) + Sum(b, f)
    decreases |b|
  {
    if b == [] {
      assert a + b == a;
    } else {
      assert (a + b)[..|a + b| - 1] == a + b[..|b| - 1];
      SumAppend(a, b[..|b| - 1], f);
    }
  }

  lemma {:induction false} SumOfParts(v: seq<Entry>, k: nat, f: Instance -> nat)
    requires k < |v|
    ensures Sum(v, f) == Sum(v[..k], f) + f(v[k].inst) + Sum(v[k + 1..], f)
  {
    var front, back := v[..k + 1], v[k + 1..];
    assert front[..k] == v[..k] && front[k] == v[k];
    assert v == front + back;
    SumAppend(front, back, f);
  }

  lemma {:induction false} SumPlaced(v: seq<Entry>, e: Entry, f: Instance -> nat)
    ensures Sum(Placed(v, e), f) + Of(Taken(v, e.name), f) == Sum(v, f) + f(e.inst)
  {
    var k := IndexOf(v, e.name);
    if k < |v| {
      var w := v[k := e];
      SumOfParts(v, k, f);
      SumOfParts(w, k, f);
      assert w[..k] == v[..k] && w[k + 1..] == v[k + 1..];
    } else {
      assert (v + [e])[..|v|] == v;
    }
  }

  lemma {:induction false} SumRemoved(v: seq<Entry>, name: string, f: Instance -> nat)
    ensures Sum(Removed(v, name), f) + Of(Taken(v, name), f) == Sum(v, f)
  {
    var k := IndexOf(v, name);
    if k < |v| {
      var front, back := v[..k], v[k + 1..];
      assert Removed(v, name) == front + back;
      SumOfParts(v, k, f);
      SumAppend(front, back, f);
    }
  }

  // ---------- What is still to be destroyed ----------

  function Weight(i: Instance): nat {
    1 + PlanWeight(i.onDestroy)
  }

  /** An instance counts for its places in the two collections and for the reference that registers it. */
  function PlanWeight(p: Plan): nat {
    match p
    case Nothing => 0
    case PopulateThen(_, _, i, rest) => 1 + 2 * Weight(i) + PlanWeight(rest)
    case SetThen(_, i, rest) => 1 + 3 * Weight(i) + PlanWeight(rest)
    case ClearThen(_, rest) => 1 + PlanWeight(rest)
    case ClearAllThen(rest) => 1 + PlanWeight(rest)
  }

  /** The entries are those of the map, in some order. */
  ghost predicate Lists(m: map<string, Instance>, v: seq<Entry>) {
    if v == [] then m == map[]
    else
      var last := v[|v| - 1];
      Lookup(m, last.name) == Some(last.inst) && Lists(m - {last.name}, v[..|v| - 1])
  }

  lemma {:induction false} ListsIff(m: map<string, Instance>, v: seq<Entry>)
    ensures Lists(m, v) <==> Agree(m, v)
    decreases |v|
  {
    if v != [] {
      var front, last := v[..|v| - 1], v[|v| - 1];
      ListsIff(m - {last.name}, front);
      if Lists(m, v) {
        AgreeNext(m, v);
      }
      if Agree(m, v) {
        AgreeRemoved(m, v, last.name);
        RemovedLast(v);
      }
    }
  }

  lemma AgreeNext(m: map<string, Instance>, v: seq<Entry>)
    requires v != [] && Lookup(m, v[|v| - 1].name) == Some(v[|v| - 1].inst)
    requires Agree(m - {v[|v| - 1].name}, v[..|v| - 1])
    ensures Agree(m, v)
  {
    var front, last := v[..|v| - 1], v[|v| - 1];
    assert m.Keys == (m - {last.name}).Keys + {last.name};
    forall k | 0 <= k < |v| ensures v[k].name in m && m[v[k].name] == v[k].inst {
      if k < |front| {
        assert front[k] == v[k];
      }
    }
    forall i, j | 0 <= i < j < |v| ensures v[i].name != v[j].name {
      assert front[i] == v[i];
      if j < |front| {
        assert front[j] == v[j];
      }
    }
  }

  lemma MapPlaced(m: map<string, Instance>, v: seq<Entry>, e: Entry)
    requires Lists(m, v)
    ensures Lists(m[e.name := e.inst], Placed(v, e))
    ensures Sum(Placed(v, e), Weight) + Of(Lookup(m, e.name), Weight) == Sum(v, Weight) + Weight(e.inst)
  {
    ListsIff(m, v);
    AgreePlaced(m, v, e);
    ListsIff(m[e.name := e.inst], Placed(v, e));
    LookupIsTaken(m, v, e.name);
    SumPlaced(v, e, Weight);
  }

  lemma MapRemoved(m: map<string, Instance>, v: seq<Entry>, name: string)
    requires Lists(m, v)
    ensures Lists(m - {name}, Removed(v, name))
    ensures Sum(Removed(v, name), Weight) + Of(Lookup(m, name), Weight) == Sum(v, Weight)
  {
    ListsIff(m, v);
    AgreeRemoved(m, v, name);
    ListsIff(m - {name}, Removed(v, name));
    LookupIsTaken(m, v, name);
    SumRemoved(v, name, Weight);
  }

  // ---------- Conservation ----------

  function One(i: Instance, w: Instance): nat {
    if i == w then 1 else 0
  }

  function Counts(w: Instance): Instance -> nat {
    i => One(i, w)
  }

  /** How many entries hold w. */
  function Places(v: seq<Entry>, w: Instance): nat {
    Sum(v, Counts(w))
  }

  /** How often w has been released. */
  function Times(r: seq<Instance>, w: Instance): nat {
    if r == [] then 0 else Times(r[..|r| - 1], w) + One(r[|r| - 1], w)
  }

  lemma TimesNext(r: seq<Instance>, i: Instance, w: Instance)
    ensures Times(r + [i], w) == Times(r, w) + One(i, w)
  {
    assert (r + [i])[..|r|] == r;
  }

  /** How often w enters with the entry: not at all if its place already holds the same instance. */
  function Newcomers(v: seq<Entry>, e: Entry, w: Instance): nat {
    if Taken(v, e.name) == Some(e.inst) then 0 else One(e.inst, w)
  }

  lemma PlacedAccounts(v: seq<Entry>, e: Entry, w: Instance)
    ensures var r := Replaced(v, e.name, e.inst);
      && Places(Placed(v, e), w) + Of(r, Counts(w)) == Places(v, w) + Newcomers(v, e, w)
      && Sum(Placed(v, e), Weight) + Of(r, Weight) <= Sum(v, Weight) + Weight(e.inst)
  {
    SumPlaced(v, e, Counts(w));
    SumPlaced(v, e, Weight);
  }

  lemma RemovedAccounts(v: seq<Entry>, name: string, w: Instance)
    ensures Places(Removed(v, name), w) + Of(Taken(v, name), Counts(w)) == Places(v, w)
    ensures Sum(Removed(v, name), Weight) + Of(Taken(v, name), Weight) == Sum(v, Weight)
  {
    SumRemoved(v, name, Counts(w));
    SumRemoved(v, name, Weight);
  }

  lemma LastAccounts(v: seq<Entry>, w: Instance)
    requires v != []
    ensures var front, last := v[..|v| - 1], v[|v| - 1].inst;
      Places(v, w) == Places(front, w) + One(last, w) && Sum(v, Weight) == Sum(front, Weight) + Weight(last)
  {}

  lemma AppendAccounts(v: seq<Entry>, e: Entry, w: Instance)
    ensures Places(v + [e], w) == Places(v, w) + One(e.inst, w) && Sum(v + [e], Weight) == Sum(v, Weight) + Weight(e.inst)
  {
    assert (v + [e])[..|v|] == v;
  }

  // ---------- What a call back does ----------

  /**
    The collections before and after the first call of a plan: setting and clearing are determined as far as
    no destructor runs that has something to do.
  */
  ghost predicate AsAsked(p: Plan, m: map<string, Instance>, v: seq<Entry>, m': map<string, Instance>, v': seq<Entry>) {
    match p
    case Nothing => m' == m && v' == v
    case PopulateThen(name, _, i, _) =>
      if name in m then m' == m && v' == v else m' == m[name := i] && v' == v + [Entry(name, i)]
    case SetThen(name, i, _) =>
      (Lookup(m, name) == Some(i) || LeavesMapCalmly(m, v, name)) && Quiet(Replaced(v, name, i)) ==>
        m' == m[name := i] && v' == Placed(v, Entry(name, i))
    case ClearThen(name, _) =>
      LeavesMapCalmly(m, v, name) && Quiet(Taken(v, name)) ==> m' == m - {name} && v' == Removed(v, name)
    case ClearAllThen(_) => v' == []
  }

  lemma JustSet(m: map<string, Instance>, v: seq<Entry>, name: string, i: Instance)
    ensures Referenced(m[name := i], v, i)
  {
    assert m[name := i][name] in m[name := i].Values;
  }

  // ---------- Registration under own names ----------

  /** Everything that the plan registers goes under its own name, at any depth. */
  predicate PlanNamed(p: Plan) {
    match p
    case Nothing => true
    case PopulateThen(name, _, i, rest) => name == i.name && PlanNamed(i.onDestroy) && PlanNamed(rest)
    case SetThen(name, i, rest) => name == i.name && PlanNamed(i.onDestroy) && PlanNamed(rest)
    case ClearThen(_, rest) => PlanNamed(rest)
    case ClearAllThen(rest) => PlanNamed(rest)
  }

  /** There is no instance, or its destructor registers under own names only. */
  predicate CallsNamed(i: Option<Instance>) {
    i.None? || PlanNamed(i.value.onDestroy)
  }

  predicate OwnNamed(e: Entry) {
    e.name == e.inst.name && PlanNamed(e.inst.onDestroy)
  }

  ghost predicate AllOwnNamed(v: seq<Entry>) {
    All(v, OwnNamed)
  }

  /** Map and ordered collection agree, and every instance is registered under its own name. */
  ghost predicate Tidy(m: map<string, Instance>, v: seq<Entry>) {
    Lists(m, v) && AllOwnNamed(v)
  }

  lemma TidyIff(m: map<string, Instance>, v: seq<Entry>)
    ensures Tidy(m, v) <==> Agree(m, v) && forall k :: 0 <= k < |v| ==> OwnNamed(v[k])
  {
    ListsIff(m, v);
    AllIff(v, OwnNamed);
  }

  lemma TidyPlaced(m: map<string, Instance>, v: seq<Entry>, e: Entry)
    requires Tidy(m, v) && OwnNamed(e)
    ensures Tidy(m[e.name := e.inst], Placed(v, e)) && LeavesMapCalmly(m, v, e.name)
    ensures CallsNamed(Taken(v, e.name))
  {
    MapPlaced(m, v, e);
    AllPlaced(v, e, OwnNamed);
    ListsIff(m, v);
    AgreeIsCalm(m, v, e.name);
  }

  lemma TidyRemoved(m: map<string, Instance>, v: seq<Entry>, name: string)
    requires Tidy(m, v)
    ensures Tidy(m - {name}, Removed(v, name)) && LeavesMapCalmly(m, v, name)
    ensures CallsNamed(Taken(v, name))
  {
    MapRemoved(m, v, name);
    AllRemoved(v, name, OwnNamed);
    ListsIff(m, v);
    AgreeIsCalm(m, v, name);
  }

  lemma TidyLast(m: map<string, Instance>, v: seq<Entry>)
    requires Tidy(m, v) && v != []
    ensures var last := v[|v| - 1].inst;
      Lookup(m, last.name) == Some(last) && PlanNamed(last.onDestroy) && Tidy(m - {last.name}, v[..|v| - 1])
  {}

  lemma AppendedLast(m: map<string, Instance>, v: seq<Entry>, e: Entry)
    requires e.name !in m
    ensures Lists(m, v) ==> Lists(m[e.name := e.inst], v + [e])
    ensures Tidy(m, v) && OwnNamed(e) ==> Tidy(m[e.name := e.inst], v + [e])
  {
    assert (v + [e])[..|v|] == v && m[e.name := e.inst] - {e.name} == m;
  }

  // ---------- An instance that no destructor registers ----------

  /** The plan does not register w, and neither does the destructor of anything it registers. */
  predicate PlanSpares(p: Plan, w: Instance) {
    match p
    case Nothing => true
    case PopulateThen(_, _, i, rest) => i != w && PlanSpares(i.onDestroy, w) && PlanSpares(rest, w)
    case SetThen(_, i, rest) => i != w && PlanSpares(i.onDestroy, w) && PlanSpares(rest, w)
    case ClearThen(_, rest) => PlanSpares(rest, w)
    case ClearAllThen(rest) => PlanSpares(rest, w)
  }

  /** There is no instance, or its destructor does not lead to a registration of w. */
  predicate InstanceSpares(i: Option<Instance>, w: Instance) {
    i.None? || PlanSpares(i.value.onDestroy, w)
  }

  function Sparing(w: Instance): Entry -> bool {
    (e: Entry) => InstanceSpares(Some(e.inst), w)
  }

  lemma SparingPlaced(v: seq<Entry>, e: Entry, w: Instance)
    requires All(v, Sparing(w))
    ensures InstanceSpares(Some(e.inst), w) ==> All(Placed(v, e), Sparing(w)) && All(v + [e], Sparing(w))
    ensures InstanceSpares(Taken(v, e.name), w)
  {
    AllPlaced(v, e, Sparing(w));
    AllAppended(v, e, Sparing(w));
  }

  lemma SparingRemoved(v: seq<Entry>, name: string, w: Instance)
    requires All(v, Sparing(w))
    ensures All(Removed(v, name), Sparing(w)) && InstanceSpares(Taken(v, name), w)
  {
    AllRemoved(v, name, Sparing(w));
  }

  /** The same for an entry of the map. */
  lemma SparingInMap(m: map<string, Instance>, v: seq<Entry>, name: string, w: Instance)
    requires Lists(m, v) && All(v, Sparing(w))
    ensures All(Removed(v, name), Sparing(w)) && InstanceSpares(Lookup(m, name), w)
  {
    SparingRemoved(v, name, w);
    ListsIff(m, v);
    LookupIsTaken(m, v, name);
  }

  // ---------- Clearing everything without a call back ----------

  /** The newest instance first. */
  function NewestFirst(v: seq<Entry>): seq<Instance> {
    if v == [] then [] else [v[|v| - 1].inst] + NewestFirst(v[..|v| - 1])
  }

  /** What is left, and what was released, once everything has been cleared without a call back. */
  ghost function Rest(m: map<string, Instance>, v: seq<Entry>, t: seq<Instance>): (map<string, Instance>, seq<Instance>) {
    (m - OwnNames(v), t + NewestFirst(v))
  }

  lemma RestStep(m: map<string, Instance>, v: seq<Entry>, t: seq<Instance>)
    requires v != []
    ensures var last := v[|v| - 1].inst;
      Rest(m - {last.name}, v[..|v| - 1], t + [last]) == Rest(m, v, t)
  {
    var front, last := v[..|v| - 1], v[|v| - 1].inst;
    assert (m - {last.name}) - OwnNames(front) == m - OwnNames(v);
    assert (t + [last]) + NewestFirst(front) == t + NewestFirst(v);
  }

  lemma QuietStep(m: map<string, Instance>, es: seq<Entry>, v: seq<Entry>)
    requires v != [] && Lists(m, es) && All(es, QuietEntry()) && All(v, QuietEntry())
    ensures var last := v[|v| - 1].inst; Quiet(Some(last)) && Quiet(Lookup(m, last.name))
  {
    var last := v[|v| - 1].inst;
    ListsIff(m, es);
    LookupIsTaken(m, es, last.name);
    AllRemoved(es, last.name, QuietEntry());
  }
}
