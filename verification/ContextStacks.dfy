/**
  The per-thread part of vlr-util/ThreadOperationContext.cpp as functions on its data: a list of
  active contexts, each a key with a stack of weak references. A reference can be locked exactly
  while its context is live.
*/
module ContextStacks {
  import opened Wrappers

  /** The id stands for the identity of the shared object. */
  datatype Context = Context(id: nat, name: string, value: string)

  datatype ActiveContext = ActiveContext(key: string, stack: seq<Context>)

  // ---------- One stack ----------

  /** The stack without the dead references on its top. */
  function Prune(stack: seq<Context>, live: set<Context>): seq<Context> {
    if stack == [] || stack[|stack| - 1] in live then stack else Prune(stack[..|stack| - 1], live)
  }

  /** The stack after a pop: dead and foreign entries go first, then a live entry whose value agrees. */
  function Pop(stack: seq<Context>, live: set<Context>, name: string, toPop: Option<Context>): seq<Context> {
    if stack == [] then []
    else
      var below, top := stack[..|stack| - 1], stack[|stack| - 1];
      if top !in live || top.name != name then Pop(below, live, name, toPop)
      else if toPop.Some? && top.value != toPop.value.value then stack
      else below
  }

  /** The live contexts of one name, oldest first. */
  function LiveWith(s: seq<Context>, name: string, live: set<Context>): seq<Context> {
    if s == [] then []
    else
      var rest, last := LiveWith(s[..|s| - 1], name, live), s[|s| - 1];
      if last in live && last.name == name then rest + [last] else rest
  }

  function LastOf(s: seq<Context>): Option<Context> {
    if s == [] then None else Some(s[|s| - 1])
  }

  /** The topmost reference that can be locked. */
  function LastLive(stack: seq<Context>, live: set<Context>): Option<Context> {
    LastOf(Prune(stack, live))
  }

  lemma {:induction false} LiveWithPrune(s: seq<Context>, name: string, live: set<Context>)
    ensures LiveWith(Prune(s, live), name, live) == LiveWith(s, name, live)
  {
    if s != [] && s[|s| - 1] !in live {
      LiveWithPrune(s[..|s| - 1], name, live);
    }
  }

  /** A pop takes the newest live context of the name if none is given or its value agrees, and no other live context. */
  lemma {:induction false} LiveWithPop(s: seq<Context>, live: set<Context>, name: string, toPop: Option<Context>)
    ensures var before := LiveWith(s, name, live);
      LiveWith(Pop(s, live, name, toPop), name, live) ==
      if before != [] && (toPop.None? || before[|before| - 1].value == toPop.value.value) then before[..|before| - 1] else before
  {
    if s != [] {
      var below, top := s[..|s| - 1], s[|s| - 1];
      if top !in live || top.name != name {
        LiveWithPop(below, live, name, toPop);
      } else {
        assert (LiveWith(below, name, live) + [top])[..|LiveWith(below, name, live)|] == LiveWith(below, name, live);
      }
    }
  }

  predicate Poppable(c: Context, live: set<Context>, name: string) {
    c in live && c.name == name
  }

  /**
    What is left on the stack, by places: if n is the topmost place of a live context of the name, all above
    it goes, and so does the context unless another value was to be popped. Without one everything goes.
  */
  lemma {:induction false} PopByPlace(s: seq<Context>, live: set<Context>, name: string, toPop: Option<Context>, n: int)
    requires -1 <= n < |s| && (n >= 0 ==> Poppable(s[n], live, name))
    requires forall i :: n < i < |s| ==> !Poppable(s[i], live, name)
    ensures Pop(s, live, name, toPop) ==
      if n == -1 then [] else if toPop.Some? && s[n].value != toPop.value.value then s[..n + 1] else s[..n]
    decreases |s|
  {
    if s != [] {
      var below := s[..|s| - 1];
      if n < |s| - 1 {
        assert !Poppable(s[|s| - 1], live, name);
        PopByPlace(below, live, name, toPop, n);
        assert n >= 0 ==> below[..n] == s[..n] && below[..n + 1] == s[..n + 1];
      } else {
        assert s[..n + 1] == s;
      }
    }
  }

  function Without(s: seq<Context>, c: Context): seq<Context> {
    if s == [] then []
    else
      var rest := Without(s[..|s| - 1], c);
      if s[|s| - 1] == c then rest else rest + [s[|s| - 1]]
  }

  lemma WithoutAppend(s: seq<Context>, x: Context, c: Context)
    ensures Without(s + [x], c) == if x == c then Without(s, c) else Without(s, c) + [x]
  {}

  /** When a context dies it leaves every list of live contexts, and nothing else does. */
  lemma {:induction false} LiveWithDeath(s: seq<Context>, name: string, live: set<Context>, c: Context)
    ensures LiveWith(s, name, live - {c}) == Without(LiveWith(s, name, live), c)
  {
    if s != [] {
      LiveWithDeath(s[..|s| - 1], name, live, c);
      WithoutAppend(LiveWith(s[..|s| - 1], name, live), s[|s| - 1], c);
    }
  }

  lemma {:induction false} LiveWithMembers(s: seq<Context>, name: string, live: set<Context>, c: Context)
    ensures c in LiveWith(s, name, live) <==> c in s && c in live && c.name == name
  {
    if s != [] {
      LiveWithMembers(s[..|s| - 1], name, live, c);
      assert s == s[..|s| - 1] + [s[|s| - 1]];
    }
  }

  /** Contexts that are not on the stack do not matter to it. */
  lemma {:induction false} LiveWithBirth(s: seq<Context>, name: string, live: set<Context>, c: Context)
    requires c !in s
    ensures LiveWith(s, name, live + {c}) == LiveWith(s, name, live)
  {
    if s != [] {
      assert s[|s| - 1] in s;
      LiveWithBirth(s[..|s| - 1], name, live, c);
    }
  }

  predicate Named(s: seq<Context>, name: string) {
    forall i :: 0 <= i < |s| ==> s[i].name == name
  }

  lemma {:induction false} LastLiveIsLast(s: seq<Context>, name: string, live: set<Context>)
    requires Named(s, name)
    ensures LastLive(s, live) == LastOf(LiveWith(s, name, live))
  {
    if s != [] && s[|s| - 1] !in live {
      LastLiveIsLast(s[..|s| - 1], name, live);
    }
  }

  // ---------- The list of active contexts ----------

  /** The index of the key's entry, or the length if there is none. */
  function Find(a: seq<ActiveContext>, key: string): (i: nat)
    ensures i <= |a|
    ensures i < |a| ==> a[i].key == key
    ensures forall k :: 0 <= k < i ==> a[k].key != key
    decreases |a|
  {
    if a == [] || a[0].key == key then 0 else 1 + Find(a[1..], key)
  }

  function StackOf(a: seq<ActiveContext>, key: string): seq<Context> {
    var i := Find(a, key);
    if i < |a| then a[i].stack else []
  }

  ghost predicate WellFormed(a: seq<ActiveContext>) {
    && (forall i, j :: 0 <= i < j < |a| ==> a[i].key != a[j].key)
    && (forall i :: 0 <= i < |a| ==> Named(a[i].stack, a[i].key))
  }

  function PushActive(a: seq<ActiveContext>, c: Context): seq<ActiveContext> {
    var i := Find(a, c.name);
    if i < |a| then a[i := ActiveContext(c.name, a[i].stack + [c])] else a + [ActiveContext(c.name, [c])]
  }

  function PopActive(a: seq<ActiveContext>, name: string, toPop: Option<Context>, live: set<Context>): seq<ActiveContext> {
    var i := Find(a, name);
    if i < |a| then a[i := ActiveContext(name, Pop(a[i].stack, live, name, toPop))] else a
  }

  /** Every stack pruned, and the entries dropped whose stacks are then empty. */
  function PruneActive(a: seq<ActiveContext>, live: set<Context>): seq<ActiveContext> {
    if a == [] then []
    else
      var rest, last := PruneActive(a[..|a| - 1], live), a[|a| - 1];
      var pruned := Prune(last.stack, live);
      if pruned == [] then rest else rest + [ActiveContext(last.key, pruned)]
  }

  function DropEmpty(a: seq<ActiveContext>): seq<ActiveContext> {
    if a == [] then []
    else
      var rest, last := DropEmpty(a[..|a| - 1]), a[|a| - 1];
      if last.stack == [] then rest else rest + [last]
  }

  /** The first i stacks are pruned, and the others are as before. */
  ghost predicate PrunedUpTo(before: seq<ActiveContext>, now: seq<ActiveContext>, i: nat, live: set<Context>) {
    && |now| == |before|
    && i <= |now|
    && (forall k :: 0 <= k < i ==> now[k] == ActiveContext(before[k].key, Prune(before[k].stack, live)))
    && (forall k :: i <= k < |now| ==> now[k] == before[k])
  }

  lemma PrunedNext(before: seq<ActiveContext>, now: seq<ActiveContext>, i: nat, live: set<Context>)
    requires PrunedUpTo(before, now, i, live) && i < |now|
    ensures now[i] == before[i]
    ensures PrunedUpTo(before, now[i := ActiveContext(now[i].key, Prune(now[i].stack, live))], i + 1, live)
  {}

  lemma {:induction false} PruneThenDrop(a: seq<ActiveContext>, b: seq<ActiveContext>, live: set<Context>)
    requires PrunedUpTo(a, b, |a|, live)
    ensures DropEmpty(b) == PruneActive(a, live)
  {
    if a != [] {
      PruneThenDrop(a[..|a| - 1], b[..|b| - 1], live);
    }
  }

  /** The topmost live context of every entry, in the order of the entries. */
  function Report(a: seq<ActiveContext>, live: set<Context>): seq<Context> {
    if a == [] then []
    else
      var rest, top := Report(a[..|a| - 1], live), LastLive(a[|a| - 1].stack, live);
      if top.None? then rest else rest + [top.value]
  }

  lemma FindUnique(a: seq<ActiveContext>, i: nat, key: string)
    requires WellFormed(a) && i < |a| && a[i].key == key
    ensures Find(a, key) == i
  {}

  lemma PushWellFormed(a: seq<ActiveContext>, c: Context)
    requires WellFormed(a)
    ensures WellFormed(PushActive(a, c))
  {}

  lemma StackOfPush(a: seq<ActiveContext>, c: Context, key: string)
    requires WellFormed(a)
    ensures StackOf(PushActive(a, c), key) == if key == c.name then StackOf(a, key) + [c] else StackOf(a, key)
  {
    var b, n := PushActive(a, c), Find(a, c.name);
    PushWellFormed(a, c);
    var i := Find(a, key);
    if i < |a| {
      assert b[i].key == key;
      FindUnique(b, i, key);
    } else if key == c.name {
      FindUnique(b, |a|, key);
    }
  }

  lemma {:induction false} PopNamed(s: seq<Context>, live: set<Context>, name: string, toPop: Option<Context>, key: string)
    requires Named(s, key)
    ensures Named(Pop(s, live, name, toPop), key)
  {
    if s != [] {
      PopNamed(s[..|s| - 1], live, name, toPop, key);
    }
  }

  lemma StackOfPop(a: seq<ActiveContext>, name: string, toPop: Option<Context>, live: set<Context>, key: string)
    requires WellFormed(a)
    ensures WellFormed(PopActive(a, name, toPop, live))
    ensures StackOf(PopActive(a, name, toPop, live), key) ==
      if key == name then Pop(StackOf(a, key), live, name, toPop) else StackOf(a, key)
  {
    var b := PopActive(a, name, toPop, live);
    var n := Find(a, name);
    if n < |a| {
      PopNamed(a[n].stack, live, name, toPop, name);
    }
    var i := Find(a, key);
    if i < |a| {
      assert b[i].key == key;
      FindUnique(b, i, key);
    }
  }

  lemma {:induction false} PruneNamed(s: seq<Context>, live: set<Context>, key: string)
    requires Named(s, key)
    ensures Named(Prune(s, live), key)
  {
    if s != [] {
      PruneNamed(s[..|s| - 1], live, key);
    }
  }

  lemma {:induction false} PrunedEntry(a: seq<ActiveContext>, live: set<Context>, i: nat) returns (k: nat)
    requires i < |PruneActive(a, live)|
    ensures k < |a| && PruneActive(a, live)[i] == ActiveContext(a[k].key, Prune(a[k].stack, live))
    decreases |a|
  {
    var n := |a| - 1;
    if i < |PruneActive(a[..n], live)| {
      k := PrunedEntry(a[..n], live, i);
    } else {
      k := n;
    }
  }

  lemma {:induction false} PrunedKeysDiffer(a: seq<ActiveContext>, live: set<Context>)
    requires WellFormed(a)
    ensures forall i, j :: 0 <= i < j < |PruneActive(a, live)| ==> PruneActive(a, live)[i].key != PruneActive(a, live)[j].key
    decreases |a|
  {
    if a != [] {
      var n := |a| - 1;
      var rest := PruneActive(a[..n], live);
      PrunedKeysDiffer(a[..n], live);
      forall i | 0 <= i < |rest| ensures rest[i].key != a[n].key {
        var k := PrunedEntry(a[..n], live, i);
      }
    }
  }

  lemma PruneActiveKeys(a: seq<ActiveContext>, live: set<Context>)
    requires WellFormed(a)
    ensures WellFormed(PruneActive(a, live))
    ensures forall i :: 0 <= i < |PruneActive(a, live)| ==>
      exists k :: 0 <= k < |a| && a[k].key == PruneActive(a, live)[i].key
  {
    var b := PruneActive(a, live);
    PrunedKeysDiffer(a, live);
    forall i | 0 <= i < |b| ensures Named(b[i].stack, b[i].key) && exists k :: 0 <= k < |a| && a[k].key == b[i].key {
      var k := PrunedEntry(a, live, i);
      PruneNamed(a[k].stack, live, a[k].key);
    }
  }

  lemma {:induction false} FindPrefix(a: seq<ActiveContext>, key: string)
    requires a != []
    ensures var n := |a| - 1;
      Find(a, key) == if Find(a[..n], key) < n then Find(a[..n], key) else if a[n].key == key then n else |a|
  {}

  lemma StackOfNext(a: seq<ActiveContext>, last: ActiveContext, key: string)
    requires forall i :: 0 <= i < |a| ==> a[i].key != last.key
    ensures StackOf(a + [last], key) == if key == last.key then last.stack else StackOf(a, key)
  {
    var b := a + [last];
    assert b[..|a|] == a;
    FindPrefix(b, key);
  }

  lemma AbsentStack(a: seq<ActiveContext>, key: string)
    requires forall i :: 0 <= i < |a| ==> a[i].key != key
    ensures StackOf(a, key) == []
  {}

  lemma PrunedKeysAbsent(a: seq<ActiveContext>, live: set<Context>, key: string)
    requires forall i :: 0 <= i < |a| ==> a[i].key != key
    ensures forall i :: 0 <= i < |PruneActive(a, live)| ==> PruneActive(a, live)[i].key != key
  {
    forall i | 0 <= i < |PruneActive(a, live)| ensures PruneActive(a, live)[i].key != key {
      var k := PrunedEntry(a, live, i);
    }
  }

  lemma {:induction false} StackOfPrune(a: seq<ActiveContext>, live: set<Context>, key: string)
    requires WellFormed(a)
    ensures StackOf(PruneActive(a, live), key) == Prune(StackOf(a, key), live)
  {
    if a != [] {
      var n := |a| - 1;
      var front, last := a[..n], a[n];
      var rest, pruned := PruneActive(front, live), Prune(last.stack, live);
      assert a == front + [last];
      StackOfPrune(front, live, key);
      StackOfNext(front, last, key);
      PrunedKeysAbsent(front, live, last.key);
      if pruned != [] {
        StackOfNext(rest, ActiveContext(last.key, pruned), key);
      } else if key == last.key {
        AbsentStack(rest, key);
      }
    }
  }

  // ---------- Identities in use ----------

  /** Every context on a stack was created before the next identity. */
  ghost predicate IdsBelow(a: seq<ActiveContext>, n: nat) {
    forall key, c :: c in StackOf(a, key) ==> c.id < n
  }

  lemma MoreIds(a: seq<ActiveContext>, n: nat)
    requires IdsBelow(a, n)
    ensures IdsBelow(a, n + 1)
  {}

  lemma {:induction false} PopMembers(s: seq<Context>, live: set<Context>, name: string, toPop: Option<Context>, c: Context)
    requires c in Pop(s, live, name, toPop)
    ensures c in s
  {
    if c !in s[..|s| - 1] && c != s[|s| - 1] {
      PopMembers(s[..|s| - 1], live, name, toPop, c);
    }
  }

  lemma {:induction false} PruneMembers(s: seq<Context>, live: set<Context>, c: Context)
    requires c in Prune(s, live)
    ensures c in s
  {
    if s != [] && s[|s| - 1] !in live {
      PruneMembers(s[..|s| - 1], live, c);
    }
  }

  lemma PushBelow(a: seq<ActiveContext>, c: Context, n: nat)
    requires WellFormed(a) && IdsBelow(a, n) && c.id < n
    ensures IdsBelow(PushActive(a, c), n)
  {
    forall key, d | d in StackOf(PushActive(a, c), key) ensures d.id < n {
      StackOfPush(a, c, key);
    }
  }

  lemma PopBelow(a: seq<ActiveContext>, name: string, toPop: Option<Context>, live: set<Context>, n: nat)
    requires WellFormed(a) && IdsBelow(a, n)
    ensures IdsBelow(PopActive(a, name, toPop, live), n)
  {
    forall key, d | d in StackOf(PopActive(a, name, toPop, live), key) ensures d.id < n {
      StackOfPop(a, name, toPop, live, key);
      if key == name {
        PopMembers(StackOf(a, key), live, name, toPop, d);
      }
    }
  }

  lemma PruneBelow(a: seq<ActiveContext>, live: set<Context>, n: nat)
    requires WellFormed(a) && IdsBelow(a, n)
    ensures IdsBelow(PruneActive(a, live), n)
  {
    forall key, d | d in StackOf(PruneActive(a, live), key) ensures d.id < n {
      StackOfPrune(a, live, key);
      PruneMembers(StackOf(a, key), live, d);
    }
  }

  // ---------- What is reported ----------

  /** The newest live context of its name. */
  ghost predicate IsCurrent(a: seq<ActiveContext>, live: set<Context>, c: Context) {
    LastOf(LiveWith(StackOf(a, c.name), c.name, live)) == Some(c)
  }

  lemma LastLiveOfEntry(a: seq<ActiveContext>, i: nat, live: set<Context>)
    requires WellFormed(a) && i < |a|
    ensures LastLive(a[i].stack, live) == LastOf(LiveWith(StackOf(a, a[i].key), a[i].key, live))
    ensures LastLive(a[i].stack, live).Some? ==> LastLive(a[i].stack, live).value.name == a[i].key
  {
    FindUnique(a, i, a[i].key);
    LastLiveIsLast(a[i].stack, a[i].key, live);
    var l := LiveWith(a[i].stack, a[i].key, live);
    if l != [] {
      LiveWithMembers(a[i].stack, a[i].key, live, l[|l| - 1]);
    }
  }

  lemma {:induction false} ReportMembers(a: seq<ActiveContext>, live: set<Context>, c: Context)
    ensures c in Report(a, live) <==> exists i :: 0 <= i < |a| && LastLive(a[i].stack, live) == Some(c)
  {
    if a != [] {
      var n := |a| - 1;
      ReportMembers(a[..n], live, c);
      if i :| 0 <= i < n && LastLive(a[..n][i].stack, live) == Some(c) {
        assert LastLive(a[i].stack, live) == Some(c);
      }
      if i :| 0 <= i < |a| && LastLive(a[i].stack, live) == Some(c) {
        if i < n {
          assert a[..n][i] == a[i];
        }
      }
    }
  }

  /** The report holds exactly the newest live context of every name that has one. */
  lemma ReportIsCurrent(a: seq<ActiveContext>, live: set<Context>, c: Context)
    requires WellFormed(a)
    ensures c in Report(a, live) <==> IsCurrent(a, live, c)
  {
    ReportMembers(a, live, c);
    if i :| 0 <= i < |a| && LastLive(a[i].stack, live) == Some(c) {
      LastLiveOfEntry(a, i, live);
    }
    if IsCurrent(a, live, c) {
      LastLiveOfEntry(a, Find(a, c.name), live);
    }
  }

  lemma ReportedKey(a: seq<ActiveContext>, live: set<Context>, c: Context)
    requires WellFormed(a) && c in Report(a, live)
    ensures exists k :: 0 <= k < |a| && a[k].key == c.name
  {
    ReportMembers(a, live, c);
    var k :| 0 <= k < |a| && LastLive(a[k].stack, live) == Some(c);
    LastLiveOfEntry(a, k, live);
  }

  lemma {:induction false} ReportOncePerName(a: seq<ActiveContext>, live: set<Context>)
    requires WellFormed(a)
    ensures forall i, j :: 0 <= i < j < |Report(a, live)| ==> Report(a, live)[i].name != Report(a, live)[j].name
    decreases |a|
  {
    if a != [] {
      var n := |a| - 1;
      var front := a[..n];
      var rest := Report(front, live);
      ReportOncePerName(front, live);
      LastLiveOfEntry(a, n, live);
      forall i | 0 <= i < |rest| ensures rest[i].name != a[n].key {
        ReportedKey(front, live, rest[i]);
      }
    }
  }

  /** The list follows the order of the entries, which is the order in which their names were first pushed. */
  lemma {:induction false} ReportInOrder(a: seq<ActiveContext>, live: set<Context>, i: nat, j: nat)
    requires WellFormed(a) && i < j < |Report(a, live)|
    ensures Find(a, Report(a, live)[i].name) < Find(a, Report(a, live)[j].name) < |a|
    decreases |a|
  {
    var n := |a| - 1;
    var front := a[..n];
    var rest := Report(front, live);
    var c, d := Report(a, live)[i], Report(a, live)[j];
    ReportedKey(front, live, rest[i]);
    FindPrefix(a, c.name);
    FindPrefix(a, d.name);
    if j < |rest| {
      ReportInOrder(front, live, i, j);
    } else {
      LastLiveOfEntry(a, n, live);
      FindUnique(a, n, d.name);
      var k :| 0 <= k < |front| && front[k].key == c.name;
      FindUnique(front, k, c.name);
    }
  }

  /** A new name gets the last entry, and all other entries keep their places. */
  lemma PushKeepsOrder(a: seq<ActiveContext>, c: Context, key: string)
    requires WellFormed(a)
    ensures Find(PushActive(a, c), key) == if key == c.name || Find(a, key) < |a| then Find(a, key) else |PushActive(a, c)|
  {
    var b := PushActive(a, c);
    PushWellFormed(a, c);
    if Find(a, key) < |a| {
      FindUnique(b, Find(a, key), key);
    } else if key == c.name {
      FindUnique(b, |a|, key);
    } else {
      assert forall k :: 0 <= k < |b| ==> b[k].key != key;
    }
  }

  lemma {:induction false} PruneIdempotent(s: seq<Context>, live: set<Context>)
    ensures Prune(Prune(s, live), live) == Prune(s, live)
  {
    if s != [] && s[|s| - 1] !in live {
      PruneIdempotent(s[..|s| - 1], live);
    }
  }

  /** Pruning changes nothing that is reported, so a repeated query returns the same list. */
  lemma {:induction false} ReportAfterPrune(a: seq<ActiveContext>, live: set<Context>)
    ensures Report(PruneActive(a, live), live) == Report(a, live)
    decreases |a|
  {
    if a != [] {
      var n := |a| - 1;
      var rest, pruned := PruneActive(a[..n], live), Prune(a[n].stack, live);
      ReportAfterPrune(a[..n], live);
      PruneIdempotent(a[n].stack, live);
      if pruned != [] {
        assert (rest + [ActiveContext(a[n].key, pruned)])[..|rest|] == rest;
      }
    }
  }

  /** Nothing is reported exactly when pruning leaves no entry. */
  lemma {:induction false} EmptyReport(a: seq<ActiveContext>, live: set<Context>)
    ensures |Report(a, live)| == |PruneActive(a, live)|
    decreases |a|
  {
    if a != [] {
      EmptyReport(a[..|a| - 1], live);
    }
  }

  // ---------- Stacks against the history of pushes ----------

  /** The stacks hold exactly the pushed contexts that are still live, each name in the order of the pushes. */
  ghost predicate Tracked(a: seq<ActiveContext>, h: seq<Context>, live: set<Context>) {
    forall name :: LiveWith(StackOf(a, name), name, live) == LiveWith(h, name, live)
  }

  lemma BirthTracked(a: seq<ActiveContext>, h: seq<Context>, live: set<Context>, c: Context)
    requires Tracked(a, h, live) && c !in h && forall name :: c !in StackOf(a, name)
    ensures Tracked(a, h, live + {c})
  {
    forall name ensures LiveWith(StackOf(a, name), name, live + {c}) == LiveWith(h, name, live + {c}) {
      LiveWithBirth(StackOf(a, name), name, live, c);
      LiveWithBirth(h, name, live, c);
    }
  }

  lemma PushTracked(a: seq<ActiveContext>, h: seq<Context>, live: set<Context>, c: Context)
    requires WellFormed(a) && Tracked(a, h, live) && c !in h && forall name :: c !in StackOf(a, name)
    ensures Tracked(PushActive(a, c), h + [c], live + {c})
  {
    BirthTracked(a, h, live, c);
    assert (h + [c])[..|h|] == h;
    forall name ensures LiveWith(StackOf(PushActive(a, c), name), name, live + {c}) == LiveWith(h + [c], name, live + {c}) {
      var s := StackOf(a, name);
      StackOfPush(a, c, name);
      assert (s + [c])[..|s|] == s;
    }
  }

  lemma {:induction false} PruneTracked(a: seq<ActiveContext>, h: seq<Context>, live: set<Context>)
    requires WellFormed(a) && Tracked(a, h, live)
    ensures Tracked(PruneActive(a, live), h, live)
  {
    forall name ensures LiveWith(StackOf(PruneActive(a, live), name), name, live) == LiveWith(h, name, live) {
      StackOfPrune(a, live, name);
      LiveWithPrune(StackOf(a, name), name, live);
    }
  }

  lemma DeathTracked(a: seq<ActiveContext>, h: seq<Context>, live: set<Context>, c: Context)
    requires Tracked(a, h, live)
    ensures Tracked(a, h, live - {c})
  {
    forall name ensures LiveWith(StackOf(a, name), name, live - {c}) == LiveWith(h, name, live - {c}) {
      LiveWithDeath(StackOf(a, name), name, live, c);
      LiveWithDeath(h, name, live, c);
    }
  }

  /**
    The pop at the end of c's lifetime takes no other context: nothing of its name is live, or c is the
    newest, or the newest has another value.
  */
  predicate HarmlessEnd(living: seq<Context>, c: Context) {
    living == [] || living[|living| - 1] == c || living[|living| - 1].value != c.value
  }

  lemma WithoutLast(l: seq<Context>, c: Context)
    requires l != []
    ensures Without(l[..|l| - 1], c) == Without(l, c) <==> l[|l| - 1] == c
  {}

  lemma EndOfName(s: seq<Context>, h: seq<Context>, live: set<Context>, c: Context)
    requires LiveWith(s, c.name, live) == LiveWith(h, c.name, live)
    ensures LiveWith(Pop(s, live, c.name, Some(c)), c.name, live - {c}) == LiveWith(h, c.name, live - {c})
      <==> HarmlessEnd(LiveWith(h, c.name, live), c)
  {
    var l := LiveWith(h, c.name, live);
    LiveWithPop(s, live, c.name, Some(c));
    LiveWithDeath(Pop(s, live, c.name, Some(c)), c.name, live, c);
    LiveWithDeath(h, c.name, live, c);
    if l != [] {
      WithoutLast(l, c);
    }
  }

  /** A lifetime that ends keeps the stacks right exactly when its pop is harmless. */
  lemma EndTracked(a: seq<ActiveContext>, h: seq<Context>, live: set<Context>, c: Context)
    requires WellFormed(a) && Tracked(a, h, live)
    ensures Tracked(PopActive(a, c.name, Some(c), live), h, live - {c}) <==> HarmlessEnd(LiveWith(h, c.name, live), c)
  {
    var b := PopActive(a, c.name, Some(c), live);
    DeathTracked(a, h, live, c);
    StackOfPop(a, c.name, Some(c), live, c.name);
    EndOfName(StackOf(a, c.name), h, live, c);
    if HarmlessEnd(LiveWith(h, c.name, live), c) {
      forall name ensures LiveWith(StackOf(b, name), name, live - {c}) == LiveWith(h, name, live - {c}) {
        StackOfPop(a, c.name, Some(c), live, name);
      }
    }
  }

  /**
    What is reported after a pop: by name, or by a value that agrees with the newest living context of the name,
    the next older one of the name. Otherwise, and of other names, the newest.
  */
  predicate CurrentAfterPop(h: seq<Context>, live: set<Context>, name: string, toPop: Option<Context>, c: Context) {
    var l := LiveWith(h, name, live);
    if c.name == name && l != [] && (toPop.None? || l[|l| - 1].value == toPop.value.value) then |l| > 1 && c == l[|l| - 2]
    else LastOf(LiveWith(h, c.name, live)) == Some(c)
  }

  ghost predicate ReportedAfterPop(reported: seq<Context>, h: seq<Context>, live: set<Context>, name: string, toPop: Option<Context>) {
    forall c :: c in reported <==> CurrentAfterPop(h, live, name, toPop, c)
  }

  lemma ContextAfterPop(a: seq<ActiveContext>, h: seq<Context>, live: set<Context>, name: string, toPop: Option<Context>, c: Context)
    requires WellFormed(a) && Tracked(a, h, live)
    ensures c in Report(PopActive(a, name, toPop, live), live) <==> CurrentAfterPop(h, live, name, toPop, c)
  {
    var b, l := PopActive(a, name, toPop, live), LiveWith(h, c.name, live);
    StackOfPop(a, name, toPop, live, c.name);
    ReportIsCurrent(b, live, c);
    assert LiveWith(StackOf(a, c.name), c.name, live) == l;
    if c.name == name {
      LiveWithPop(StackOf(a, name), live, name, toPop);
    } else {
      assert LiveWith(StackOf(b, c.name), c.name, live) == l;
    }
  }

  lemma ReportAfterPop(a: seq<ActiveContext>, h: seq<Context>, live: set<Context>, name: string, toPop: Option<Context>)
    requires WellFormed(a) && Tracked(a, h, live)
    ensures ReportedAfterPop(Report(PopActive(a, name, toPop, live), live), h, live, name, toPop)
  {
    forall c ensures c in Report(PopActive(a, name, toPop, live), live) <==> CurrentAfterPop(h, live, name, toPop, c) {
      ContextAfterPop(a, h, live, name, toPop, c);
    }
  }

  /** No two contexts of one name that are live at the same time have the same value. */
  ghost predicate DistinctValues(h: seq<Context>, live: set<Context>) {
    forall c, d :: c in h && d in h && c in live && d in live && c.name == d.name && c.value == d.value ==> c == d
  }

  /** With distinct values every lifetime may end at any time, in any order. */
  lemma {:induction false} DistinctIsHarmless(h: seq<Context>, live: set<Context>, c: Context)
    requires DistinctValues(h, live) && c in h && c in live
    ensures HarmlessEnd(LiveWith(h, c.name, live), c)
  {
    var l := LiveWith(h, c.name, live);
    if l != [] {
      LiveWithMembers(h, c.name, live, l[|l| - 1]);
    }
  }

  /** With equal values, ending the older lifetime first takes the newer context off the stack. */
  lemma EqualValuesLoseALiveContext()
    ensures var c, d := Context(0, "user", "x"), Context(1, "user", "x");
      var a := PushActive(PushActive([], c), d);
      && LiveWith([c, d], "user", {c, d} - {c}) == [d]
      && Report(PopActive(a, "user", Some(c), {c, d}), {c, d} - {c}) == []
  {
    var c, d := Context(0, "user", "x"), Context(1, "user", "x");
    var a := PushActive(PushActive([], c), d);
    assert PushActive([], c) == [ActiveContext("user", [c])];
    assert [c] + [d] == [c, d] && [c, d][..1] == [c];
    assert a == [ActiveContext("user", [c, d])];
    var b := PopActive(a, "user", Some(c), {c, d});
    assert b == [ActiveContext("user", [c])];
    assert LiveWith([c], "user", {d}) == [] && Prune([c], {d}) == [];
    assert {c, d} - {c} == {d};
    assert b[..0] == [];
  }
}
