/**
  Per-thread operation contexts, from vlr-util/ThreadOperationContext.h and
  vlr-util/ThreadOperationContext.cpp. The thread that runs a call is a parameter. The set live
  holds the contexts that a lifetime object still owns: exactly those references can be locked.
*/
module ThreadOperationContext {
  import opened ContextStacks
  import opened Wrappers

  type ThreadId = int

  datatype Status = Success | SuccessWithNuance | SuccessNoWorkDone | Unexpected

  class CPerThreadContext {
    var active: seq<ActiveContext>

    constructor ()
      ensures active == []
    {
      active := [];
    }

    /** The index of the key's entry, which is added at the end if it has to exist; -1 if there is none. */
    method FindActiveContext(name: string, ensureExists: bool) returns (status: Status, index: int)
      modifies this
      ensures status == if index == -1 then SuccessWithNuance else Success
      ensures Find(old(active), name) < |old(active)| ==> index == Find(old(active), name) && active == old(active)
      ensures Find(old(active), name) == |old(active)| ==>
        if ensureExists then index == |old(active)| && active == old(active) + [ActiveContext(name, [])]
        else index == -1 && active == old(active)
    {
      var i := 0;
      while i < |active| && active[i].key != name
        invariant i <= |active| && active == old(active)
        invariant forall k :: 0 <= k < i ==> active[k].key != name
      {
        i := i + 1;
      }
      FindIsFirst(active, i, name);
      if i < |active| {
        return Success, i;
      }
      if !ensureExists {
        return SuccessWithNuance, -1;
      }
      active := active + [ActiveContext(name, [])];
      return Success, |active| - 1;
    }

    method PushContext(c: Option<Context>) returns (status: Status)
      modifies this
      ensures c.None? ==> status == Unexpected && active == old(active)
      ensures c.Some? ==> status == Success && active == PushActive(old(active), c.value)
    {
      if c.None? {
        return Unexpected;
      }
      var index: int;
      status, index := FindActiveContext(c.value.name, true);
      assert [] + [c.value] == [c.value];
      active := active[index := ActiveContext(active[index].key, active[index].stack + [c.value])];
      status := Success;
    }

    method PopContext(name: string, toPop: Option<Context>, live: set<Context>) returns (status: Status)
      modifies this
      ensures active == PopActive(old(active), name, toPop, live)
      ensures status == PopStatus(old(active), active, name)
    {
      var index: int;
      status, index := FindActiveContext(name, false);
      if status != Success {
        return SuccessWithNuance;
      }
      var stack := active[index].stack;
      while stack != []
        invariant Pop(stack, live, name, toPop) == Pop(active[index].stack, live, name, toPop)
        decreases |stack|
      {
        var below, top := stack[..|stack| - 1], stack[|stack| - 1];
        if top !in live {
          stack := below;
          continue;
        }
        if top.name != name {
          stack := below;
          continue;
        }
        if toPop.Some? && top.value != toPop.value.value {
          break;
        }
        stack := below;
        break;
      }
      active := active[index := ActiveContext(name, stack)];
      FindIsFirst(active, index, name);
      status := if stack == [] then Success else SuccessWithNuance;
    }

    /** The number of dead references on top of a stack. */
    method CountToTruncate(stack: seq<Context>, live: set<Context>) returns (count: nat)
      ensures count <= |stack| && stack[..|stack| - count] == Prune(stack, live)
    {
      count := 0;
      assert stack[..|stack|] == stack;
      while count < |stack| && stack[|stack| - 1 - count] !in live
        invariant count <= |stack|
        invariant Prune(stack[..|stack| - count], live) == Prune(stack, live)
      {
        var rest := stack[..|stack| - count];
        assert rest[..|rest| - 1] == stack[..|stack| - count - 1];
        count := count + 1;
      }
    }

    /** Adds the topmost live context of every entry to the list and cleans up on the way. */
    method PopulateThreadOperationContext(live: set<Context>, listed: seq<Context>) returns (result: seq<Context>)
      modifies this
      ensures active == PruneActive(old(active), live)
      ensures result == listed + Report(old(active), live)
    {
      ghost var before := active;
      result := ReportAndTruncate(live, listed);
      PruneThenDrop(before, active, live);
      active := RemoveEmpty(active);
    }

    method ReportAndTruncate(live: set<Context>, listed: seq<Context>) returns (result: seq<Context>)
      modifies this
      ensures PrunedUpTo(old(active), active, |active|, live)
      ensures result == listed + Report(old(active), live)
    {
      result := listed;
      ghost var before := active;
      for i := 0 to |active|
        invariant PrunedUpTo(before, active, i, live)
        invariant result == listed + Report(before[..i], live)
      {
        PrunedNext(before, active, i, live);
        ReportNext(before, i, live);
        var top := TruncateAt(i, live);
        if top.Some? {
          result := result + [top.value];
        }
      }
      assert before[..|active|] == before;
    }

    /** Truncates the stack of one entry, and finds its topmost live context. */
    method TruncateAt(i: nat, live: set<Context>) returns (top: Option<Context>)
      requires i < |active|
      modifies this
      ensures active == old(active)[i := ActiveContext(old(active)[i].key, Prune(old(active)[i].stack, live))]
      ensures top == LastLive(old(active)[i].stack, live)
    {
      var stack := active[i].stack;
      var countToTruncate := CountToTruncate(stack, live);
      var pruned := stack[..|stack| - countToTruncate];
      top := if pruned == [] then None else Some(pruned[|pruned| - 1]);
      active := active[i := ActiveContext(active[i].key, pruned)];
    }

    /** The entries whose stacks are not empty, in their order. */
    method RemoveEmpty(a: seq<ActiveContext>) returns (kept: seq<ActiveContext>)
      ensures kept == DropEmpty(a)
    {
      kept := [];
      for i := 0 to |a|
        invariant kept == DropEmpty(a[..i])
      {
        assert a[..i + 1][..i] == a[..i];
        if a[i].stack != [] {
          kept := kept + [a[i]];
        }
      }
      assert a[..|a|] == a;
    }
  }

  /** Every context pushed on any thread was created before the next identity. */
  ghost predicate HistoryBelow(pushed: map<ThreadId, seq<Context>>, n: nat) {
    forall t, c :: t in pushed && c in pushed[t] ==> c.id < n
  }

  lemma HistoryGrows(pushed: map<ThreadId, seq<Context>>, t: ThreadId, c: Context)
    requires HistoryBelow(pushed, c.id)
    ensures HistoryBelow(pushed[t := (if t in pushed then pushed[t] else []) + [c]], c.id + 1)
  {}

  /** What a pop reports: whether it found the name's stack and left it empty. */
  function PopStatus(before: seq<ActiveContext>, after: seq<ActiveContext>, name: string): Status {
    if Find(before, name) < |before| && StackOf(after, name) == [] then Success else SuccessWithNuance
  }

  /**
    A pop reports success exactly if the name had an entry and the pop left nothing below the topmost live context
    of the name, whose place is n; dead references below it count.
  */
  lemma PopSucceedsIff(a: seq<ActiveContext>, name: string, toPop: Option<Context>, live: set<Context>, n: int)
    requires WellFormed(a) && -1 <= n < |StackOf(a, name)|
    requires n >= 0 ==> Poppable(StackOf(a, name)[n], live, name)
    requires forall i :: n < i < |StackOf(a, name)| ==> !Poppable(StackOf(a, name)[i], live, name)
    ensures PopStatus(a, PopActive(a, name, toPop, live), name) == Success <==>
      && (exists i :: 0 <= i < |a| && a[i].key == name)
      && (n == -1 || (n == 0 && (toPop.None? || StackOf(a, name)[0].value == toPop.value.value)))
    ensures PopStatus(a, PopActive(a, name, toPop, live), name) in {Success, SuccessWithNuance}
  {
    StackOfPop(a, name, toPop, live, name);
    PopByPlace(StackOf(a, name), live, name, toPop, n);
    if Find(a, name) < |a| {
      assert a[Find(a, name)].key == name;
    }
  }

  lemma ReportNext(a: seq<ActiveContext>, i: nat, live: set<Context>)
    requires i < |a|
    ensures Report(a[..i + 1], live) == var top := LastLive(a[i].stack, live);
      if top.None? then Report(a[..i], live) else Report(a[..i], live) + [top.value]
  {
    assert a[..i + 1][..i] == a[..i];
  }

  lemma {:induction false} FindIsFirst(a: seq<ActiveContext>, i: nat, key: string)
    requires i <= |a| && (i < |a| ==> a[i].key == key) && forall k :: 0 <= k < i ==> a[k].key != key
    ensures Find(a, key) == i
  {}

  class CThreadOperationContext {
    var threads: map<ThreadId, CPerThreadContext>
    var live: set<Context>
    var nextId: nat

    // All contexts ever pushed on a thread, oldest first.
    ghost var pushed: map<ThreadId, seq<Context>>

    ghost function Active(t: ThreadId): seq<ActiveContext>
      reads this`threads, threads.Values
    {
      if t in threads then threads[t].active else []
    }

    ghost function Pushed(t: ThreadId): seq<Context>
      reads this`pushed
    {
      if t in pushed then pushed[t] else []
    }

    /** The contexts of a name pushed on the thread whose lifetimes have not ended, oldest first. */
    ghost function Living(t: ThreadId, name: string): seq<Context>
      reads this`pushed, this`live
    {
      LiveWith(Pushed(t), name, live)
    }

    ghost predicate Valid()
      reads this, threads.Values
    {
      && (forall t, u :: t in threads && u in threads && t != u ==> threads[t] != threads[u])
      && (forall t :: t in threads ==> WellFormed(threads[t].active) && IdsBelow(threads[t].active, nextId))
      && HistoryBelow(pushed, nextId)
      && (forall c :: c in live ==> c.id < nextId)
    }

    /** Every thread's stacks hold exactly its living contexts, in the order they were pushed. */
    ghost predicate TracksAll()
      reads this, threads.Values
    {
      forall t :: Tracked(Active(t), Pushed(t), live)
    }

    constructor ()
      ensures Valid() && TracksAll() && threads == map[] && live == {} && pushed == map[]
    {
      threads, live, nextId, pushed := map[], {}, 0, map[];
    }

    method GetCurrentThreadContext(t: ThreadId, ensureExistsInMap: bool) returns (status: Status, r: CPerThreadContext?)
      requires Valid()
      modifies this`threads
      ensures Valid()
      ensures t in old(threads) ==> status == Success && threads == old(threads) && r == threads[t]
      ensures t !in old(threads) && !ensureExistsInMap ==> status == SuccessNoWorkDone && threads == old(threads) && r == null
      ensures t !in old(threads) && ensureExistsInMap ==>
        status == Success && r != null && fresh(r) && threads == old(threads)[t := r] && r.active == []
      ensures forall u :: Active(u) == old(Active(u))
    {
      if ensureExistsInMap {
        if t !in threads {
          var c := new CPerThreadContext();
          threads := threads[t := c];
        }
        return Success, threads[t];
      }
      if t !in threads {
        return SuccessNoWorkDone, null;
      }
      return Success, threads[t];
    }

    method ClearCurrentThreadContext(t: ThreadId) returns (status: Status)
      requires Valid()
      modifies this`threads
      ensures Valid() && status == Success && threads == old(threads) - {t}
      ensures forall u :: u != t ==> Active(u) == old(Active(u))
      ensures Active(t) == []
    {
      threads := threads - {t};
      status := Success;
    }

    /** The context reported for a name on a thread: the newest one whose lifetime has not ended. */
    ghost predicate IsReported(t: ThreadId, c: Context)
      reads this`pushed, this`live
    {
      LastOf(Living(t, c.name)) == Some(c)
    }

    /** What is listed is what the living contexts say, once for every name. */
    lemma ReportIsRight(t: ThreadId)
      requires Valid()
      ensures forall i, j :: 0 <= i < j < |Report(Active(t), live)| ==> Report(Active(t), live)[i].name != Report(Active(t), live)[j].name
      ensures TracksAll() ==> forall c :: c in Report(Active(t), live) <==> IsReported(t, c)
    {
      ReportOncePerName(Active(t), live);
      if TracksAll() {
        assert Tracked(Active(t), Pushed(t), live);
        forall c ensures c in Report(Active(t), live) <==> IsReported(t, c) {
          ReportIsCurrent(Active(t), live, c);
        }
      }
    }

    /** The list of the thread's current contexts; asking again gives the same list. */
    method PopulateThreadOperationContext(t: ThreadId, listed: seq<Context>) returns (status: Status, result: seq<Context>)
      requires Valid()
      modifies this`threads, threads.Values
      ensures fresh(threads.Values - old(threads.Values))
      ensures Valid()
      ensures result == listed + Report(old(Active(t)), live)
      ensures status == if t in old(threads) && result != [] then Success else SuccessNoWorkDone
      ensures Active(t) == PruneActive(old(Active(t)), live) && Report(Active(t), live) == Report(old(Active(t)), live)
      ensures forall u :: u != t ==> Active(u) == old(Active(u))
      ensures old(TracksAll()) ==> TracksAll() && forall c :: c in Report(Active(t), live) <==> IsReported(t, c)
    {
      status, result := PopulateAndTidy(t, listed);
      if old(TracksAll()) {
        assert Tracked(old(Active(t)), Pushed(t), live);
        PruneTracked(old(Active(t)), Pushed(t), live);
        forall u ensures Tracked(Active(u), Pushed(u), live) {
          assert old(Tracked(Active(u), Pushed(u), live));
        }
      }
      ReportIsRight(t);
    }

    method PopulateAndTidy(t: ThreadId, listed: seq<Context>) returns (status: Status, result: seq<Context>)
      requires Valid()
      modifies this`threads, threads.Values
      ensures fresh(threads.Values - old(threads.Values))
      ensures Valid()
      ensures result == listed + Report(old(Active(t)), live)
      ensures status == if t in old(threads) && result != [] then Success else SuccessNoWorkDone
      ensures Active(t) == PruneActive(old(Active(t)), live) && Report(Active(t), live) == Report(old(Active(t)), live)
      ensures forall u :: u != t ==> Active(u) == old(Active(u))
    {
      var current: CPerThreadContext?;
      status, current := GetCurrentThreadContext(t, false);
      if current == null {
        result := listed;
        return;
      }
      result := PopulateFor(t, listed);
      status := ClearIfEmpty(t, result);
    }

    /** A thread without any context does not need its entry. */
    method ClearIfEmpty(t: ThreadId, result: seq<Context>) returns (status: Status)
      requires Valid() && (result == [] ==> Active(t) == [])
      modifies this`threads
      ensures Valid() && status == (if result != [] then Success else SuccessNoWorkDone)
      ensures threads.Values <= old(threads.Values)
      ensures forall u :: Active(u) == old(Active(u))
    {
      if result == [] {
        status := ClearCurrentThreadContext(t);
        return SuccessNoWorkDone;
      }
      return Success;
    }

    method PopulateFor(t: ThreadId, listed: seq<Context>) returns (result: seq<Context>)
      requires Valid() && t in threads
      modifies threads[t]
      ensures Valid()
      ensures result == listed + Report(old(Active(t)), live)
      ensures Active(t) == PruneActive(old(Active(t)), live) && Report(Active(t), live) == Report(old(Active(t)), live)
      ensures result == [] ==> Active(t) == []
      ensures forall u :: u != t ==> Active(u) == old(Active(u))
    {
      var current := threads[t];
      EmptyReport(current.active, live);
      ReportAfterPrune(current.active, live);
      PruneActiveKeys(current.active, live);
      PruneBelow(current.active, live, nextId);
      result := current.PopulateThreadOperationContext(live, listed);
    }

    /** A new context, owned by the handle that is returned. */
    method PushContext(t: ThreadId, name: string, value: string) returns (status: Status, c: Context)
      requires Valid()
      modifies this, threads.Values
      ensures fresh(threads.Values - old(threads.Values))
      ensures Valid() && status == Success
      ensures c == Context(old(nextId), name, value) && nextId == old(nextId) + 1
      ensures live == old(live) + {c} && pushed == old(pushed)[t := old(Pushed(t)) + [c]]
      ensures Active(t) == PushActive(old(Active(t)), c)
      ensures forall u :: u != t ==> Active(u) == old(Active(u))
    {
      c := Context(nextId, name, value);
      var current: CPerThreadContext?;
      status, current := GetCurrentThreadContext(t, true);
      status := PushOnto(t, c);
    }

    method PushOnto(t: ThreadId, c: Context) returns (status: Status)
      requires Valid() && t in threads && c.id == nextId
      modifies this`nextId, this`live, this`pushed, threads[t]
      ensures Valid() && status == Success
      ensures nextId == old(nextId) + 1
      ensures live == old(live) + {c} && pushed == old(pushed)[t := old(Pushed(t)) + [c]]
      ensures Active(t) == PushActive(old(Active(t)), c)
      ensures forall u :: u != t ==> Active(u) == old(Active(u))
    {
      var current := threads[t];
      PushWellFormed(current.active, c);
      MoreIds(current.active, nextId);
      PushBelow(current.active, c, nextId + 1);
      status := current.PushContext(Some(c));
      forall u | u in threads && u != t ensures IdsBelow(threads[u].active, nextId + 1) {
        MoreIds(threads[u].active, nextId);
      }
      HistoryGrows(pushed, t, c);
      pushed := pushed[t := Pushed(t) + [c]];
      live := live + {c};
      nextId := nextId + 1;
    }

    method PopContext(t: ThreadId, name: string, toPop: Option<Context>) returns (status: Status)
      requires Valid()
      modifies threads.Values
      ensures Valid()
      ensures Active(t) == PopActive(old(Active(t)), name, toPop, live) && status == PopStatus(old(Active(t)), Active(t), name)
      ensures forall u :: u != t ==> Active(u) == old(Active(u))
      ensures old(TracksAll()) ==> ReportedAfterPop(Report(Active(t), live), Pushed(t), live, name, toPop)
    {
      if TracksAll() {
        assert Tracked(Active(t), Pushed(t), live);
        ReportAfterPop(Active(t), Pushed(t), live, name, toPop);
      }
      status := PopOn(t, name, toPop);
    }

    method PopOn(t: ThreadId, name: string, toPop: Option<Context>) returns (status: Status)
      requires Valid()
      modifies threads.Values
      ensures Valid()
      ensures Active(t) == PopActive(old(Active(t)), name, toPop, live) && status == PopStatus(old(Active(t)), Active(t), name)
      ensures forall u :: u != t ==> Active(u) == old(Active(u))
    {
      if t !in threads {
        return SuccessWithNuance;
      }
      var current := threads[t];
      StackOfPop(current.active, name, toPop, live, name);
      PopBelow(current.active, name, toPop, live, nextId);
      status := current.PopContext(name, toPop, live);
    }

    // ---------- Lifetimes ----------

    /** The next context is in no history, on no stack and not alive. */
    lemma NextIsNew(c: Context)
      requires Valid() && c.id == nextId
      ensures c !in live && forall t :: c !in Pushed(t) && forall name :: c !in StackOf(Active(t), name)
    {}

    lemma NewIsReported(t: ThreadId, c: Context, h: seq<Context>)
      requires Pushed(t) == h + [c] && c in live
      ensures IsReported(t, c)
    {}

    /** Starts a lifetime: from here on its context is the one reported for its name. */
    method AddOperationContext(t: ThreadId, name: string, value: string) returns (lifetime: Option<Context>)
      requires Valid()
      modifies this, threads.Values
      ensures fresh(threads.Values - old(threads.Values))
      ensures Valid()
      ensures lifetime.Some? && lifetime.value == Context(old(nextId), name, value)
      ensures live == old(live) + {lifetime.value} && Pushed(t) == old(Pushed(t)) + [lifetime.value]
      ensures forall u :: u != t ==> Active(u) == old(Active(u)) && Pushed(u) == old(Pushed(u))
      ensures old(TracksAll()) ==> TracksAll()
      ensures IsReported(t, lifetime.value)
    {
      ghost var c0 := Context(nextId, name, value);
      NextIsNew(c0);
      forall u | Tracked(Active(u), Pushed(u), live)
        ensures Tracked(Active(u), Pushed(u), live + {c0})
        ensures Tracked(PushActive(Active(u), c0), Pushed(u) + [c0], live + {c0})
      {
        BirthTracked(Active(u), Pushed(u), live, c0);
        PushTracked(Active(u), Pushed(u), live, c0);
      }
      ghost var h := Pushed(t);
      var status, c := PushContext(t, name, value);
      lifetime := Some(c);
      NewIsReported(t, c, h);
    }

    /**
      While living contexts of one name on one thread have distinct values, a lifetime may end at any
      time on the thread that started it.
    */
    lemma DistinctLivesEndSafely(t: ThreadId, c: Context)
      requires DistinctValues(Pushed(t), live) && c in Pushed(t) && c in live
      ensures HarmlessEnd(Living(t, c.name), c)
    {
      DistinctIsHarmless(Pushed(t), live, c);
    }

    /**
      The end of a lifetime on thread t: its context is popped while it is still owned, then it dies.
      The stacks stay right exactly when that pop takes no other context.
    */
    method EndLifetime(t: ThreadId, lifetime: Option<Context>) returns (status: Status)
      requires Valid()
      modifies this`live, threads.Values
      ensures Valid()
      ensures lifetime.None? ==> status == SuccessNoWorkDone && live == old(live) && Active(t) == old(Active(t))
      ensures lifetime.Some? ==> var c := lifetime.value;
        && live == old(live) - {c}
        && Active(t) == PopActive(old(Active(t)), c.name, Some(c), old(live))
        && status == PopStatus(old(Active(t)), Active(t), c.name)
      ensures forall u :: u != t ==> Active(u) == old(Active(u))
      ensures old(TracksAll()) ==>
        (TracksAll() <==> lifetime.None? || HarmlessEnd(old(Living(t, lifetime.value.name)), lifetime.value))
      // so they do in whatever order lifetimes end, while living contexts of one name have distinct values
      ensures old(TracksAll()) && lifetime.Some? && old(lifetime.value in Pushed(t) && lifetime.value in live && DistinctValues(Pushed(t), live)) ==>
        TracksAll()
    {
      if lifetime.None? {
        return SuccessNoWorkDone;
      }
      var c := lifetime.value;
      if c in Pushed(t) && c in live && DistinctValues(Pushed(t), live) {
        DistinctLivesEndSafely(t, c);
      }
      status := PopAndRelease(t, c);
      if old(TracksAll()) {
        assert old(Tracked(Active(t), Pushed(t), live));
        EndTracked(old(Active(t)), Pushed(t), old(live), c);
        forall u | u != t ensures Tracked(Active(u), Pushed(u), live) {
          assert old(Tracked(Active(u), Pushed(u), live));
          DeathTracked(Active(u), Pushed(u), old(live), c);
        }
      }
    }

    method PopAndRelease(t: ThreadId, c: Context) returns (status: Status)
      requires Valid()
      modifies this`live, threads.Values
      ensures Valid() && live == old(live) - {c}
      ensures Active(t) == PopActive(old(Active(t)), c.name, Some(c), old(live))
      ensures status == PopStatus(old(Active(t)), Active(t), c.name)
      ensures forall u :: u != t ==> Active(u) == old(Active(u))
    {
      status := PopOn(t, c.name, Some(c));
      live := live - {c};
    }
  }
}
