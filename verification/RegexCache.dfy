/**
  The cache of vlr-util/RegexCache.cpp. A call is one section under a shared lock and, on a miss, one
  under an exclusive lock; compilation is a deterministic partial function that the caller supplies.
*/
module RegexCache {
  import opened Wrappers

  datatype Status = Success | SuccessWithNuance

  function StatusOf<R>(r: Option<R>): Status {
    if r.Some? then Success else SuccessWithNuance
  }

  /** The entry after the exclusive section: a compilation that throws leaves what was there. */
  function Written<R>(cache: map<string, Option<R>>, p: string, compiled: Option<R>): Option<R> {
    if compiled.Some? then compiled else if p in cache then cache[p] else None
  }

  /** Every entry is what compiling its own pattern gives; a null entry is a pattern that does not compile. */
  ghost predicate Right<R(!new)>(cache: map<string, Option<R>>, compile: string -> Option<R>) {
    forall p :: p in cache ==> cache[p] == compile(p)
  }

  lemma WrittenIsRight<R(!new)>(cache: map<string, Option<R>>, p: string, compile: string -> Option<R>)
    requires Right(cache, compile)
    ensures Written(cache, p, compile(p)) == compile(p)
    ensures Right(cache[p := Written(cache, p, compile(p))], compile)
    ensures p in cache ==> cache[p := Written(cache, p, compile(p))] == cache
  {}

  // ---------- Any number of threads ----------

  type ThreadId = int

  /** Where a thread is in its call. */
  datatype Phase<R> =
    | Outside
    | BeforeShared(pattern: string)
    | BeforeExclusive(pattern: string)
    | Returned(pattern: string, status: Status, result: Option<R>)

  datatype State<R> = State(cache: map<string, Option<R>>, threads: map<ThreadId, Phase<R>>)

  datatype Event = Call(t: ThreadId, pattern: string) | Shared(t: ThreadId) | Exclusive(t: ThreadId)

  function PhaseOf<R>(s: State<R>, t: ThreadId): Phase<R> {
    if t in s.threads then s.threads[t] else Outside
  }

  predicate Enabled<R>(s: State<R>, e: Event) {
    match e
    case Call(t, _) => PhaseOf(s, t).Outside? || PhaseOf(s, t).Returned?
    case Shared(t) => PhaseOf(s, t).BeforeShared?
    case Exclusive(t) => PhaseOf(s, t).BeforeExclusive?
  }

  function Step<R>(compile: string -> Option<R>, s: State<R>, e: Event): State<R>
    requires Enabled(s, e)
  {
    match e
    case Call(t, p) => s.(threads := s.threads[t := BeforeShared(p)])
    case Shared(t) =>
      var p := PhaseOf(s, t).pattern;
      var next := if p in s.cache then Returned(p, StatusOf(s.cache[p]), s.cache[p]) else BeforeExclusive(p);
      s.(threads := s.threads[t := next])
    case Exclusive(t) =>
      var p := PhaseOf(s, t).pattern;
      var r := Written(s.cache, p, compile(p));
      State(s.cache[p := r], s.threads[t := Returned(p, StatusOf(r), r)])
  }

  /** The state after a run, if the events are one: each must be enabled where it occurs. */
  function After<R>(compile: string -> Option<R>, events: seq<Event>): Option<State<R>> {
    if events == [] then Some(State(map[], map[]))
    else
      var s, e := After(compile, events[..|events| - 1]), events[|events| - 1];
      if s.Some? && Enabled(s.value, e) then Some(Step(compile, s.value, e)) else None
  }

  /** The pattern of the thread's latest call. */
  function LatestPattern(events: seq<Event>, t: ThreadId): Option<string> {
    if events == [] then None
    else
      var n := |events| - 1;
      if events[n].Call? && events[n].t == t then Some(events[n].pattern) else LatestPattern(events[..n], t)
  }

  ghost predicate OwnPattern<R>(phase: Phase<R>, latest: Option<string>) {
    if phase.Outside? then latest == None else latest == Some(phase.pattern)
  }

  /** What a thread got back is the compilation of the pattern it asked for, null exactly if there is none. */
  ghost predicate GotOwn<R(!new)>(compile: string -> Option<R>, phase: Phase<R>) {
    phase.Returned? ==> phase.result == compile(phase.pattern) && (phase.status == Success <==> compile(phase.pattern).Some?)
  }

  lemma StepIsRight<R(!new)>(compile: string -> Option<R>, s: State<R>, e: Event, u: ThreadId)
    requires Enabled(s, e) && Right(s.cache, compile) && GotOwn(compile, PhaseOf(s, u))
    ensures Right(Step(compile, s, e).cache, compile) && GotOwn(compile, PhaseOf(Step(compile, s, e), u))
  {}

  /** In every run every thread gets the compilation of its own latest pattern. */
  lemma {:induction false} RunIsRight<R(!new)>(compile: string -> Option<R>, events: seq<Event>, s: State<R>, t: ThreadId)
    requires After(compile, events) == Some(s)
    ensures Right(s.cache, compile)
    ensures GotOwn(compile, PhaseOf(s, t))
    ensures OwnPattern(PhaseOf(s, t), LatestPattern(events, t))
  {
    if events != [] {
      var before, e := events[..|events| - 1], events[|events| - 1];
      var s' := After(compile, before).value;
      RunIsRight(compile, before, s', t);
      StepIsRight(compile, s', e, t);
      RunIsRight(compile, before, s', e.t);
    }
  }

  /** What a call has returned for stays cached. */
  lemma {:induction false} ReturnedIsCached<R(!new)>(compile: string -> Option<R>, events: seq<Event>, s: State<R>, t: ThreadId)
    requires After(compile, events) == Some(s) && PhaseOf(s, t).Returned?
    ensures PhaseOf(s, t).pattern in s.cache
  {
    if events != [] {
      var before := events[..|events| - 1];
      var s' := After(compile, before).value;
      if PhaseOf(s', t).Returned? {
        ReturnedIsCached(compile, before, s', t);
      }
    }
  }

  /** A pattern is compiled exactly if it is not cached when a thread looks; one that does not compile is cached too. */
  lemma CompiledOnlyIfMissing<R(!new)>(compile: string -> Option<R>, events: seq<Event>, s: State<R>, t: ThreadId)
    requires After(compile, events) == Some(s) && PhaseOf(s, t).BeforeShared?
    ensures var p, next := PhaseOf(s, t).pattern, PhaseOf(Step(compile, s, Shared(t)), t);
      && (next == BeforeExclusive(p) <==> p !in s.cache)
      && (p in s.cache ==> next == Returned(p, if compile(p).Some? then Success else SuccessWithNuance, compile(p)))
  {
    RunIsRight(compile, events, s, t);
  }

  /**
    Two threads may both miss and compile the same pattern; the second exclusive section then leaves the
    cache as it is.
  */
  lemma SecondCompilationChangesNothing<R(!new)>(compile: string -> Option<R>, events: seq<Event>, s: State<R>, t: ThreadId)
    requires After(compile, events) == Some(s) && PhaseOf(s, t).BeforeExclusive? && PhaseOf(s, t).pattern in s.cache
    ensures Step(compile, s, Exclusive(t)).cache == s.cache
  {
    RunIsRight(compile, events, s, t);
    WrittenIsRight(s.cache, PhaseOf(s, t).pattern, compile);
  }

  lemma OneAsks<R(!new)>(compile: string -> Option<R>, p: string) returns (s: State<R>)
    ensures After(compile, [Call(0, p)]) == Some(s) && s == State(map[], map[0 := BeforeShared(p)])
  {
    s := State(map[], map[0 := BeforeShared(p)]);
    assert [Call(0, p)][..0] == [];
  }

  lemma BothAsk<R(!new)>(compile: string -> Option<R>, p: string) returns (s: State<R>)
    ensures After(compile, [Call(0, p), Call(1, p)]) == Some(s)
    ensures PhaseOf(s, 0) == PhaseOf(s, 1) == BeforeShared(p) && s.cache == map[]
  {
    s := OneAsks(compile, p);
    s := RunExtends(compile, [Call(0, p)], s, Call(1, p), [Call(0, p), Call(1, p)]);
  }

  lemma BothMiss<R(!new)>(compile: string -> Option<R>, p: string) returns (s: State<R>)
    ensures After(compile, [Call(0, p), Call(1, p), Shared(0), Shared(1)]) == Some(s)
    ensures PhaseOf(s, 0) == PhaseOf(s, 1) == BeforeExclusive(p)
  {
    s := BothAsk(compile, p);
    s := RunExtends(compile, [Call(0, p), Call(1, p)], s, Shared(0), [Call(0, p), Call(1, p), Shared(0)]);
    s := RunExtends(compile, [Call(0, p), Call(1, p), Shared(0)], s, Shared(1), [Call(0, p), Call(1, p), Shared(0), Shared(1)]);
  }

  /** Such a run exists: two threads ask for one pattern and both look before either has compiled. */
  lemma CompiledTwice<R(!new)>(compile: string -> Option<R>, p: string) returns (s: State<R>)
    ensures After(compile, [Call(0, p), Call(1, p), Shared(0), Shared(1), Exclusive(0)]) == Some(s)
    ensures PhaseOf(s, 1) == BeforeExclusive(p) && p in s.cache
  {
    s := BothMiss(compile, p);
    var events := [Call(0, p), Call(1, p), Shared(0), Shared(1)];
    s := RunExtends(compile, events, s, Exclusive(0), [Call(0, p), Call(1, p), Shared(0), Shared(1), Exclusive(0)]);
  }

  lemma RunExtends<R(!new)>(compile: string -> Option<R>, events: seq<Event>, s: State<R>, e: Event, longer: seq<Event>)
    returns (next: State<R>)
    requires After(compile, events) == Some(s) && Enabled(s, e) && longer == events + [e]
    ensures next == Step(compile, s, e) && After(compile, longer) == Some(next)
  {
    assert longer[..|longer| - 1] == events;
    next := Step(compile, s, e);
  }

  // ---------- The class ----------

  /**
    Threads share the object; the ghost fields record where each is in its call and what has happened.
    The object is always in the state after a run, so RunIsRight holds of it whichever sections come next.
  */
  class RegexCache<R(!new, ==)> {
    var mapRegexToCompiledRegex: map<string, Option<R>>
    const compile: string -> Option<R>
    ghost var threads: map<ThreadId, Phase<R>>
    ghost var events: seq<Event>

    ghost function Now(): State<R>
      reads this`mapRegexToCompiledRegex, this`threads
    {
      State(mapRegexToCompiledRegex, threads)
    }

    ghost predicate Valid()
      reads this
    {
      After(compile, events) == Some(Now())
    }

    constructor (f: string -> Option<R>)
      ensures Valid() && compile == f && events == []
    {
      compile, mapRegexToCompiledRegex, threads, events := f, map[], map[], [];
    }

    ghost method Call(t: ThreadId, p: string)
      requires Valid() && Enabled(Now(), Event.Call(t, p))
      modifies this`threads, this`events
      ensures Valid() && events == old(events) + [Event.Call(t, p)] && Now() == Step(compile, old(Now()), Event.Call(t, p))
    {
      var next := RunExtends(compile, events, Now(), Event.Call(t, p), events + [Event.Call(t, p)]);
      threads, events := next.threads, events + [Event.Call(t, p)];
    }

    method SharedSection(ghost t: ThreadId, p: string) returns (found: bool, r: Option<R>)
      requires Valid() && PhaseOf(Now(), t) == BeforeShared(p)
      modifies this`threads, this`events
      ensures Valid() && events == old(events) + [Shared(t)] && Now() == Step(compile, old(Now()), Shared(t))
      ensures PhaseOf(Now(), t) == if found then Returned(p, StatusOf(r), r) else BeforeExclusive(p)
    {
      ghost var next := RunExtends(compile, events, Now(), Shared(t), events + [Shared(t)]);
      found, r := false, None;
      if p in mapRegexToCompiledRegex {
        found, r := true, mapRegexToCompiledRegex[p];
      }
      threads, events := next.threads, events + [Shared(t)];
    }

    method ExclusiveSection(ghost t: ThreadId, p: string) returns (r: Option<R>)
      requires Valid() && PhaseOf(Now(), t) == BeforeExclusive(p)
      modifies this`mapRegexToCompiledRegex, this`threads, this`events
      ensures Valid() && events == old(events) + [Exclusive(t)] && Now() == Step(compile, old(Now()), Exclusive(t))
      ensures PhaseOf(Now(), t) == Returned(p, StatusOf(r), r)
    {
      ghost var next := RunExtends(compile, events, Now(), Exclusive(t), events + [Exclusive(t)]);
      if p !in mapRegexToCompiledRegex {
        mapRegexToCompiledRegex := mapRegexToCompiledRegex[p := None];
      }
      var compiled := compile(p);
      if compiled.Some? {
        mapRegexToCompiledRegex := mapRegexToCompiledRegex[p := compiled];
      }
      r := mapRegexToCompiledRegex[p];
      assert mapRegexToCompiledRegex == next.cache;
      threads, events := next.threads, events + [Exclusive(t)];
    }

    /** A call that no other thread interrupts. */
    method GetCompiledRegex(ghost t: ThreadId, p: string) returns (status: Status, r: Option<R>)
      requires Valid() && Enabled(Now(), Event.Call(t, p))
      modifies this`mapRegexToCompiledRegex, this`threads, this`events
      ensures Valid() && PhaseOf(Now(), t) == Returned(p, status, r)
      ensures r == compile(p) && (status == Success <==> compile(p).Some?)
      ensures mapRegexToCompiledRegex == old(mapRegexToCompiledRegex)[p := compile(p)]
    {
      Call(t, p);
      RunIsRight(compile, events, Now(), t);
      status, r := BothSections(t, p);
      RunIsRight(compile, events, Now(), t);
    }

    method BothSections(ghost t: ThreadId, p: string) returns (status: Status, r: Option<R>)
      requires Valid() && PhaseOf(Now(), t) == BeforeShared(p) && Right(mapRegexToCompiledRegex, compile)
      modifies this`mapRegexToCompiledRegex, this`threads, this`events
      ensures Valid() && PhaseOf(Now(), t) == Returned(p, status, r)
      ensures mapRegexToCompiledRegex == old(mapRegexToCompiledRegex)[p := compile(p)]
    {
      WrittenIsRight(mapRegexToCompiledRegex, p, compile);
      var found: bool;
      found, r := SharedSection(t, p);
      if !found {
        r := ExclusiveSection(t, p);
      }
      status := StatusOf(r);
    }
  }
}
