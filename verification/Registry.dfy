/**
 The charset registry: `init_available_charsets` and `get_internal_charset` as a state machine over
 any number of threads, one shared memory access or lock operation to a step. Memory is sequentially
 consistent, and `free_charsets` is not called.
 */
module Registry {

  type ThreadId = nat

  const NUMBER_OF_CHARSETS := 256

  /** Where a thread is; the names follow the statements of the two functions. */
  datatype Pc =
    | ReadFlag        // if (!charset_initialized)
    | LockInit        // pthread_mutex_lock in init_available_charsets
    | RereadFlag      // if (!charset_initialized), under the mutex
    | Build           // compiled charsets, state maps and the index file
    | SetFlag         // charset_initialized= 1
    | UnlockInit
    | ReadSlot        // cs= all_charsets[cs_number]
    | TestReady       // cs->state & MY_CS_READY
    | LockCharset     // pthread_mutex_lock in get_internal_charset
    | Load            // the charset's own file, if it is not in memory
    | TestAvailable   // cs->state & MY_CS_AVAILABLE
    | RetestReady     // !(cs->state & MY_CS_READY), under the mutex
    | InitCharset     // cset->init and coll->init
    | SetReady        // cs->state|= MY_CS_READY
    | UnlockCharset
    | Returned

  /** A thread that asks for `cs`; `found` says that the result, so far, is not NULL. */
  datatype Thread = Thread(pc: Pc, cs: nat, found: bool)

  /** An entry of `all_charsets`; `readied` counts the steps that set MY_CS_READY. */
  datatype Entry = Entry(present: bool, inMemory: bool, available: bool, ready: bool, readied: nat)

  /** The shared state; `builds` counts the builds begun, `complete` says that one is finished. */
  datatype State = State(initialized: bool, mutex: set<ThreadId>, entries: seq<Entry>, threads: map<ThreadId, Thread>,
                         builds: nat, complete: bool)

  predicate Holding(pc: Pc) {
    pc in {RereadFlag, Build, SetFlag, UnlockInit, Load, TestAvailable, RetestReady, InitCharset, SetReady,
           UnlockCharset}
  }

  /** The thread has come through `init_available_charsets`. */
  predicate Passed(pc: Pc) {
    pc in {ReadSlot, TestReady, LockCharset, Load, TestAvailable, RetestReady, InitCharset, SetReady, UnlockCharset,
           Returned}
  }

  /** Reading files and compiled tables changes entries, but never MY_CS_READY. */
  ghost predicate Loaded(e: seq<Entry>, e': seq<Entry>) {
    |e'| == |e| && forall n :: 0 <= n < |e| ==> e'[n].ready == e[n].ready && e'[n].readied == e[n].readied
  }

  /** No thread is active and nothing is built. */
  ghost predicate Init(s: State) {
    && !s.initialized && !s.complete && s.builds == 0 && s.mutex == {}
    && |s.entries| == NUMBER_OF_CHARSETS
    && (forall n :: 0 <= n < |s.entries| ==> !s.entries[n].ready && s.entries[n].readied == 0)
    && (forall t :: t in s.threads ==> s.threads[t].pc == ReadFlag && s.threads[t].cs < NUMBER_OF_CHARSETS)
  }

  /** `s'` is `s` with thread `t` at `pc`. */
  predicate Goes(s: State, t: ThreadId, pc: Pc, s': State)
    requires t in s.threads
  {
    s' == s.(threads := s.threads[t := s.threads[t].(pc := pc)])
  }

  /** One step of thread `t`. */
  ghost predicate Step(s: State, t: ThreadId, s': State)
    requires t in s.threads && s.threads[t].cs < |s.entries|
  {
    if Passed(s.threads[t].pc) then StepCharset(s, t, s') else StepInit(s, t, s')
  }

  /** A step in `init_available_charsets`. */
  ghost predicate StepInit(s: State, t: ThreadId, s': State)
    requires t in s.threads && !Passed(s.threads[t].pc)
  {
    match s.threads[t].pc
    case ReadFlag => Goes(s, t, if s.initialized then ReadSlot else LockInit, s')
    case LockInit => s.mutex == {} && Goes(s.(mutex := {t}), t, RereadFlag, s')
    case RereadFlag =>
      if s.initialized then Goes(s, t, UnlockInit, s') else Goes(s.(builds := s.builds + 1), t, Build, s')
    case Build =>
      Loaded(s.entries, s'.entries) &&
      (Goes(s.(entries := s'.entries), t, Build, s') ||
       Goes(s.(entries := s'.entries, complete := true), t, SetFlag, s'))
    case SetFlag => Goes(s.(initialized := true), t, UnlockInit, s')
    case UnlockInit => Goes(s.(mutex := {}), t, ReadSlot, s')
  }

  /** A step in `get_internal_charset`, or a further call. */
  ghost predicate StepCharset(s: State, t: ThreadId, s': State)
    requires t in s.threads && s.threads[t].cs < |s.entries| && Passed(s.threads[t].pc)
  {
    var th := s.threads[t];
    var e := s.entries[th.cs];
    match th.pc
    case ReadSlot =>
      s' == s.(threads := s.threads[t := th.(pc := if e.present then TestReady else Returned, found := e.present)])
    case TestReady => Goes(s, t, if e.ready then Returned else LockCharset, s')
    case LockCharset => s.mutex == {} && Goes(s.(mutex := {t}), t, Load, s')
    case Load =>
      if e.inMemory then Goes(s, t, TestAvailable, s')
      else Loaded(s.entries, s'.entries) && Goes(s.(entries := s'.entries), t, TestAvailable, s')
    case TestAvailable =>
      if e.available then Goes(s, t, RetestReady, s')
      else s' == s.(threads := s.threads[t := th.(pc := UnlockCharset, found := false)])
    case RetestReady => Goes(s, t, if e.ready then UnlockCharset else InitCharset, s')
    case InitCharset =>
      Goes(s, t, SetReady, s') ||
      s' == s.(threads := s.threads[t := th.(pc := UnlockCharset, found := false)])
    case SetReady =>
      Goes(s.(entries := s.entries[th.cs := e.(ready := true, readied := e.readied + 1)]), t, UnlockCharset, s')
    case UnlockCharset => Goes(s.(mutex := {}), t, Returned, s')
    case Returned =>
      exists cs: nat :: cs < NUMBER_OF_CHARSETS && s' == s.(threads := s.threads[t := Thread(ReadFlag, cs, false)])
  }

  /** A step of some thread, or a new thread. */
  ghost predicate Next(s: State, s': State) {
    || (exists t: ThreadId :: t in s.threads && s.threads[t].cs < |s.entries| && Step(s, t, s'))
    || (exists t: ThreadId, cs: nat {:trigger s.threads[t := Thread(ReadFlag, cs, false)]} ::
          && t !in s.threads && cs < NUMBER_OF_CHARSETS
          && s' == s.(threads := s.threads[t := Thread(ReadFlag, cs, false)]))
  }

  // ----- the invariant

  /** What is true of each thread. */
  ghost predicate ThreadOk(s: State, t: ThreadId)
    requires t in s.threads
  {
    var th := s.threads[t];
    && th.cs < |s.entries|
    && (Holding(th.pc) <==> t in s.mutex)
    && (Passed(th.pc) || th.pc == UnlockInit ==> s.initialized)
    && (th.pc == Build || th.pc == SetFlag ==> !s.initialized && s.builds == 1)
    && (th.pc == SetFlag ==> s.complete)
    && (th.pc == InitCharset || th.pc == SetReady ==> !s.entries[th.cs].ready && th.found)
    && (th.pc in {TestReady, LockCharset, Load, TestAvailable, RetestReady} ==> th.found)
    && (th.pc in {UnlockCharset, Returned} && th.found ==> s.entries[th.cs].ready)
  }

  ghost predicate Invariant(s: State) {
    && |s.entries| == NUMBER_OF_CHARSETS
    && (forall t, u :: t in s.mutex && u in s.mutex ==> t == u)
    && (forall t :: t in s.mutex ==> t in s.threads)
    && (s.initialized ==> s.complete && s.builds == 1)
    && s.builds <= 1
    && (s.builds == 1 && !s.initialized ==> exists t :: t in s.threads && s.threads[t].pc in {Build, SetFlag})
    && (forall n :: 0 <= n < |s.entries| ==> s.entries[n].readied == if s.entries[n].ready then 1 else 0)
    && (forall t :: t in s.threads ==> ThreadOk(s, t))
  }

  lemma InitEstablishes(s: State)
    requires Init(s)
    ensures Invariant(s)
  {
  }

  /** MY_CS_READY is never taken back. */
  ghost predicate ReadyKept(s: State, s': State) {
    |s'.entries| == |s.entries| && forall n :: 0 <= n < |s.entries| && s.entries[n].ready ==> s'.entries[n].ready
  }

  /** What any step of `t` leaves alone. */
  ghost predicate Frame(s: State, t: ThreadId, s': State) {
    && s'.threads.Keys == s.threads.Keys
    && (forall u :: u in s.threads && u != t ==> s'.threads[u] == s.threads[u])
    && (s.initialized ==> s'.initialized) && (s.complete ==> s'.complete)
    && (s'.mutex == s.mutex || (s.mutex == {} && s'.mutex == {t}) || (s.mutex == {t} && s'.mutex == {}))
    && (t in s.mutex || (s'.entries == s.entries && s'.builds == s.builds && s'.initialized == s.initialized))
  }

  lemma StepFrame(s: State, t: ThreadId, s': State)
    requires Invariant(s) && t in s.threads && s.threads[t].cs < |s.entries| && Step(s, t, s')
    ensures Frame(s, t, s')
  {
    if Passed(s.threads[t].pc) {
      StepFrameCharset(s, t, s');
    } else {
      StepFrameInit(s, t, s');
    }
  }

  lemma StepFrameInit(s: State, t: ThreadId, s': State)
    requires Invariant(s) && t in s.threads && !Passed(s.threads[t].pc) && StepInit(s, t, s')
    ensures Frame(s, t, s')
  {
    assert ThreadOk(s, t);
  }

  lemma StepFrameCharset(s: State, t: ThreadId, s': State)
    requires Invariant(s) && t in s.threads && s.threads[t].cs < |s.entries|
    requires Passed(s.threads[t].pc) && StepCharset(s, t, s')
    ensures Frame(s, t, s')
  {
    assert ThreadOk(s, t);
  }

  /** The entries keep their flag and its count. */
  lemma StepEntries(s: State, t: ThreadId, s': State)
    requires Invariant(s) && t in s.threads && s.threads[t].cs < |s.entries| && Step(s, t, s')
    ensures ReadyKept(s, s') && |s'.entries| == NUMBER_OF_CHARSETS
    ensures forall n :: 0 <= n < |s'.entries| ==> s'.entries[n].readied == if s'.entries[n].ready then 1 else 0
    ensures s'.entries == s.entries || t in s.mutex
  {
    assert ThreadOk(s, t);
  }

  /** The mutex has one holder. */
  lemma OnlyHolder(s: State, t: ThreadId)
    requires Invariant(s) && t in s.threads && Holding(s.threads[t].pc)
    ensures forall b :: b in s.threads && Holding(s.threads[b].pc) ==> b == t
  {
    assert ThreadOk(s, t);
    forall b | b in s.threads && Holding(s.threads[b].pc) ensures b == t {
      assert ThreadOk(s, b);
    }
  }

  lemma StepBuilds(s: State, t: ThreadId, s': State)
    requires Invariant(s) && t in s.threads && s.threads[t].cs < |s.entries| && Step(s, t, s')
    ensures t in s'.threads && s'.builds <= 1 && (s'.initialized ==> s'.complete && s'.builds == 1)
    ensures s'.builds == 1 && !s'.initialized ==>
              || s'.threads[t].pc in {Build, SetFlag}
              || (s.builds == 1 && !s.initialized && s.threads[t].pc !in {Build, SetFlag})
  {
    assert ThreadOk(s, t);
    if Holding(s.threads[t].pc) {
      OnlyHolder(s, t);
    }
  }

  /** The stepping thread, in `init_available_charsets`. */
  lemma StepSelfInit(s: State, t: ThreadId, s': State)
    requires Invariant(s) && t in s.threads && s.threads[t].cs < |s.entries| && Step(s, t, s')
    requires !Passed(s.threads[t].pc)
    ensures t in s'.threads && ThreadOk(s', t)
  {
    assert ThreadOk(s, t);
    StepBuilds(s, t, s');
  }

  /** The stepping thread, in `get_internal_charset` or between calls. */
  lemma StepSelfCharset(s: State, t: ThreadId, s': State)
    requires Invariant(s) && t in s.threads && s.threads[t].cs < |s.entries| && Step(s, t, s')
    requires Passed(s.threads[t].pc)
    ensures t in s'.threads && ThreadOk(s', t)
  {
    assert ThreadOk(s, t);
  }

  lemma StepOther(s: State, t: ThreadId, s': State, u: ThreadId)
    requires Invariant(s) && t in s.threads && u in s.threads && u != t && Frame(s, t, s') && ReadyKept(s, s')
    requires t in s.threads && s.threads[t].cs < |s.entries| && Step(s, t, s')
    ensures u in s'.threads && ThreadOk(s', u)
  {
    assert ThreadOk(s, u) && ThreadOk(s, t);
  }

  lemma StepKeeps(s: State, t: ThreadId, s': State)
    requires Invariant(s) && t in s.threads && s.threads[t].cs < |s.entries| && Step(s, t, s')
    ensures Invariant(s') && ReadyKept(s, s')
  {
    StepFrame(s, t, s');
    StepEntries(s, t, s');
    StepBuilds(s, t, s');
    if Passed(s.threads[t].pc) {
      StepSelfCharset(s, t, s');
    } else {
      StepSelfInit(s, t, s');
    }
    forall u | u in s'.threads ensures ThreadOk(s', u) {
      if u != t {
        StepOther(s, t, s', u);
      }
    }
    if s'.builds == 1 && !s'.initialized && s'.threads[t].pc !in {Build, SetFlag} {
      var b: ThreadId :| b in s.threads && s.threads[b].pc in {Build, SetFlag};
      assert s'.threads[b].pc in {Build, SetFlag};
    }
  }

  lemma NextKeeps(s: State, s': State)
    requires Invariant(s) && Next(s, s')
    ensures Invariant(s') && ReadyKept(s, s')
  {
    if t: ThreadId :| t in s.threads && s.threads[t].cs < |s.entries| && Step(s, t, s') {
      StepKeeps(s, t, s');
    } else {
      forall u | u in s'.threads ensures ThreadOk(s', u) {
        assert u in s.threads ==> ThreadOk(s, u);
      }
      if s'.builds == 1 && !s'.initialized {
        var b :| b in s.threads && s.threads[b].pc in {Build, SetFlag};
        assert s'.threads[b].pc in {Build, SetFlag};
      }
    }
  }

  // ----- every run

  ghost predicate Run(r: seq<State>) {
    r != [] && Init(r[0]) && forall i, j :: 0 <= i && j == i + 1 < |r| ==> Next(r[i], r[j])
  }

  lemma {:induction false} RunInvariant(r: seq<State>, i: nat)
    requires Run(r) && i < |r|
    ensures Invariant(r[i])
  {
    if i == 0 {
      InitEstablishes(r[0]);
    } else {
      RunInvariant(r, i - 1);
      NextKeeps(r[i - 1], r[i]);
    }
  }

  lemma RunStep(r: seq<State>, i: nat, j: nat)
    requires Run(r) && j == i + 1 < |r|
    ensures ReadyKept(r[i], r[j])
  {
    RunInvariant(r, i);
    NextKeeps(r[i], r[j]);
  }

  lemma RunReadyKept(r: seq<State>, i: nat, j: nat)
    requires Run(r) && i <= j < |r|
    ensures ReadyKept(r[i], r[j])
  {
    forall a, b | i <= a && b == a + 1 <= j ensures ReadyKept(r[a], r[b]) {
      RunStep(r, a, b);
    }
    ChainReadyKept(r, i, j);
  }

  lemma {:induction false} ChainReadyKept(r: seq<State>, i: nat, j: nat)
    requires i <= j < |r| && forall a, b :: i <= a && b == a + 1 <= j ==> ReadyKept(r[a], r[b])
    ensures ReadyKept(r[i], r[j])
    decreases j
  {
    if i < j {
      ChainReadyKept(r, i, j - 1);
      ReadyKeptTransitive(r[i], r[j - 1], r[j]);
    }
  }

  lemma ReadyKeptTransitive(a: State, b: State, c: State)
    requires ReadyKept(a, b) && ReadyKept(b, c)
    ensures ReadyKept(a, c)
  {
  }

  /** The registry is built at most once, and no thread passes `init_available_charsets` before that is finished. */
  lemma BuiltOnceBeforeUse(r: seq<State>, i: nat, t: ThreadId)
    requires Run(r) && i < |r|
    ensures r[i].builds <= 1
    ensures t in r[i].threads && Passed(r[i].threads[t].pc) ==> r[i].complete && r[i].builds == 1
  {
    RunInvariant(r, i);
    assert t in r[i].threads ==> ThreadOk(r[i], t);
  }

  /** A charset that was returned is ready, then and ever after, and was made so once. */
  lemma ReturnedIsReady(r: seq<State>, i: nat, j: nat, t: ThreadId)
    requires Run(r) && i <= j < |r| && t in r[i].threads
    requires r[i].threads[t].pc == Returned && r[i].threads[t].found
    ensures r[i].threads[t].cs < |r[j].entries|
    ensures r[j].entries[r[i].threads[t].cs].ready && r[j].entries[r[i].threads[t].cs].readied == 1
  {
    RunInvariant(r, i);
    assert ThreadOk(r[i], t);
    RunReadyKept(r, i, j);
    RunInvariant(r, j);
  }

  /** MY_CS_READY is set at most once per entry. */
  lemma ReadiedOnce(r: seq<State>, i: nat, n: nat)
    requires Run(r) && i < |r| && n < NUMBER_OF_CHARSETS
    ensures |r[i].entries| == NUMBER_OF_CHARSETS && r[i].entries[n].readied <= 1
  {
    RunInvariant(r, i);
  }

  /** Two threads are never both between lock and unlock. */
  lemma MutualExclusion(r: seq<State>, i: nat, t: ThreadId, u: ThreadId)
    requires Run(r) && i < |r| && t in r[i].threads && u in r[i].threads
    requires Holding(r[i].threads[t].pc) && Holding(r[i].threads[u].pc)
    ensures t == u
  {
    RunInvariant(r, i);
    assert ThreadOk(r[i], t) && ThreadOk(r[i], u);
  }
}
