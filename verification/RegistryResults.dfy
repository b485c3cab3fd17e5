/** What a call of `get_internal_charset` results in: when a charset, and when NULL. */
module RegistryResults {
  import opened Registry

  // ----- nothing is initialised without MY_CS_AVAILABLE

  /** The thread has seen MY_CS_AVAILABLE and holds the mutex since. */
  predicate SeenAvailable(pc: Pc) {
    pc in {RetestReady, InitCharset, SetReady}
  }

  ghost predicate AvailableOk(s: State, t: ThreadId)
    requires t in s.threads
  {
    SeenAvailable(s.threads[t].pc) ==> s.threads[t].cs < |s.entries| && s.entries[s.threads[t].cs].available
  }

  ghost predicate AllAvailableOk(s: State) {
    forall t :: t in s.threads ==> AvailableOk(s, t)
  }

  lemma StepSelfAvailable(s: State, t: ThreadId, s': State)
    requires t in s.threads && s.threads[t].cs < |s.entries| && Step(s, t, s') && AvailableOk(s, t)
    ensures t in s'.threads && AvailableOk(s', t)
  {
    if Passed(s.threads[t].pc) {
      StepSelfAvailableCharset(s, t, s');
    } else {
      assert t in s'.threads && !SeenAvailable(s'.threads[t].pc);
    }
  }

  lemma StepSelfAvailableCharset(s: State, t: ThreadId, s': State)
    requires t in s.threads && s.threads[t].cs < |s.entries| && AvailableOk(s, t)
    requires Passed(s.threads[t].pc) && StepCharset(s, t, s')
    ensures t in s'.threads && AvailableOk(s', t)
  {
  }

  lemma StepKeepsAvailable(s: State, t: ThreadId, s': State)
    requires Invariant(s) && t in s.threads && s.threads[t].cs < |s.entries| && Step(s, t, s') && AllAvailableOk(s)
    ensures AllAvailableOk(s')
  {
    StepFrame(s, t, s');
    StepEntries(s, t, s');
    StepSelfAvailable(s, t, s');
    forall u | u in s'.threads ensures AvailableOk(s', u) {
      assert AvailableOk(s, u);
      if u != t && SeenAvailable(s.threads[u].pc) {
        OnlyHolder(s, u);
        assert ThreadOk(s, t);
      }
    }
  }

  lemma NextKeepsAvailable(s: State, s': State)
    requires Invariant(s) && Next(s, s') && AllAvailableOk(s)
    ensures AllAvailableOk(s')
  {
    if t: ThreadId :| t in s.threads && s.threads[t].cs < |s.entries| && Step(s, t, s') {
      StepKeepsAvailable(s, t, s');
    } else {
      forall u | u in s'.threads ensures AvailableOk(s', u) {
        assert u in s.threads ==> AvailableOk(s, u);
      }
    }
  }

  lemma {:induction false} RunAvailable(r: seq<State>, i: nat)
    requires Run(r) && i < |r|
    ensures AllAvailableOk(r[i])
  {
    if i > 0 {
      RunInvariant(r, i - 1);
      RunAvailable(r, i - 1);
      NextKeepsAvailable(r[i - 1], r[i]);
    }
  }

  /** In every run, whatever is initialised is available. */
  lemma InitialisedIsAvailable(r: seq<State>, i: nat, t: ThreadId)
    requires Run(r) && i < |r| && t in r[i].threads && r[i].threads[t].pc in {InitCharset, SetReady}
    ensures r[i].threads[t].cs < |r[i].entries| && r[i].entries[r[i].threads[t].cs].available
  {
    RunAvailable(r, i);
    assert AvailableOk(r[i], t);
  }

  /** And MY_CS_READY is set for no other entry. */
  lemma ReadiedIsAvailable(r: seq<State>, i: nat, j: nat, n: nat)
    requires Run(r) && j == i + 1 < |r| && n < |r[i].entries| && !r[i].entries[n].ready
    requires n < |r[j].entries| && r[j].entries[n].ready
    ensures r[i].entries[n].available
    ensures exists t :: t in r[i].threads && r[i].threads[t].pc == SetReady && r[i].threads[t].cs == n
  {
    RunAvailable(r, i);
    assert Next(r[i], r[j]);
    var t := ReadiedByThread(r[i], r[j], n);
    assert AvailableOk(r[i], t);
  }

  lemma ReadiedByThread(s: State, s': State, n: nat) returns (t: ThreadId)
    requires Next(s, s') && n < |s.entries| && n < |s'.entries| && !s.entries[n].ready && s'.entries[n].ready
    ensures t in s.threads && s.threads[t].pc == SetReady && s.threads[t].cs == n
  {
    t :| t in s.threads && s.threads[t].cs < |s.entries| && Step(s, t, s');
    ReadiedBy(s, t, s', n);
  }

  lemma ReadiedBy(s: State, t: ThreadId, s': State, n: nat)
    requires t in s.threads && s.threads[t].cs < |s.entries| && Step(s, t, s') && n < |s.entries| && n < |s'.entries|
    requires !s.entries[n].ready && s'.entries[n].ready
    ensures s.threads[t].pc == SetReady && s.threads[t].cs == n
  {
  }

  // ----- why a result is NULL

  /** The result of the call is settled as NULL. */
  predicate IsNull(th: Thread) {
    th.pc in {UnlockCharset, Returned} && !th.found
  }

  /** The slot is empty, the charset is not available, or its initialisation, which is about to end, may fail. */
  predicate NullCause(s: State, t: ThreadId)
    requires t in s.threads && s.threads[t].cs < |s.entries|
  {
    var th := s.threads[t];
    || (th.pc == ReadSlot && !s.entries[th.cs].present)
    || (th.pc == TestAvailable && !s.entries[th.cs].available)
    || th.pc == InitCharset
  }

  /** The step by which the result of `t` becomes NULL, and a cause for it. */
  ghost predicate BecomesNull(s: State, t: ThreadId, s': State) {
    && t in s.threads && t in s'.threads && s.threads[t].cs == s'.threads[t].cs < |s.entries|
    && NullCause(s, t) && Step(s, t, s') && IsNull(s'.threads[t])
  }

  lemma StepNull(s: State, t: ThreadId, s': State)
    requires Invariant(s) && t in s.threads && s.threads[t].cs < |s.entries| && Step(s, t, s')
    requires t in s'.threads && IsNull(s'.threads[t]) && !IsNull(s.threads[t])
    ensures NullCause(s, t) && s'.threads[t].cs == s.threads[t].cs
  {
    assert ThreadOk(s, t);
  }

  lemma NextNull(s: State, s': State, t: ThreadId)
    requires Invariant(s) && Next(s, s') && t in s'.threads && IsNull(s'.threads[t])
    ensures t in s.threads && s'.threads[t].cs == s.threads[t].cs < |s.entries|
    ensures IsNull(s.threads[t]) || BecomesNull(s, t, s')
  {
    if u: ThreadId :| u in s.threads && s.threads[u].cs < |s.entries| && Step(s, u, s') {
      StepFrame(s, u, s');
      assert ThreadOk(s, t);
      if u == t && !IsNull(s.threads[t]) {
        StepNull(s, t, s');
      }
    }
  }

  ghost predicate StaysNull(r: seq<State>, t: ThreadId, k: nat, i: nat)
    requires i < |r|
  {
    forall j :: k < j <= i ==> NullThen(r[j], t)
  }

  ghost predicate NullThen(s: State, t: ThreadId) {
    t in s.threads && IsNull(s.threads[t])
  }

  /** A NULL was one before, in the same call, or has just become one. */
  lemma NullBefore(r: seq<State>, i: nat, t: ThreadId)
    requires Run(r) && i < |r| && NullThen(r[i], t)
    ensures i > 0 && t in r[i - 1].threads && r[i - 1].threads[t].cs == r[i].threads[t].cs
    ensures NullThen(r[i - 1], t) || BecomesNull(r[i - 1], t, r[i])
  {
    if i > 0 {
      RunInvariant(r, i - 1);
      NextNull(r[i - 1], r[i], t);
    }
  }

  /** In every run a call results in NULL only if one of its own steps had a cause for it. */
  lemma {:induction false} NullHasCause(r: seq<State>, i: nat, t: ThreadId) returns (k: nat, j: nat)
    requires Run(r) && i < |r| && NullThen(r[i], t)
    ensures j == k + 1 <= i && BecomesNull(r[k], t, r[j]) && r[k].threads[t].cs == r[i].threads[t].cs
    ensures StaysNull(r, t, k, i)
  {
    NullBefore(r, i, t);
    if BecomesNull(r[i - 1], t, r[i]) {
      k, j := i - 1, i;
    } else {
      k, j := NullHasCause(r, i - 1, t);
      StaysLonger(r, t, k, i);
    }
  }

  lemma StaysLonger(r: seq<State>, t: ThreadId, k: nat, i: nat)
    requires k < i < |r| && StaysNull(r, t, k, i - 1) && NullThen(r[i], t)
    ensures StaysNull(r, t, k, i)
  {
    forall j | k < j <= i ensures NullThen(r[j], t) {
      assert j < i || j == i;
    }
  }

  // ----- a thread on its own

  /** If this step ends the initialisation, it succeeds. */
  predicate InitSucceeds(s: State, t: ThreadId, s': State) {
    t in s.threads && s.threads[t].pc == InitCharset ==> t in s'.threads && s'.threads[t].pc == SetReady
  }

  /** Unless it waits for the mutex a thread can go on; loading may change nothing, and initialising may succeed. */
  lemma CanStep(s: State, t: ThreadId) returns (s': State)
    requires Invariant(s) && t in s.threads && (s.threads[t].pc in {LockInit, LockCharset} ==> s.mutex == {})
    ensures s.threads[t].cs < |s.entries| && Step(s, t, s') && InitSucceeds(s, t, s')
    ensures s.threads[t].pc == Load ==> s'.entries == s.entries
  {
    assert ThreadOk(s, t);
    if Passed(s.threads[t].pc) {
      s' := CanStepCharset(s, t);
    } else {
      s' := CanStepInit(s, t);
    }
  }

  lemma CanStepInit(s: State, t: ThreadId) returns (s': State)
    requires t in s.threads && !Passed(s.threads[t].pc) && (s.threads[t].pc == LockInit ==> s.mutex == {})
    ensures StepInit(s, t, s')
  {
    var ths := s.threads;
    match s.threads[t].pc
    case ReadFlag =>
      s' := s.(threads := ths[t := ths[t].(pc := if s.initialized then ReadSlot else LockInit)]);
    case LockInit =>
      s' := s.(mutex := {t}, threads := ths[t := ths[t].(pc := RereadFlag)]);
    case RereadFlag =>
      s' := if s.initialized then s.(threads := ths[t := ths[t].(pc := UnlockInit)])
            else s.(builds := s.builds + 1, threads := ths[t := ths[t].(pc := Build)]);
    case Build =>
      s' := s.(complete := true, threads := ths[t := ths[t].(pc := SetFlag)]);
    case SetFlag =>
      s' := s.(initialized := true, threads := ths[t := ths[t].(pc := UnlockInit)]);
    case UnlockInit =>
      s' := s.(mutex := {}, threads := ths[t := ths[t].(pc := ReadSlot)]);
  }

  lemma CanStepCharset(s: State, t: ThreadId) returns (s': State)
    requires t in s.threads && s.threads[t].cs < |s.entries| && Passed(s.threads[t].pc)
    requires s.threads[t].pc == LockCharset ==> s.mutex == {}
    ensures StepCharset(s, t, s') && InitSucceeds(s, t, s')
    ensures s.threads[t].pc == Load ==> s'.entries == s.entries
  {
    var ths, th, e := s.threads, s.threads[t], s.entries[s.threads[t].cs];
    match th.pc
    case ReadSlot =>
      s' := s.(threads := ths[t := th.(pc := if e.present then TestReady else Returned, found := e.present)]);
    case TestReady =>
      s' := s.(threads := ths[t := th.(pc := if e.ready then Returned else LockCharset)]);
    case LockCharset =>
      s' := s.(mutex := {t}, threads := ths[t := th.(pc := Load)]);
    case Load =>
      s' := s.(threads := ths[t := th.(pc := TestAvailable)]);
    case TestAvailable =>
      s' := s.(threads := ths[t := if e.available then th.(pc := RetestReady)
                                   else th.(pc := UnlockCharset, found := false)]);
    case RetestReady =>
      s' := s.(threads := ths[t := th.(pc := if e.ready then UnlockCharset else InitCharset)]);
    case InitCharset =>
      s' := s.(threads := ths[t := th.(pc := SetReady)]);
    case SetReady =>
      s' := s.(entries := s.entries[th.cs := e.(ready := true, readied := e.readied + 1)],
               threads := ths[t := th.(pc := UnlockCharset)]);
    case UnlockCharset =>
      s' := s.(mutex := {}, threads := ths[t := th.(pc := Returned)]);
    case Returned =>
      s' := s.(threads := ths[t := Thread(ReadFlag, 0, false)]);
  }

  /** In every run some thread can go on, if there is one. */
  lemma NoDeadlock(r: seq<State>, i: nat, u: ThreadId)
    requires Run(r) && i < |r| && u in r[i].threads
    ensures exists t, s' :: t in r[i].threads && r[i].threads[t].cs < |r[i].entries| && Step(r[i], t, s')
  {
    RunInvariant(r, i);
    var s := r[i];
    var t := u;
    if t' :| t' in s.mutex {
      t := t';
      assert ThreadOk(s, t);
    } else {
      assert s.mutex == {};
    }
    var s' := CanStep(s, t);
  }

  /** All steps are those of `t`, and no initialisation fails. */
  ghost predicate Alone(r: seq<State>, t: ThreadId) {
    forall i, j :: 0 <= i && j == i + 1 < |r| ==> StepsAlone(r[i], t, r[j])
  }

  ghost predicate StepsAlone(s: State, t: ThreadId, s': State) {
    t in s.threads && s.threads[t].cs < |s.entries| && Step(s, t, s') && InitSucceeds(s, t, s')
  }

  /** The way through the function to a charset that was not ready. */
  function Way(k: nat): Pc
    requires k < 10
  {
    [ReadSlot, TestReady, LockCharset, Load, TestAvailable, RetestReady, InitCharset, SetReady, UnlockCharset,
     Returned][k]
  }

  /** Where the thread is after `k` steps. */
  ghost predicate OnWay(s: State, t: ThreadId, cs: nat, k: nat)
    requires k < 10
  {
    && t in s.threads && cs < |s.entries|
    && s.threads[t].pc == Way(k) && s.threads[t].cs == cs && (k > 0 ==> s.threads[t].found)
    && (s.entries[cs].ready <==> k > 7)
  }

  lemma StepOnWay(s: State, t: ThreadId, s': State, cs: nat, k: nat)
    requires k < 9 && OnWay(s, t, cs, k) && Step(s, t, s') && InitSucceeds(s, t, s')
    requires (k == 0 ==> s.entries[cs].present) && (k == 4 ==> s.entries[cs].available)
    ensures OnWay(s', t, cs, k + 1)
    ensures (k < 2 ==> s'.mutex == s.mutex) && (k < 3 ==> s'.entries == s.entries)
  {
    if k < 5 {
      StepEarly(s, t, s', cs, k);
    } else {
      StepLate(s, t, s', cs, k);
    }
  }

  lemma StepEarly(s: State, t: ThreadId, s': State, cs: nat, k: nat)
    requires k < 5 && OnWay(s, t, cs, k) && StepCharset(s, t, s')
    requires (k == 0 ==> s.entries[cs].present) && (k == 4 ==> s.entries[cs].available)
    ensures OnWay(s', t, cs, k + 1)
    ensures (k < 2 ==> s'.mutex == s.mutex) && (k < 3 ==> s'.entries == s.entries)
  {
  }

  lemma StepLate(s: State, t: ThreadId, s': State, cs: nat, k: nat)
    requires 5 <= k < 9 && OnWay(s, t, cs, k) && StepCharset(s, t, s') && InitSucceeds(s, t, s')
    ensures OnWay(s', t, cs, k + 1)
  {
  }

  lemma {:induction false} AloneOnWay(r: seq<State>, t: ThreadId, cs: nat, k: nat)
    requires k < |r| == 10 && Alone(r, t) && OnWay(r[0], t, cs, 0) && r[0].entries[cs].present
    requires cs < |r[4].entries| && r[4].entries[cs].available
    ensures OnWay(r[k], t, cs, k)
  {
    if k > 0 {
      AloneOnWay(r, t, cs, k - 1);
      StepOnWay(r[k - 1], t, r[k], cs, k - 1);
    }
  }

  /**
   A thread on its own that finds an entry not ready, available once it is in memory, and whose initialisation
   succeeds, returns it after nine steps, and then it is ready.
   */
  lemma AloneReturns(r: seq<State>, t: ThreadId, cs: nat)
    requires |r| == 10 && Alone(r, t) && t in r[0].threads
    requires r[0].threads[t].pc == ReadSlot && r[0].threads[t].cs == cs && cs < |r[0].entries|
    requires r[0].entries[cs].present && !r[0].entries[cs].ready
    requires cs < |r[4].entries| && r[4].entries[cs].available
    ensures t in r[9].threads && r[9].threads[t] == Thread(Returned, cs, true)
    ensures cs < |r[9].entries| && r[9].entries[cs].ready
  {
    AloneOnWay(r, t, cs, 9);
  }

  /** One that finds it ready returns it after two. */
  lemma AloneReady(r: seq<State>, t: ThreadId, cs: nat)
    requires |r| == 3 && Alone(r, t) && t in r[0].threads
    requires r[0].threads[t].pc == ReadSlot && r[0].threads[t].cs == cs && cs < |r[0].entries|
    requires r[0].entries[cs].present && r[0].entries[cs].ready
    ensures t in r[2].threads && r[2].threads[t] == Thread(Returned, cs, true)
  {
    assert Step(r[0], t, r[1]);
    assert Step(r[1], t, r[2]);
  }

  /** And with the mutex free it has such steps. */
  lemma CanReturn(s: State, t: ThreadId, cs: nat) returns (r: seq<State>)
    requires Invariant(s) && t in s.threads && s.mutex == {} && s.threads[t].pc == ReadSlot && s.threads[t].cs == cs
    requires cs < |s.entries| && s.entries[cs].present && s.entries[cs].available && !s.entries[cs].ready
    ensures |r| == 10 && r[0] == s && Alone(r, t)
    ensures t in r[9].threads && r[9].threads[t] == Thread(Returned, cs, true)
  {
    r := WayOf(s, t, cs, 9);
    AloneReturns(r, t, cs);
  }

  lemma OneMoreStep(p: seq<State>, t: ThreadId, s': State)
    requires p != [] && Alone(p, t) && StepsAlone(p[|p| - 1], t, s')
    ensures Alone(p + [s'], t)
  {
    var r, n := p + [s'], |p|;
    forall i, j | 0 <= i && j == i + 1 < |r| ensures StepsAlone(r[i], t, r[j]) {
      assert r[i] == p[i] && r[j] == if j == n then s' else p[j];
    }
  }

  lemma OnTheWay(s: State, t: ThreadId, cs: nat, k: nat) returns (s': State)
    requires k < 9 && Invariant(s) && OnWay(s, t, cs, k) && (k <= 2 ==> s.mutex == {})
    requires (k == 0 ==> s.entries[cs].present) && (k == 4 ==> s.entries[cs].available)
    ensures StepsAlone(s, t, s') && Invariant(s') && OnWay(s', t, cs, k + 1)
    ensures (k < 2 ==> s'.mutex == {}) && (k < 4 ==> s'.entries == s.entries)
  {
    s' := CanStep(s, t);
    StepKeeps(s, t, s');
    StepOnWay(s, t, s', cs, k);
  }

  /** The first `k` steps on the way, from `s`. */
  ghost predicate Begun(r: seq<State>, s: State, t: ThreadId, cs: nat, k: nat)
    requires k < 10
  {
    && |r| == k + 1 && r[0] == s && Alone(r, t) && (k >= 4 ==> r[4].entries == s.entries)
    && OnWay(r[k], t, cs, k) && (k <= 2 ==> r[k].mutex == {}) && (k <= 4 ==> r[k].entries == s.entries)
  }

  lemma BegunFurther(p: seq<State>, s: State, t: ThreadId, cs: nat, k: nat, s': State)
    requires k < 9 && Begun(p, s, t, cs, k) && StepsAlone(p[k], t, s') && OnWay(s', t, cs, k + 1)
    requires (k < 2 ==> s'.mutex == {}) && (k < 4 ==> s'.entries == p[k].entries)
    ensures Begun(p + [s'], s, t, cs, k + 1)
  {
    OneMoreStep(p, t, s');
    var r := p + [s'];
    assert r[k + 1] == s' && r[0] == p[0] && (k >= 4 ==> r[4] == p[4]);
  }

  lemma {:induction false} WayOf(s: State, t: ThreadId, cs: nat, k: nat) returns (r: seq<State>)
    requires k < 10 && Invariant(s) && OnWay(s, t, cs, 0) && s.mutex == {}
    requires s.entries[cs].present && s.entries[cs].available
    ensures Begun(r, s, t, cs, k) && Invariant(r[k])
  {
    if k == 0 {
      r := [s];
    } else {
      var p := WayOf(s, t, cs, k - 1);
      var s' := OnTheWay(p[k - 1], t, cs, k - 1);
      BegunFurther(p, s, t, cs, k - 1, s');
      r := p + [s'];
      assert r[k] == s';
    }
  }

  // ----- what changes the entries

  /** This step may change the entries: the build, a file read for a charset not in memory, or MY_CS_READY. */
  predicate ChangesEntries(th: Thread, e: seq<Entry>) {
    th.pc in {Build, SetReady} || (th.pc == Load && th.cs < |e| && !e[th.cs].inMemory)
  }

  lemma StepChanges(s: State, t: ThreadId, s': State)
    requires t in s.threads && s.threads[t].cs < |s.entries| && Step(s, t, s') && s'.entries != s.entries
    ensures ChangesEntries(s.threads[t], s.entries)
  {
  }

  /** In every run the entries change in no other step, and only under the mutex. */
  lemma EntriesChange(r: seq<State>, i: nat, j: nat)
    requires Run(r) && j == i + 1 < |r| && r[j].entries != r[i].entries
    ensures exists t :: t in r[i].threads && t in r[i].mutex && ChangesEntries(r[i].threads[t], r[i].entries)
  {
    RunInvariant(r, i);
    assert Next(r[i], r[j]);
    var t: ThreadId :| t in r[i].threads && r[i].threads[t].cs < |r[i].entries| && Step(r[i], t, r[j]);
    StepChanges(r[i], t, r[j]);
    assert ThreadOk(r[i], t);
  }

  /** A file may leave anything in the entries but MY_CS_READY, and is read for a charset not in memory only. */
  lemma FileReads(s: State, t: ThreadId, e: seq<Entry>)
    requires t in s.threads && s.threads[t].cs < |s.entries| && s.threads[t].pc == Load
    ensures (exists s' :: Step(s, t, s') && s'.entries == e)
            <==> Loaded(s.entries, e) && (s.entries[s.threads[t].cs].inMemory ==> e == s.entries)
  {
    if Loaded(s.entries, e) && (s.entries[s.threads[t].cs].inMemory ==> e == s.entries) {
      var s' := s.(entries := e, threads := s.threads[t := s.threads[t].(pc := TestAvailable)]);
      assert Step(s, t, s');
    }
  }
}
