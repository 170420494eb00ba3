/** Which sections a run with exceptions visits: a section that ends successfully has had all its
    subsections completed, and if only leaves throw then every section has been entered. */
module SectionVisits {
  import opened Tracking
  import opened SectionRuns
  import opened SectionOrder

  // ----- complete sections have complete subsections

  ghost predicate SubsComplete(t: Trackers, p: Path, s: Section) {
    forall k :: 0 <= k < |s.subs| ==> CompleteAt(t, Child(p, s, k))
  }

  /** The section at p, and everything below it, has complete subsections once it is done: successfully
      or, if `strict`, at all. */
  ghost predicate Thorough(t: Trackers, p: Path, s: Section, strict: bool)
    decreases s, 1
  {
    && (p in t && (t[p].state == CompletedSuccessfully || (strict && t[p].state == Failed)) ==> SubsComplete(t, p, s))
    && ThoroughBelow(t, p, s, strict)
  }

  ghost predicate ThoroughBelow(t: Trackers, p: Path, s: Section, strict: bool)
    decreases s, 0
  {
    forall k :: 0 <= k < |s.subs| ==> Thorough(t, Child(p, s, k), s.subs[k], strict)
  }

  lemma {:induction false} ThoroughFrame(t: Trackers, t': Trackers, p: Path, s: Section, strict: bool)
    requires SameUnder(t, t', p) && Thorough(t, p, s, strict)
    ensures Thorough(t', p, s, strict)
    decreases s, 1
  {
    BelowFrame(t, t', p, s, strict);
    if SubsComplete(t, p, s) {
      forall k | 0 <= k < |s.subs|
        ensures CompleteAt(t', Child(p, s, k))
      {
        assert CompleteAt(t, Child(p, s, k)) && p <= Child(p, s, k);
      }
    }
  }

  lemma {:induction false} BelowFrame(t: Trackers, t': Trackers, p: Path, s: Section, strict: bool)
    requires ThoroughBelow(t, p, s, strict)
    requires forall k :: 0 <= k < |s.subs| ==> SameUnder(t, t', Child(p, s, k))
    ensures ThoroughBelow(t', p, s, strict)
    decreases s, 0
  {
    forall k | 0 <= k < |s.subs|
      ensures Thorough(t', Child(p, s, k), s.subs[k], strict)
    {
      ThoroughFrame(t, t', Child(p, s, k), s.subs[k], strict);
    }
  }

  /** Changing a tracker, and any above it, leaves what is below it. */
  lemma BelowKept(t: Trackers, t': Trackers, p: Path, s: Section, strict: bool)
    requires ThoroughBelow(t, p, s, strict) && t'.Keys == t.Keys
    requires forall k :: k in t && p < k ==> t'[k] == t[k]
    ensures ThoroughBelow(t', p, s, strict)
  {
    forall k | 0 <= k < |s.subs|
      ensures SameUnder(t, t', Child(p, s, k))
    {
      forall x | Child(p, s, k) <= x
        ensures (x in t <==> x in t') && (x in t ==> t[x] == t'[x])
      {
        assert p < x;
      }
    }
    BelowFrame(t, t', p, s, strict);
  }

  lemma {:induction false} AbsentThorough(t: Trackers, p: Path, s: Section, strict: bool)
    requires Absent(t, p)
    ensures Thorough(t, p, s, strict)
    decreases s
  {
    forall k | 0 <= k < |s.subs|
      ensures Thorough(t, Child(p, s, k), s.subs[k], strict)
    {
      forall x | x in t
        ensures !(Child(p, s, k) <= x)
      {
        assert Child(p, s, k)[..|p|] == p;
      }
      AbsentThorough(t, Child(p, s, k), s.subs[k], strict);
    }
  }

  // ----- where a body throws

  /** No section with subsections throws anything of its own. */
  predicate LeavesThrow(throws: Throws, p: Path, s: Section)
    decreases s
  {
    && (s.subs != [] ==> forall i :: 0 <= i <= |s.subs| ==> !throws(p, i))
    && forall k :: 0 <= k < |s.subs| ==> LeavesThrow(throws, Child(p, s, k), s.subs[k])
  }

  /** After the body of p: all its subsections were met, or an exception came through one of them, which
      then keeps p from being completed. */
  ghost predicate BodyVisits(c: Context, p: Path, s: Section, threw: bool) {
    var t := c.trackers;
    && p in t
    && (!threw ==> |t[p].children| == |s.subs| && (t[p].state == Executing ==> SubsComplete(t, p, s)))
    && (threw && c.unfinished > 0 ==>
          t[p].state == NeedsAnotherRun || (t[p].state == ExecutingChildren && !ChildrenComplete(t, p)))
  }

  /** After a section that threw: it is incomplete, or its parent needs another run. */
  ghost predicate StillOpen(c: Context, p: Path, threw: bool) {
    threw ==> (c.current in c.trackers && c.trackers[c.current].state == NeedsAnotherRun) || !CompleteAt(c.trackers, p)
  }

  predicate ThrowsItself(throws: Throws, p: Path, s: Section) {
    exists i :: 0 <= i <= |s.subs| && throws(p, i)
  }

  // ----- one section

  lemma SkippedThorough(c: Context, s: Section, strict: bool)
    requires Enterable(c, s) && Skips(c, s) && Thorough(c.trackers, c.current + [s.name], s, strict)
    ensures Thorough(Acquire(c, s.name).trackers, c.current + [s.name], s, strict)
  {
    var q, t := c.current, c.trackers;
    var p := q + [s.name];
    if p !in t {
      AddChildRest(t, q, s);
      forall k | 0 <= k < |s.subs|
        ensures Thorough(AddChild(t, q, s.name), Child(p, s, k), s.subs[k], strict)
      {
        AbsentThorough(AddChild(t, q, s.name), Child(p, s, k), s.subs[k], strict);
      }
    }
  }

  lemma OpenedThorough(c: Context, s: Section, strict: bool)
    requires Enterable(c, s) && !Skips(c, s) && Thorough(c.trackers, c.current + [s.name], s, strict)
    ensures ThoroughBelow(Acquire(c, s.name).trackers, c.current + [s.name], s, strict)
  {
    var q, t, t' := c.current, c.trackers, Acquire(c, s.name).trackers;
    var p := q + [s.name];
    AcquireOpens(c, s);
    hide Enterable, InBody, Acquire, Thorough;
    ChildrenSame(t, t', q, p, s);
    BelowFrame(t, t', p, s, strict) by { ThoroughThenBelow(t, p, s, strict); }
  }

  lemma ThoroughThenBelow(t: Trackers, p: Path, s: Section, strict: bool)
    requires Thorough(t, p, s, strict)
    ensures ThoroughBelow(t, p, s, strict)
  {
  }

  /** Nothing below p changes when p and the tracker above it do. */
  lemma ChildrenSame(t: Trackers, t': Trackers, q: Path, p: Path, s: Section)
    requires t'.Keys == t.Keys + {p} && |p| == |q| + 1
    requires forall k :: k in t && k != p && k != q ==> t'[k] == t[k]
    ensures forall k :: 0 <= k < |s.subs| ==> SameUnder(t, t', Child(p, s, k))
  {
    forall k | 0 <= k < |s.subs|
      ensures SameUnder(t, t', Child(p, s, k))
    {
      forall x | Child(p, s, k) <= x
        ensures (x in t <==> x in t') && (x in t ==> t[x] == t'[x])
      {
        assert |x| > |p| > |q|;
      }
    }
  }

  lemma FailedThorough(c: Context, p: Path, s: Section, throws: Throws, strict: bool)
    requires AfterBody(c, p, s) && p != [] && ThoroughBelow(c.trackers, p, s, strict)
    requires ThrowsItself(throws, p, s) && (strict ==> LeavesThrow(throws, p, s))
    ensures Thorough(Fail(c, p).trackers, p, s, strict) && StillOpen(Fail(c, p), p, true)
  {
    FailRests(c, p, s);
    hide AfterBody, Fail, Rest, Kept;
    BelowKept(c.trackers, Fail(c, p).trackers, p, s, strict);
  }

  lemma ClosedThorough(c: Context, p: Path, s: Section, threw: bool, strict: bool)
    requires AfterBody(c, p, s) && p != [] && ThoroughBelow(c.trackers, p, s, strict)
    requires BodyVisits(c, p, s, threw) && (threw ==> c.unfinished > 0)
    ensures Thorough(Close(c, p).trackers, p, s, strict) && StillOpen(Close(c, p), p, threw)
  {
    var t, t' := c.trackers, Close(c, p).trackers;
    CloseRests(c, p, s);
    BelowKept(t, t', p, s, strict);
    if CompleteAt(t', p) {
      assert SubsComplete(t, p, s) by { CompletedSubs(c, p, s, threw); }
      forall k | 0 <= k < |s.subs|
        ensures CompleteAt(t', Child(p, s, k))
      {
        assert CompleteAt(t, Child(p, s, k)) && Child(p, s, k) != p;
      }
    }
  }

  /** Closing completes a section only if its subsections are complete. */
  lemma CompletedSubs(c: Context, p: Path, s: Section, threw: bool)
    requires AfterBody(c, p, s) && p != [] && BodyVisits(c, p, s, threw) && (threw ==> c.unfinished > 0)
    requires CompleteAt(Close(c, p).trackers, p)
    ensures SubsComplete(c.trackers, p, s)
  {
    var t := c.trackers;
    hide Rest;
    if t[p].state == ExecutingChildren {
      forall k | 0 <= k < |s.subs|
        ensures CompleteAt(t, Child(p, s, k))
      {
        assert t[p].children[k] == s.subs[k].name;
      }
    }
  }

  // ----- through a body

  lemma SiblingsThorough(c: Context, p: Path, s: Section, i: nat, c': Context, threw: bool, strict: bool)
    requires InBody(c, p, s, i) && i < |s.subs| && SectionDone(c, s.subs[i], c', threw)
    requires ThoroughBelow(c.trackers, p, s, strict) && Thorough(c'.trackers, Child(p, s, i), s.subs[i], strict)
    ensures ThoroughBelow(c'.trackers, p, s, strict)
  {
    hide Rest, Known, Kept, Grown, Thorough;
    forall k | 0 <= k < |s.subs|
      ensures Thorough(c'.trackers, Child(p, s, k), s.subs[k], strict)
    {
      if k != i {
        SiblingSame(c.trackers, c'.trackers, p, s, i, k);
        ThoroughFrame(c.trackers, c'.trackers, Child(p, s, k), s.subs[k], strict);
      }
    }
  }

  lemma EndVisits(c: Context, p: Path, s: Section, threw: bool)
    requires InBody(c, p, s, |s.subs|) || (threw && exists i :: InBody(c, p, s, i))
    ensures BodyVisits(c, p, s, threw) && c.unfinished == 0
  {
  }

  lemma ThrownVisits(c: Context, p: Path, s: Section, i: nat, c': Context)
    requires InBody(c, p, s, i) && i < |s.subs| && SectionDone(c, s.subs[i], c', true)
    requires StillOpen(c', Child(p, s, i), true)
    ensures BodyVisits(c', p, s, true) && c'.unfinished > 0
  {
    KnownAfterSection(c, p, s, i, c', true);
    var t' := c'.trackers;
    assert t'[p].children[i] == s.subs[i].name;
    hide Rest, Kept, Grown, Confined;
  }

  lemma SkippedRun(c: Context, s: Section, throws: Throws)
    requires Enterable(c, s) && Skips(c, s)
    ensures RunSection(c, s, throws) == (Acquire(c, s.name), false)
  {
    AcquireSkips(c, s);
  }

  /** A section that is run: opened, its body, and ended. */
  lemma OpenedRun(c: Context, s: Section, throws: Throws)
    requires Enterable(c, s) && !Skips(c, s)
    ensures
      var p, c1 := c.current + [s.name], SectionStarted(c, s.name).0;
      var (c2, threw) := RunBody(c1, p, s, 0, throws);
      && c1.trackers == Acquire(c, s.name).trackers && InBody(c1, p, s, 0)
      && AfterBody(c2, p, s) && c2.active == c.active + [p]
      && RunSection(c, s, throws) == (if threw then SectionEndedEarly(c2) else SectionEnded(c2), threw)
  {
    var p, c1 := c.current + [s.name], SectionStarted(c, s.name).0;
    AcquireOpens(c, s);
    assert InBody(c1, p, s, 0);
    RunBodyKeeps(c1, p, s, 0, throws);
  }

  lemma {:induction false} RunSectionThorough(c: Context, s: Section, throws: Throws, strict: bool)
    requires Enterable(c, s) && Thorough(c.trackers, c.current + [s.name], s, strict)
    requires strict ==> LeavesThrow(throws, c.current + [s.name], s)
    ensures
      var p, (c', threw) := c.current + [s.name], RunSection(c, s, throws);
      Thorough(c'.trackers, p, s, strict) && StillOpen(c', p, threw)
    decreases s, |s.subs| + 1
  {
    hide Enterable, InBody, AfterBody, Acquire, RunBody, RunSection, Skips, Thorough, ThoroughBelow, LeavesThrow;
    hide Close, Fail, BodyVisits;
    var p := c.current + [s.name];
    if Skips(c, s) {
      SkippedRun(c, s, throws);
      SkippedThorough(c, s, strict);
    } else {
      OpenedRun(c, s, throws);
      OpenedThorough(c, s, strict);
      var c1 := SectionStarted(c, s.name).0;
      RunBodyThorough(c1, p, s, 0, throws, strict);
      var (c2, threw) := RunBody(c1, p, s, 0, throws);
      if threw && c2.unfinished == 0 {
        FailedThorough(c2, p, s, throws, strict);
      } else {
        ClosedThorough(c2, p, s, threw, strict);
        EndedContext(c2, p, c.active, threw);
      }
    }
  }

  lemma {:induction false} RunBodyThorough(c: Context, p: Path, s: Section, i: nat, throws: Throws, strict: bool)
    requires i <= |s.subs| && InBody(c, p, s, i) && ThoroughBelow(c.trackers, p, s, strict)
    requires strict ==> LeavesThrow(throws, p, s)
    ensures
      var (c', threw) := RunBody(c, p, s, i, throws);
      && ThoroughBelow(c'.trackers, p, s, strict) && BodyVisits(c', p, s, threw)
      && (threw && c'.unfinished == 0 ==> ThrowsItself(throws, p, s))
    decreases s, |s.subs| - i
  {
    if throws(p, i) || i == |s.subs| {
      EndVisits(c, p, s, throws(p, i));
    } else {
      BodyEnters(c, p, s, i);
      RunSectionKeeps(c, s.subs[i], throws);
      var (c1, threw) := RunSection(c, s.subs[i], throws);
      assert c.current + [s.subs[i].name] == Child(p, s, i);
      RunSectionThorough(c, s.subs[i], throws, strict);
      SiblingsThorough(c, p, s, i, c1, threw, strict);
      if threw {
        ThrownVisits(c, p, s, i, c1);
      } else {
        BodyContinues(c, p, s, i, c1);
        RunBodyThorough(c1, p, s, i + 1, throws, strict);
      }
    }
  }

  // ----- complete sections were entered

  /** Whatever completes between two states is entered on the way. */
  ghost predicate Enters(c: Context, c': Context) {
    && c.entered <= c'.entered
    && forall k :: CompleteAt(c'.trackers, k) && !CompleteAt(c.trackers, k) ==> k in c'.entered
  }

  lemma EntersChain(c: Context, c1: Context, c2: Context)
    requires Enters(c, c1) && Enters(c1, c2)
    ensures Enters(c, c2)
  {
  }

  lemma SkipEnters(c: Context, s: Section)
    requires Enterable(c, s) && Skips(c, s)
    ensures Enters(c, Acquire(c, s.name))
  {
  }

  lemma OpenEnters(c: Context, s: Section)
    requires Enterable(c, s) && !Skips(c, s)
    ensures Enters(c, Acquire(c, s.name))
    ensures
      var c1 := SectionStarted(c, s.name).0;
      Enters(c, c1) && c.current + [s.name] in c1.entered
  {
    AcquireOpens(c, s);
    hide Enterable, InBody, Acquire;
  }

  /** Ending a section completes nothing else, apart from its parent becoming incomplete. */
  lemma EndEnters(c: Context, p: Path, s: Section)
    requires AfterBody(c, p, s) && p != [] && p in c.entered
    ensures Enters(c, Close(c, p)) && Enters(c, Fail(c, p))
  {
    CloseRests(c, p, s);
    FailRests(c, p, s);
    hide AfterBody, Close, Fail, Rest, Kept;
  }

  lemma {:induction false} RunSectionEnters(c: Context, s: Section, throws: Throws)
    requires Enterable(c, s)
    ensures Enters(c, RunSection(c, s, throws).0)
    decreases s, |s.subs| + 1
  {
    hide Enterable, InBody, AfterBody, Acquire, RunBody, RunSection, SectionStarted, Skips, Enters;
    var p := c.current + [s.name];
    if Skips(c, s) {
      SkippedRun(c, s, throws);
      SkipEnters(c, s);
    } else {
      OpenedRun(c, s, throws);
      OpenEnters(c, s);
      var c1 := SectionStarted(c, s.name).0;
      var (c2, threw) := RunBody(c1, p, s, 0, throws);
      RunBodyEnters(c1, p, s, 0, throws);
      StaysEntered(c1, c2, p);
      EndEnters(c2, p, s);
      EndedEnters(c, c1, c2, p, threw);
    }
  }

  lemma StaysEntered(c: Context, c': Context, p: Path)
    requires Enters(c, c') && p in c.entered
    ensures p in c'.entered
  {
  }

  lemma EndedEnters(c: Context, c1: Context, c2: Context, p: Path, threw: bool)
    requires Enters(c, c1) && Enters(c1, c2) && c2.active == c.active + [p]
    requires Enters(c2, Close(c2, p)) && Enters(c2, Fail(c2, p))
    ensures Enters(c, if threw then SectionEndedEarly(c2) else SectionEnded(c2))
  {
    EntersChain(c, c1, c2);
    EntersChain(c, c2, Close(c2, p));
    EntersChain(c, c2, Fail(c2, p));
    hide Close, Fail;
  }

  lemma {:induction false} RunBodyEnters(c: Context, p: Path, s: Section, i: nat, throws: Throws)
    requires i <= |s.subs| && InBody(c, p, s, i)
    ensures Enters(c, RunBody(c, p, s, i, throws).0)
    decreases s, |s.subs| - i
  {
    hide InBody, SectionDone, Enterable, Enters;
    if throws(p, i) || i == |s.subs| {
      EntersItself(c);
    } else {
      BodyEnters(c, p, s, i);
      RunSectionKeeps(c, s.subs[i], throws);
      RunSectionEnters(c, s.subs[i], throws);
      var (c1, threw) := RunSection(c, s.subs[i], throws);
      if !threw {
        BodyContinues(c, p, s, i, c1);
        RunBodyEnters(c1, p, s, i + 1, throws);
        EntersChain(c, c1, RunBody(c1, p, s, i + 1, throws).0);
      }
    }
  }

  lemma EntersItself(c: Context)
    ensures Enters(c, c)
  {
  }

  // ----- whole cycles

  /** Whether the test is thorough as a whole: its own body must not throw, unless only leaves do. */
  ghost predicate TestThorough(t: Trackers, test: Section, whole: bool, strict: bool) {
    ThoroughBelow(t, [test.name], test, strict) && (whole || strict ==> Thorough(t, [test.name], test, strict))
  }

  /** The body and the end of a cycle, as the earlier parts see them. */
  lemma CycleParts(c: Context, test: Section, throws: Throws)
    requires BetweenCycles(c, test) && !TestComplete(c, test)
    ensures
      var c0, p := c.(current := [], completedCycle := false, entered := []), [test.name];
      var c1 := Acquire(c0, test.name);
      var c2 := RunBody(c1, p, test, 0, throws).0;
      && Enterable(c0, test) && !Skips(c0, test) && c0.current + [test.name] == p
      && InBody(c1, p, test, 0) && AfterBody(c2, p, test)
      && Cycle(c, test, throws) == Close(c2, p).(unfinished := 0)
  {
    hide Rest, Known, Distinct, RunBody, Close, Acquire, HandleUnfinished;
    var p := [test.name];
    var c0 := c.(current := [], completedCycle := false, entered := []);
    assert [] + [test.name] == p;
    EntersTest(c, test);
    AcquireOpens(c0, test);
    var c1 := Acquire(c0, test.name);
    RunBodyKeeps(c1, p, test, 0, throws);
    var (c2, threw) := RunBody(c1, p, test, 0, throws);
    CloseRests(c2, p, test);
    UnfinishedForgotten(Close(c2, p));
  }

  lemma CycleThorough(c: Context, test: Section, throws: Throws, whole: bool, strict: bool)
    requires BetweenCycles(c, test) && !TestComplete(c, test) && ThoroughBelow(c.trackers, [test.name], test, strict)
    requires strict ==> LeavesThrow(throws, [test.name], test)
    requires whole ==> !ThrowsItself(throws, [test.name], test)
    ensures TestThorough(Cycle(c, test, throws).trackers, test, whole, strict)
  {
    var c0, p := c.(current := [], completedCycle := false, entered := []), [test.name];
    CycleParts(c, test, throws);
    var c1 := Acquire(c0, test.name);
    var (c2, threw) := RunBody(c1, p, test, 0, throws);
    assert Thorough(c0.trackers, p, test, strict);
    OpenedThorough(c0, test, strict);
    RunBodyThorough(c1, p, test, 0, throws, strict);
    hide Cycle, RunBody, Acquire, InBody, Enterable;
    if threw && c2.unfinished == 0 {
      CloseRests(c2, p, test);
      BelowKept(c2.trackers, Close(c2, p).trackers, p, test, strict);
    } else {
      ClosedThorough(c2, p, test, threw, strict);
    }
  }

  lemma CycleEnters(c: Context, test: Section, throws: Throws)
    requires BetweenCycles(c, test) && !TestComplete(c, test)
    ensures
      var c' := Cycle(c, test, throws);
      forall k :: CompleteAt(c'.trackers, k) && !CompleteAt(c.trackers, k) && k != [test.name] ==> k in c'.entered
  {
    var c0, p := c.(current := [], completedCycle := false, entered := []), [test.name];
    CycleParts(c, test, throws);
    var c1 := Acquire(c0, test.name);
    OpenEnters(c0, test);
    RunBodyEnters(c1, p, test, 0, throws);
    var c2 := RunBody(c1, p, test, 0, throws).0;
    CloseRests(c2, p, test);
    hide Cycle, RunBody, Acquire, InBody, Enterable, AfterBody, Close, Rest;
    EntersChain(c0, c1, c2);
  }

  // ----- whole runs

  /** In no cycle does the body of the test itself throw. */
  ghost predicate TestQuiet(test: Section, oracle: nat -> Throws) {
    forall i: nat :: !ThrowsItself(oracle(i), [test.name], test)
  }

  /** In every cycle only leaves throw. */
  ghost predicate OnlyLeavesThrow(test: Section, oracle: nat -> Throws) {
    forall i: nat :: LeavesThrow(oracle(i), [test.name], test)
  }

  /** Whatever is thrown, successful sections have complete subsections; for the test itself, if its
      own body throws nothing. If only leaves throw, so have failed ones. */
  lemma {:induction false} RepeatedThorough(test: Section, oracle: nat -> Throws, k: nat)
    requires Distinct(test)
    ensures
      var t := Repeated(test, oracle, k).trackers;
      && TestThorough(t, test, TestQuiet(test, oracle), false)
      && (OnlyLeavesThrow(test, oracle) ==> TestThorough(t, test, true, true))
  {
    hide BetweenCycles, Cycle, TestComplete, LeavesThrow, ThrowsItself;
    if k == 0 {
      StartThorough(test, false);
      StartThorough(test, true);
    } else {
      RepeatedThorough(test, oracle, k - 1);
      RepeatedKeeps(test, oracle, k - 1);
      var c := Repeated(test, oracle, k - 1);
      if !TestComplete(c, test) {
        CycleThorough(c, test, oracle(k - 1), TestQuiet(test, oracle), false);
        if OnlyLeavesThrow(test, oracle) {
          CycleThorough(c, test, oracle(k - 1), false, true);
        }
      }
    }
  }

  lemma StartThorough(test: Section, strict: bool)
    ensures TestThorough(StartRun().trackers, test, true, strict)
  {
    AbsentThorough(StartRun().trackers, [test.name], test, strict);
  }

  /** In some cycle so far. */
  ghost predicate EnteredBy(test: Section, oracle: nat -> Throws, n: nat, q: Path) {
    exists j :: 0 < j <= n && q in Repeated(test, oracle, j).entered
  }

  lemma {:induction false} RepeatedEnters(test: Section, oracle: nat -> Throws, n: nat, q: Path)
    requires Distinct(test) && CompleteAt(Repeated(test, oracle, n).trackers, q) && q != [test.name]
    ensures EnteredBy(test, oracle, n, q)
  {
    hide BetweenCycles, Cycle, TestComplete;
    if n > 0 {
      var c := Repeated(test, oracle, n - 1);
      if CompleteAt(c.trackers, q) {
        RepeatedEnters(test, oracle, n - 1, q);
      } else {
        RepeatedKeeps(test, oracle, n - 1);
        CycleEnters(c, test, oracle(n - 1));
        assert q in Repeated(test, oracle, n).entered;
      }
    }
  }

  lemma {:induction false} AllComplete(t: Trackers, p: Path, s: Section, q: Path)
    requires Thorough(t, p, s, true) && CompleteAt(t, p) && q in Statics(p, s)
    ensures CompleteAt(t, q)
    decreases s, |s.subs| + 1
  {
    if q != p {
      AllCompleteFrom(t, p, s, 0, q);
    }
  }

  lemma {:induction false} AllCompleteFrom(t: Trackers, p: Path, s: Section, i: nat, q: Path)
    requires i <= |s.subs| && Thorough(t, p, s, true) && CompleteAt(t, p) && q in StaticsFrom(p, s, i)
    ensures CompleteAt(t, q)
    decreases s, |s.subs| - i
  {
    if q in Statics(Child(p, s, i), s.subs[i]) {
      assert CompleteAt(t, Child(p, s, i));
      AllComplete(t, Child(p, s, i), s.subs[i], q);
    } else {
      AllCompleteFrom(t, p, s, i + 1, q);
    }
  }

  /** If only leaves throw, a complete test has entered every section. */
  lemma EverySectionEntered(test: Section, oracle: nat -> Throws, n: nat, q: Path)
    requires Distinct(test) && OnlyLeavesThrow(test, oracle) && TestComplete(Repeated(test, oracle, n), test)
    requires q in Statics([test.name], test) && q != [test.name]
    ensures EnteredBy(test, oracle, n, q)
  {
    hide Repeated;
    RepeatedThorough(test, oracle, n);
    AllComplete(Repeated(test, oracle, n).trackers, [test.name], test, q);
    RepeatedEnters(test, oracle, n, q);
  }

  /** In some cycle of a history. */
  predicate Entered(history: seq<seq<Path>>, q: Path) {
    exists k :: 0 <= k < |history| && q in history[k]
  }

  /** What the sections entered in each cycle of a complete run cover: every complete section and, if
      only leaves throw, every section. */
  ghost predicate Visited(t: Trackers, test: Section, oracle: nat -> Throws, history: seq<seq<Path>>) {
    && TestThorough(t, test, TestQuiet(test, oracle), false)
    && (forall q :: CompleteAt(t, q) && q != [test.name] ==> Entered(history, q))
    && (OnlyLeavesThrow(test, oracle) ==>
          forall q :: q in Statics([test.name], test) && q != [test.name] ==> Entered(history, q))
  }

  lemma HistoryVisits(test: Section, oracle: nat -> Throws, history: seq<seq<Path>>)
    requires Distinct(test) && TestComplete(Repeated(test, oracle, |history|), test)
    requires forall k :: 0 <= k < |history| ==> history[k] == Repeated(test, oracle, k + 1).entered
    ensures Visited(Repeated(test, oracle, |history|).trackers, test, oracle, history)
  {
    hide Repeated, TestThorough, TestQuiet, OnlyLeavesThrow, TestComplete;
    var n := |history|;
    var t := Repeated(test, oracle, n).trackers;
    RepeatedThorough(test, oracle, n);
    forall q | EnteredBy(test, oracle, n, q)
      ensures Entered(history, q)
    {
      var j :| 0 < j <= n && q in Repeated(test, oracle, j).entered;
      assert q in history[j - 1];
    }
    forall q | CompleteAt(t, q) && q != [test.name]
      ensures Entered(history, q)
    {
      RepeatedEnters(test, oracle, n, q);
    }
    if OnlyLeavesThrow(test, oracle) {
      forall q | q in Statics([test.name], test) && q != [test.name]
        ensures Entered(history, q)
      {
        EverySectionEntered(test, oracle, n, q);
      }
    }
  }
}
