/** Without exceptions a test takes exactly one cycle per leaf section, and the k-th cycle enters
    exactly the sections on the path to the k-th leaf in document order. */
module SectionOrder {
  import opened Tracking
  import opened SectionRuns

  // ----- leaves in document order

  /** Leaves of the first i subsections. */
  function Before(s: Section, i: nat): nat
    requires i <= |s.subs|
    decreases s, i
  {
    if i == 0 then 0 else Before(s, i - 1) + Leaves(s.subs[i - 1])
  }

  function Leaves(s: Section): (n: nat)
    decreases s, |s.subs| + 1
  {
    if s.subs == [] then 1 else Before(s, |s.subs|)
  }

  lemma {:induction false} LeavesPositive(s: Section)
    ensures Leaves(s) >= 1
    decreases s
  {
    if s.subs != [] {
      LeavesPositive(s.subs[|s.subs| - 1]);
    }
  }

  lemma {:induction false} BeforeMonotonic(s: Section, i: nat, j: nat)
    requires i <= j <= |s.subs|
    ensures Before(s, i) <= Before(s, j)
    decreases j
  {
    if i < j {
      BeforeMonotonic(s, i, j - 1);
    }
  }

  /** How many leaves of the k-th subsection have run once j leaves of the section have. */
  function Progress(s: Section, k: nat, j: nat): nat
    requires k < |s.subs|
  {
    if j <= Before(s, k) then 0
    else if j >= Before(s, k + 1) then Leaves(s.subs[k])
    else j - Before(s, k)
  }

  /** The subtree of a section after j of its leaves have run. */
  ghost predicate After(t: Trackers, p: Path, s: Section, j: nat)
    decreases s
  {
    && p in t
    && if j == 0 then t[p] == Tracker(NotStarted, [])
       else
         && |t[p].children| == |s.subs|
         && t[p].state == (if j >= Leaves(s) then CompletedSuccessfully else ExecutingChildren)
         && forall k :: 0 <= k < |s.subs| ==> After(t, Child(p, s, k), s.subs[k], Progress(s, k, j))
  }

  lemma {:induction false} AfterFrame(t: Trackers, t': Trackers, p: Path, s: Section, j: nat)
    requires SameUnder(t, t', p) && After(t, p, s, j)
    ensures After(t', p, s, j)
    decreases s
  {
    if j > 0 {
      forall k | 0 <= k < |s.subs|
        ensures After(t', Child(p, s, k), s.subs[k], Progress(s, k, j))
      {
        AfterFrame(t, t', Child(p, s, k), s.subs[k], Progress(s, k, j));
      }
    }
  }

  /** The sections on the way to the j-th leaf. */
  function LeafPath(p: Path, s: Section, j: nat): seq<Path>
    decreases s, |s.subs| + 1
  {
    [p] + LeafPathFrom(p, s, 0, j)
  }

  function LeafPathFrom(p: Path, s: Section, i: nat, j: nat): seq<Path>
    requires i <= |s.subs|
    decreases s, |s.subs| - i
  {
    if i == |s.subs| then []
    else if Before(s, i) <= j < Before(s, i + 1) then LeafPath(Child(p, s, i), s.subs[i], j - Before(s, i))
    else LeafPathFrom(p, s, i + 1, j)
  }

  predicate NoThrows(throws: Throws, p: Path, s: Section)
    decreases s
  {
    && (forall i :: 0 <= i <= |s.subs| ==> !throws(p, i))
    && (forall i :: 0 <= i < |s.subs| ==> NoThrows(throws, Child(p, s, i), s.subs[i]))
  }

  // ----- through a body

  /** In a body at its i-th subsection: the earlier ones stand after j + 1 leaves, the later known
      ones after j; the cycle is over exactly when the j-th leaf lies behind. */
  ghost predicate Midway(c: Context, p: Path, s: Section, i: nat, j: nat) {
    var t := c.trackers;
    && InBody(c, p, s, i)
    && (c.completedCycle <==> j < Before(s, i))
    && (forall k :: 0 <= k < i ==> After(t, Child(p, s, k), s.subs[k], Progress(s, k, j + 1)))
    && (forall k :: i <= k < |t[p].children| ==> After(t, Child(p, s, k), s.subs[k], Progress(s, k, j)))
    && (|t[p].children| == |s.subs| || j == 0)
  }

  /** Before the i-th subsection is met: how far it is, known or not. */
  lemma MidwayChild(c: Context, p: Path, s: Section, i: nat, j: nat)
    requires Midway(c, p, s, i, j) && i < |s.subs|
    ensures Child(p, s, i) in c.trackers ==> After(c.trackers, Child(p, s, i), s.subs[i], Progress(s, i, j))
    ensures Child(p, s, i) !in c.trackers ==> Progress(s, i, j) == 0
  {
    BeforeMonotonic(s, 0, i);
    if i >= |c.trackers[p].children| {
      assert Absent(c.trackers, Child(p, s, i));
    }
  }

  /** Meeting the i-th subsection moves it from j to j + 1. */
  lemma MidwayStep(c: Context, p: Path, s: Section, i: nat, j: nat, c': Context)
    requires Midway(c, p, s, i, j) && i < |s.subs|
    requires SectionDone(c, s.subs[i], c', false)
    requires After(c'.trackers, Child(p, s, i), s.subs[i], Progress(s, i, j + 1))
    requires c'.completedCycle <==> j < Before(s, i + 1)
    ensures Midway(c', p, s, i + 1, j)
  {
    hide After, InBody, SectionDone, Before, Progress;
    BodyContinues(c, p, s, i, c');
    MidwayOthers(c, p, s, i, j, c');
  }

  lemma MidwayOthers(c: Context, p: Path, s: Section, i: nat, j: nat, c': Context)
    requires Midway(c, p, s, i, j) && i < |s.subs|
    requires SectionDone(c, s.subs[i], c', false)
    ensures p in c'.trackers && |c'.trackers[p].children| <= |s.subs|
    ensures forall k :: 0 <= k < i ==> After(c'.trackers, Child(p, s, k), s.subs[k], Progress(s, k, j + 1))
    ensures forall k :: i < k < |c'.trackers[p].children| ==>
              After(c'.trackers, Child(p, s, k), s.subs[k], Progress(s, k, j))
    ensures |c'.trackers[p].children| == |s.subs| || j == 0
  {
    hide After;
    var t, t' := c.trackers, c'.trackers;
    KnownAfterSection(c, p, s, i, c', false);
    forall k | 0 <= k < |s.subs| && k != i
      ensures SameUnder(t, t', Child(p, s, k))
    {
      SiblingSame(t, t', p, s, i, k);
    }
    forall k | 0 <= k < i
      ensures After(t', Child(p, s, k), s.subs[k], Progress(s, k, j + 1))
    {
      AfterFrame(t, t', Child(p, s, k), s.subs[k], Progress(s, k, j + 1));
    }
    forall k | i < k < |t'[p].children|
      ensures After(t', Child(p, s, k), s.subs[k], Progress(s, k, j))
    {
      AfterFrame(t, t', Child(p, s, k), s.subs[k], Progress(s, k, j));
    }
  }

  // ----- closing

  lemma AfterComplete(t: Trackers, p: Path, s: Section, j: nat)
    requires After(t, p, s, j)
    ensures CompleteAt(t, p) <==> j >= Leaves(s)
    ensures NotStartedAt(t, p) <==> j == 0
  {
    LeavesPositive(s);
  }

  lemma ProgressFull(s: Section, k: nat, j: nat)
    requires k < |s.subs|
    ensures j >= Leaves(s) ==> Progress(s, k, j) >= Leaves(s.subs[k])
    ensures k == |s.subs| - 1 && j < Leaves(s) ==> Progress(s, k, j) < Leaves(s.subs[k])
  {
    BeforeMonotonic(s, k + 1, |s.subs|);
    LeavesPositive(s.subs[k]);
  }

  /** All subsections are complete exactly when all leaves have run. */
  lemma ChildrenCompleteIff(t: Trackers, p: Path, s: Section, j: nat)
    requires p in t && Known(t, p, s) && |t[p].children| == |s.subs| > 0 && j <= Leaves(s)
    requires forall k :: 0 <= k < |s.subs| ==> After(t, Child(p, s, k), s.subs[k], Progress(s, k, j))
    ensures ChildrenComplete(t, p) <==> j == Leaves(s)
  {
    hide After, Rest, Progress, Leaves, Absent;
    var n := |s.subs|;
    if j == Leaves(s) {
      forall name | name in t[p].children
        ensures CompleteAt(t, p + [name])
      {
        var k :| 0 <= k < n && t[p].children[k] == name;
        ProgressFull(s, k, j);
        AfterComplete(t, Child(p, s, k), s.subs[k], Progress(s, k, j));
      }
    } else {
      ProgressFull(s, n - 1, j);
      AfterComplete(t, Child(p, s, n - 1), s.subs[n - 1], Progress(s, n - 1, j));
      assert t[p].children[n - 1] in t[p].children;
    }
  }

  /** Closing a section whose body has been passed: one more leaf has run. */
  lemma ClosesInOrder(c: Context, p: Path, s: Section, j: nat)
    requires Midway(c, p, s, |s.subs|, j) && p != [] && j < Leaves(s)
    ensures After(Close(c, p).trackers, p, s, j + 1)
  {
    hide Rest;
    var t, t' := c.trackers, Close(c, p).trackers;
    if s.subs != [] {
      ChildrenCompleteIff(t, p, s, j + 1);
    }
    forall k | 0 <= k < |s.subs|
      ensures After(t', Child(p, s, k), s.subs[k], Progress(s, k, j + 1))
    {
      AfterFrame(t, t', Child(p, s, k), s.subs[k], Progress(s, k, j + 1));
    }
  }

  // ----- whole runs

  /** The first encounter with a body starts midway at its first subsection. */
  lemma MidwayStart(c: Context, s: Section, j: nat)
    requires Enterable(c, s) && !Skips(c, s) && j < Leaves(s)
    requires var p := c.current + [s.name]; if p in c.trackers then After(c.trackers, p, s, j) else j == 0
    ensures Midway(SectionStarted(c, s.name).0, c.current + [s.name], s, 0, j)
    ensures Midway(Acquire(c, s.name), c.current + [s.name], s, 0, j)
  {
    hide Rest, Known, Distinct;
    var p, t, c1 := c.current + [s.name], c.trackers, Acquire(c, s.name);
    AcquireOpens(c, s);
    forall k | 0 <= k < |c1.trackers[p].children|
      ensures After(c1.trackers, Child(p, s, k), s.subs[k], Progress(s, k, j))
    {
      assert SameUnder(t, c1.trackers, Child(p, s, k));
      AfterFrame(t, c1.trackers, Child(p, s, k), s.subs[k], Progress(s, k, j));
    }
  }

  /** One section in a cycle that throws nothing: unchanged when the cycle is over or the section
      is complete, and otherwise one leaf further, having entered exactly the way to that leaf. */
  ghost predicate InOrder(c: Context, s: Section, j: nat, c': Context, threw: bool) {
    var p := c.current + [s.name];
    && !threw
    && if c.completedCycle || j == Leaves(s) then
         After(c'.trackers, p, s, j) && c'.entered == c.entered
       else
         && c'.completedCycle && After(c'.trackers, p, s, j + 1)
         && c'.entered == c.entered + LeafPath(p, s, j)
  }

  lemma SkipsInOrder(c: Context, s: Section, j: nat)
    requires Enterable(c, s) && Skips(c, s) && j <= Leaves(s)
    requires var p := c.current + [s.name]; if p in c.trackers then After(c.trackers, p, s, j) else j == 0
    ensures InOrder(c, s, j, Acquire(c, s.name), false)
  {
    hide Rest, Known;
    LeavesPositive(s);
    var p, t := c.current + [s.name], c.trackers;
    if p in t {
      AfterComplete(t, p, s, j);
    }
  }

  lemma EndsInOrder(c: Context, s: Section, j: nat, c1: Context, c2: Context)
    requires Enterable(c, s) && !Skips(c, s) && j < Leaves(s)
    requires c1 == SectionStarted(c, s.name).0
    requires var p := c.current + [s.name];
             && BodyDone(c1, p, s, 0, c2, false) && Midway(c2, p, s, |s.subs|, j)
             && c2.entered == c1.entered + LeafPathFrom(p, s, 0, j)
    ensures InOrder(c, s, j, SectionEnded(c2), false)
  {
    hide After, LeafPathFrom, Midway, Enterable, BodyDone, SectionStarted, Close, Kept, Statics, Rest, Known;
    var p := c.current + [s.name];
    ClosesInOrder(c2, p, s, j);
    OpenedBody(c, s, c1, c2, false);
    StartedFacts(c, s);
    ClosedFacts(c2, p, s);
    assert c2.entered == c.entered + LeafPath(p, s, j);
  }

  lemma StartedFacts(c: Context, s: Section)
    requires Enterable(c, s) && !Skips(c, s)
    ensures SectionStarted(c, s.name).0.entered == c.entered + [c.current + [s.name]]
  {
    hide Rest, Known;
    AcquireOpens(c, s);
  }

  lemma ClosedFacts(c: Context, p: Path, s: Section)
    requires AfterBody(c, p, s) && p != []
    ensures Close(c, p).entered == c.entered && Close(c, p).completedCycle
  {
    hide Rest, Known;
  }

  lemma OpensInOrder(c: Context, s: Section, j: nat)
    requires Enterable(c, s) && !Skips(c, s) && j <= Leaves(s)
    requires var p := c.current + [s.name]; if p in c.trackers then After(c.trackers, p, s, j) else j == 0
    ensures j < Leaves(s)
    ensures var (c1, open) := SectionStarted(c, s.name);
            open && !c1.completedCycle && Midway(c1, c.current + [s.name], s, 0, j)
  {
    hide After, Midway, Rest, Known;
    var p := c.current + [s.name];
    LeavesPositive(s);
    if p in c.trackers {
      AfterComplete(c.trackers, p, s, j);
    }
    MidwayStart(c, s, j);
    AcquireOpens(c, s);
  }

  lemma MidwayInBody(c: Context, p: Path, s: Section, i: nat, j: nat)
    requires Midway(c, p, s, i, j)
    ensures InBody(c, p, s, i)
  {
  }

  lemma {:induction false} RunSectionInOrder(c: Context, s: Section, throws: Throws, j: nat)
    requires Enterable(c, s) && j <= Leaves(s) && NoThrows(throws, c.current + [s.name], s)
    requires var p := c.current + [s.name]; if p in c.trackers then After(c.trackers, p, s, j) else j == 0
    ensures var (c', threw) := RunSection(c, s, throws); InOrder(c, s, j, c', threw)
    decreases s, |s.subs| + 1
  {
    hide After, Enterable, InBody, Midway, InOrder, BodyDone, Acquire, LeafPathFrom, SectionEnded;
    var p := c.current + [s.name];
    if Skips(c, s) {
      SkipsInOrder(c, s, j);
      AcquireSkips(c, s);
    } else {
      OpensInOrder(c, s, j);
      var c1 := SectionStarted(c, s.name).0;
      RunBodyInOrder(c1, p, s, 0, throws, j);
      MidwayInBody(c1, p, s, 0, j);
      RunBodyKeeps(c1, p, s, 0, throws);
      var (c2, threw) := RunBody(c1, p, s, 0, throws);
      EndsInOrder(c, s, j, c1, c2);
    }
  }

  lemma {:induction false} RunBodyInOrder(c: Context, p: Path, s: Section, i: nat, throws: Throws, j: nat)
    requires i <= |s.subs| && Midway(c, p, s, i, j) && NoThrows(throws, p, s)
    ensures
      var (c', threw) := RunBody(c, p, s, i, throws);
      && !threw && Midway(c', p, s, |s.subs|, j)
      && c'.entered == c.entered + if c.completedCycle then [] else LeafPathFrom(p, s, i, j)
    decreases s, |s.subs| - i
  {
    hide After, InBody, SectionDone, LeafPath;
    if i < |s.subs| {
      var sub, d := s.subs[i], Progress(s, i, j);
      LeavesPositive(sub);
      assert InBody(c, p, s, i);
      BodyEnters(c, p, s, i);
      MidwayChild(c, p, s, i, j);
      assert c.current == p by { CurrentInBody(c, p, s, i); }
      RunSectionInOrder(c, sub, throws, d);
      RunSectionKeeps(c, sub, throws);
      var (c1, threw) := RunSection(c, sub, throws);
      StepInOrder(c, p, s, i, j, c1, threw);
      RunBodyInOrder(c1, p, s, i + 1, throws, j);
    }
  }

  lemma CurrentInBody(c: Context, p: Path, s: Section, i: nat)
    requires InBody(c, p, s, i)
    ensures c.current == p
  {
  }

  /** One subsection further through the body. */
  lemma StepInOrder(c: Context, p: Path, s: Section, i: nat, j: nat, c1: Context, threw: bool)
    requires Midway(c, p, s, i, j) && i < |s.subs|
    requires InOrder(c, s.subs[i], Progress(s, i, j), c1, threw) && SectionDone(c, s.subs[i], c1, threw)
    ensures Midway(c1, p, s, i + 1, j)
    ensures c1.entered + (if c1.completedCycle then [] else LeafPathFrom(p, s, i + 1, j))
            == c.entered + if c.completedCycle then [] else LeafPathFrom(p, s, i, j)
  {
    var sub := s.subs[i];
    LeavesPositive(sub);
    MidwayChild(c, p, s, i, j);
    if Child(p, s, i) in c.trackers {
      AfterComplete(c.trackers, Child(p, s, i), sub, Progress(s, i, j));
    }
    hide After, InBody;
    assert c.current == p by { CurrentInBody(c, p, s, i); }
    MidwayStep(c, p, s, i, j, c1);
  }

  // ----- whole tests

  /** A test between cycles of which j leaves have run. */
  ghost predicate TestAfter(c: Context, test: Section, j: nat) {
    var p := [test.name];
    && BetweenCycles(c, test)
    && if p in c.trackers then After(c.trackers, p, test, j) else j == 0
  }

  /** One cycle without exceptions runs the next leaf and enters exactly the way to it. */
  lemma CycleInOrder(c: Context, test: Section, throws: Throws, j: nat)
    requires TestAfter(c, test, j) && j < Leaves(test) && NoThrows(throws, [test.name], test)
    ensures
      var c' := Cycle(c, test, throws);
      && TestAfter(c', test, j + 1)
      && [[test.name]] + c'.entered == LeafPath([test.name], test, j)
      && (TestComplete(c', test) <==> j + 1 == Leaves(test))
  {
    hide After, Midway, Rest, Known, Distinct, RunBody, Close, Acquire;
    hide LeafPathFrom, InBody, BodyDone, HandleUnfinished;
    var p := [test.name];
    var c0 := c.(current := [], completedCycle := false, entered := []);
    assert [] + [test.name] == p;
    if p in c.trackers {
      AfterComplete(c.trackers, p, test, j);
    }
    EntersTest(c, test);
    MidwayStart(c0, test, j);
    var c1 := Acquire(c0, test.name);
    OpenedTest(c0, test);
    RunBodyKeeps(c1, p, test, 0, throws) by { MidwayInBody(c1, p, test, 0, j); }
    RunBodyInOrder(c1, p, test, 0, throws, j);
    var (c2, _) := RunBody(c1, p, test, 0, throws);
    ClosesInOrder(c2, p, test, j);
    MidwayInBody(c2, p, test, |test.subs|, j);
    TestCloses(c2, p, test);
    assert c2.active == [] by { ActiveKept(c1, p, test, c2); }
    UnfinishedForgotten(Close(c2, p));
    CycleKeeps(c, test, throws);
    LastLeafCompletes(Cycle(c, test, throws), test, j + 1);
  }

  lemma OpenedTest(c0: Context, test: Section)
    requires Enterable(c0, test) && !Skips(c0, test)
    ensures var c1 := Acquire(c0, test.name);
            c1.entered == c0.entered && !c1.completedCycle && c1.active == c0.active
  {
    hide Rest, Known;
    AcquireOpens(c0, test);
  }

  lemma TestCloses(c: Context, p: Path, s: Section)
    requires InBody(c, p, s, |s.subs|) && p != []
    ensures Close(c, p).entered == c.entered && Close(c, p).active == c.active
  {
  }

  lemma ActiveKept(c1: Context, p: Path, s: Section, c2: Context)
    requires BodyDone(c1, p, s, 0, c2, true) || BodyDone(c1, p, s, 0, c2, false)
    ensures c2.active == c1.active
  {
  }

  lemma LastLeafCompletes(c: Context, test: Section, j: nat)
    requires j > 0 && After(c.trackers, [test.name], test, j)
    ensures [test.name] in c.trackers
    ensures TestComplete(c, test) <==> j >= Leaves(test)
  {
  }

  // ----- the repeated test

  /** The context after at most k cycles; a complete test is not run again. */
  function Repeated(test: Section, oracle: nat -> Throws, k: nat): Context {
    if k == 0 then StartRun()
    else
      var c := Repeated(test, oracle, k - 1);
      if TestComplete(c, test) then c else Cycle(c, test, oracle(k - 1))
  }

  lemma Starts(test: Section)
    requires Distinct(test)
    ensures BetweenCycles(StartRun(), test) && TestAfter(StartRun(), test, 0)
    ensures Completed(StartRun().trackers) == {} && !TestComplete(StartRun(), test)
  {
  }

  /** Whatever is thrown, every further cycle completes another tracker until the test is. */
  lemma {:induction false} RepeatedKeeps(test: Section, oracle: nat -> Throws, k: nat)
    requires Distinct(test)
    ensures var c := Repeated(test, oracle, k);
            && BetweenCycles(c, test)
            && Completed(c.trackers) <= Statics([test.name], test)
            && (TestComplete(c, test) || k <= |Completed(c.trackers)|)
  {
    hide BetweenCycles, Cycle, Statics;
    if k == 0 {
      Starts(test);
    } else {
      RepeatedKeeps(test, oracle, k - 1);
      var c := Repeated(test, oracle, k - 1);
      if !TestComplete(c, test) {
        CycleKeeps(c, test, oracle(k - 1));
        SmallerSet(Completed(c.trackers), Completed(Cycle(c, test, oracle(k - 1)).trackers));
      }
    }
  }

  lemma SmallerSet(a: set<Path>, b: set<Path>)
    requires a < b
    ensures |a| < |b|
  {
    var x :| x in b && x !in a;
    SubsetSize(a + {x}, b);
  }

  lemma {:induction false} SubsetSize(a: set<Path>, b: set<Path>)
    requires a <= b
    ensures |a| <= |b|
  {
    if a != {} {
      var x :| x in a;
      SubsetSize(a - {x}, b - {x});
    }
  }

  /** The loop ends after at most one cycle per section and one for the test case itself, in a
      logical state. */
  lemma RepeatedEnds(test: Section, oracle: nat -> Throws)
    requires Distinct(test)
    ensures TestComplete(Repeated(test, oracle, Count(test)), test)
    ensures !Repeated(test, oracle, Count(test)).illogical
  {
    hide Repeated, Statics, Count;
    var c := Repeated(test, oracle, Count(test));
    RepeatedKeeps(test, oracle, Count(test));
    if !TestComplete(c, test) {
      StaticsBound([test.name], test);
      SubsetSize(Completed(c.trackers), Statics([test.name], test));
      AllCompletedIsComplete(c, test);
    }
  }

  /** If every declared section is complete then so is the test. */
  lemma AllCompletedIsComplete(c: Context, test: Section)
    requires BetweenCycles(c, test) && Completed(c.trackers) <= Statics([test.name], test)
    requires |Completed(c.trackers)| >= |Statics([test.name], test)|
    ensures TestComplete(c, test)
  {
    var a, b := Completed(c.trackers), Statics([test.name], test);
    if a < b {
      SmallerSet(a, b);
    }
    assert [test.name] in b;
  }

  /** Without exceptions: one cycle per leaf, in document order. */
  lemma {:induction false} RepeatedInOrder(test: Section, oracle: nat -> Throws, k: nat)
    requires Distinct(test) && k <= Leaves(test)
    requires Quiet(test, oracle)
    ensures var c := Repeated(test, oracle, k);
            && TestAfter(c, test, k)
            && (TestComplete(c, test) <==> k == Leaves(test))
            && (k > 0 ==> [[test.name]] + c.entered == LeafPath([test.name], test, k - 1))
    decreases k
  {
    hide TestAfter, Cycle, LeafPath, NoThrows, Leaves;
    if k == 0 {
      Starts(test);
      LeavesPositive(test);
    } else {
      RepeatedInOrder(test, oracle, k - 1);
      CycleInOrder(Repeated(test, oracle, k - 1), test, oracle(k - 1), k - 1);
    }
  }

  /** An oracle that never throws in the test. */
  ghost predicate Quiet(test: Section, oracle: nat -> Throws) {
    forall i: nat :: NoThrows(oracle(i), [test.name], test)
  }

  /** A test that is not complete yet has a further cycle, and where that cycle leads. */
  lemma OneMoreCycle(test: Section, oracle: nat -> Throws, k: nat)
    requires Distinct(test) && k <= Count(test) && !TestComplete(Repeated(test, oracle, k), test)
    requires Quiet(test, oracle) ==> k <= Leaves(test)
    ensures k < Count(test)
    ensures Repeated(test, oracle, k + 1) == Cycle(Repeated(test, oracle, k), test, oracle(k))
    ensures Quiet(test, oracle) ==>
              && k < Leaves(test)
              && (TestComplete(Repeated(test, oracle, k + 1), test) <==> k + 1 == Leaves(test))
              && [[test.name]] + Repeated(test, oracle, k + 1).entered == LeafPath([test.name], test, k)
  {
    hide Leaves, LeafPath, NoThrows, Cycle, Count, TestAfter;
    RepeatedEnds(test, oracle);
    if Quiet(test, oracle) {
      RepeatedInOrder(test, oracle, k);
      RepeatedInOrder(test, oracle, k + 1);
    }
  }
}
