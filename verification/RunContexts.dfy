/** The run context in its own, mutable form: tracker operations that update the tree in place,
    the section callbacks, and the loop that repeats a test until it is complete. */
module RunContexts {
  import opened Tracking
  import opened SectionRuns
  import opened SectionOrder
  import opened SectionVisits
  import T = Tracking

  /** Every tracker lists exactly the children that exist, and has a parent. */
  ghost predicate Linked(t: Trackers) {
    && (forall p, n :: p in t ==> (n in t[p].children <==> p + [n] in t))
    && (forall p :: p in t && p != [] ==> Parent(p) in t)
  }

  /** States may change; the tree may not. */
  ghost predicate SameTree(t: Trackers, t': Trackers) {
    t'.Keys == t.Keys && forall p :: p in t ==> t'[p].children == t[p].children
  }

  lemma LinkedSame(t: Trackers, t': Trackers)
    requires Linked(t) && SameTree(t, t')
    ensures Linked(t')
  {
  }

  lemma {:induction false} OpenChildSameTree(t: Trackers, p: Path)
    ensures SameTree(t, T.OpenChild(t, p))
    decreases |p|
  {
    if p in t && t[p].state != ExecutingChildren && p != [] {
      OpenChildSameTree(T.SetState(t, p, ExecutingChildren), Parent(p));
    }
  }

  lemma {:induction false} CloseSameTree(c: Context, p: Path)
    ensures SameTree(c.trackers, T.Close(c, p).trackers)
    decreases |c.current|
  {
    if c.current != p && c.current != [] && c.current in c.trackers {
      CloseSameTree(T.CloseCurrent(c), p);
    }
  }

  lemma {:induction false} CloseKeepsUnfinished(c: Context, p: Path)
    ensures T.Close(c, p).unfinished == c.unfinished
    decreases |c.current|
  {
    if c.current != p && c.current != [] && c.current in c.trackers {
      CloseKeepsUnfinished(T.CloseCurrent(c), p);
    }
  }

  lemma AddChildLinked(t: Trackers, q: Path, name: Name)
    requires Linked(t) && q in t && q + [name] !in t
    ensures Linked(AddChild(t, q, name))
  {
    var p, t' := q + [name], AddChild(t, q, name);
    assert Parent(p) == q;
    forall x, n | x in t'
      ensures n in t'[x].children <==> x + [n] in t'
    {
      assert Parent(x + [n]) == x;
      assert x + [n] == p <==> x == q && n == name;
    }
  }

  lemma AcquireLinked(c: Context, name: Name)
    requires Linked(c.trackers)
    ensures Linked(T.Acquire(c, name).trackers)
  {
    if c.current in c.trackers {
      var p := c.current + [name];
      if p !in c.trackers {
        AddChildLinked(c.trackers, c.current, name);
      }
      var t := if p in c.trackers then c.trackers else AddChild(c.trackers, c.current, name);
      var t2 := T.SetState(t, p, Executing);
      OpenChildSameTree(t2, Parent(p));
      assert SameTree(t, T.OpenChild(t2, Parent(p)));
      LinkedSame(t, T.OpenChild(t2, Parent(p)));
    }
  }

  lemma EndLinked(c: Context)
    requires Linked(c.trackers)
    ensures Linked(T.SectionEnded(c).trackers) && Linked(T.SectionEndedEarly(c).trackers)
  {
    if c.active != [] {
      var p := c.active[|c.active| - 1];
      CloseSameTree(c, p);
      LinkedSame(c.trackers, T.Close(c, p).trackers);
      assert SameTree(c.trackers, T.Fail(c, p).trackers);
      LinkedSame(c.trackers, T.Fail(c, p).trackers);
    }
  }

  class RunContext {
    var trackers: Trackers
    var current: Path
    var completedCycle: bool
    var active: seq<Path>
    var unfinished: nat
    var entered: seq<Path>
    var illogical: bool

    ghost function View(): Context
      reads this
    {
      Context(trackers, current, completedCycle, active, unfinished, entered, illogical)
    }

    constructor ()
      ensures View() == StartRun()
    {
      trackers := map[[] := Tracker(NotStarted, [])];
      current, completedCycle, active, unfinished, entered, illogical := [], false, [], 0, [], false;
    }

    method SetState(p: Path, s: RunState)
      requires p in trackers
      modifies this`trackers
      ensures trackers == T.SetState(old(trackers), p, s)
    {
      trackers := trackers[p := trackers[p].(state := s)];
    }

    method OpenChild(p: Path)
      modifies this`trackers
      ensures trackers == T.OpenChild(old(trackers), p)
      decreases |p|
    {
      if p in trackers && trackers[p].state != ExecutingChildren {
        SetState(p, ExecutingChildren);
        if p != [] {
          OpenChild(Parent(p));
        }
      }
    }

    method Open(p: Path)
      requires p in trackers
      modifies this`trackers, this`current
      ensures View() == T.Open(old(View()), p)
    {
      SetState(p, Executing);
      current := p;
      if p != [] {
        OpenChild(Parent(p));
      }
    }

    method ChildrenComplete(p: Path) returns (all: bool)
      requires p in trackers
      ensures all == T.ChildrenComplete(trackers, p)
    {
      var names := trackers[p].children;
      for i := 0 to |names|
        invariant forall k :: 0 <= k < i ==> CompleteAt(trackers, p + [names[k]])
      {
        if !CompleteAt(trackers, p + [names[i]]) {
          assert names[i] in trackers[p].children;
          return false;
        }
      }
      return true;
    }

    method CloseCurrent()
      modifies this`trackers, this`current, this`completedCycle, this`illogical
      ensures View() == T.CloseCurrent(old(View()))
    {
      var p := current;
      if p == [] || p !in trackers {
        illogical := true;
        return;
      }
      match trackers[p].state {
        case NeedsAnotherRun =>
        case Executing =>
          SetState(p, CompletedSuccessfully);
        case ExecutingChildren =>
          var all := ChildrenComplete(p);
          if all {
            SetState(p, CompletedSuccessfully);
          }
        case NotStarted => illogical := true;
        case CompletedSuccessfully => illogical := true;
        case Failed => illogical := true;
      }
      current := Parent(p);
      completedCycle := true;
    }

    /** Closes any still open descendants first. */
    method Close(p: Path)
      modifies this`trackers, this`current, this`completedCycle, this`illogical
      ensures View() == T.Close(old(View()), p)
    {
      while current != p
        invariant T.Close(View(), p) == T.Close(old(View()), p)
        decreases |current|
      {
        if current == [] || current !in trackers {
          illogical := true;
          return;
        }
        CloseCurrent();
      }
      CloseCurrent();
    }

    method Fail(p: Path)
      modifies this`trackers, this`current, this`completedCycle, this`illogical
      ensures View() == T.Fail(old(View()), p)
    {
      if p == [] || p !in trackers {
        illogical := true;
        return;
      }
      SetState(p, Failed);
      if Parent(p) in trackers {
        SetState(Parent(p), NeedsAnotherRun);
      }
      current := Parent(p);
      completedCycle := true;
    }

    method FindChild(name: Name) returns (found: bool)
      requires current in trackers
      ensures found == (name in trackers[current].children)
    {
      var names := trackers[current].children;
      for i := 0 to |names|
        invariant name !in names[..i]
      {
        if names[i] == name {
          return true;
        }
      }
      return false;
    }

    method Acquire(name: Name)
      requires Linked(trackers)
      modifies this
      ensures View() == T.Acquire(old(View()), name)
    {
      if current !in trackers {
        illogical := true;
        return;
      }
      var p := current + [name];
      var found := FindChild(name);
      if !found {
        trackers := trackers[current := trackers[current].(children := trackers[current].children + [name])]
                            [p := Tracker(NotStarted, [])];
      }
      if !completedCycle && !Complete(trackers[p].state) {
        Open(p);
      }
    }

    method SectionStarted(name: Name) returns (open: bool)
      requires Linked(trackers)
      modifies this
      ensures (View(), open) == T.SectionStarted(old(View()), name) && Linked(trackers)
    {
      AcquireLinked(View(), name);
      var p := current + [name];
      Acquire(name);
      open := IsOpen(trackers, p);
      if open {
        active, entered := active + [p], entered + [p];
      }
    }

    method SectionEnded()
      requires Linked(trackers)
      modifies this
      ensures View() == T.SectionEnded(old(View())) && Linked(trackers)
      ensures unfinished == old(unfinished)
    {
      EndLinked(View());
      if active != [] {
        CloseKeepsUnfinished(View(), active[|active| - 1]);
        Close(active[|active| - 1]);
        active := active[..|active| - 1];
      }
    }

    method SectionEndedEarly()
      requires Linked(trackers)
      modifies this
      ensures View() == T.SectionEndedEarly(old(View())) && Linked(trackers)
    {
      EndLinked(View());
      if active == [] {
        illogical := true;
        return;
      }
      if unfinished == 0 {
        Fail(active[|active| - 1]);
      } else {
        Close(active[|active| - 1]);
      }
      active := active[..|active| - 1];
      unfinished := unfinished + 1;
    }

    /** A section of the test body: the guard object's constructor, the block, its destructor. */
    method RunSection(s: Section, throws: Throws) returns (threw: bool)
      requires Linked(trackers)
      modifies this
      ensures (View(), threw) == T.RunSection(old(View()), s, throws) && Linked(trackers)
      decreases s, |s.subs| + 1
    {
      var p := current + [s.name];
      var open := SectionStarted(s.name);
      if !open {
        return false;
      }
      threw := RunBody(p, s, throws);
      if threw {
        SectionEndedEarly();
      } else {
        SectionEnded();
      }
    }

    method RunBody(p: Path, s: Section, throws: Throws) returns (threw: bool)
      requires Linked(trackers)
      modifies this
      ensures (View(), threw) == T.RunBody(old(View()), p, s, 0, throws) && Linked(trackers)
      decreases s, |s.subs|
    {
      for i := 0 to |s.subs|
        invariant Linked(trackers)
        invariant T.RunBody(View(), p, s, i, throws) == T.RunBody(old(View()), p, s, 0, throws)
      {
        if throws(p, i) {
          return true;
        }
        var t := RunSection(s.subs[i], throws);
        if t {
          return true;
        }
      }
      return throws(p, |s.subs|);
    }

    method HandleUnfinished()
      requires Linked(trackers)
      modifies this
      ensures View() == T.HandleUnfinished(old(View())) && Linked(trackers)
    {
      hide T.SectionEnded, Linked;
      while unfinished > 0
        invariant Linked(trackers)
        invariant T.HandleUnfinished(View()) == T.HandleUnfinished(old(View()))
        decreases unfinished
      {
        SectionEnded();
        unfinished := unfinished - 1;
      }
    }

    method Cycle(test: Section, throws: Throws)
      requires Linked(trackers)
      modifies this
      ensures View() == T.Cycle(old(View()), test, throws) && Linked(trackers)
    {
      hide T.Acquire, T.RunBody, T.Close, T.HandleUnfinished, Linked;
      current, completedCycle, entered := [], false, [];
      AcquireLinked(View(), test.name);
      Acquire(test.name);
      var _ := RunBody([test.name], test, throws);
      CloseSameTree(View(), [test.name]);
      LinkedSame(trackers, T.Close(View(), [test.name]).trackers);
      Close([test.name]);
      HandleUnfinished();
    }

    /** Repeats the test until its tracker is complete. */
    method RunTest(test: Section, oracle: nat -> Throws) returns (cycles: nat, history: seq<seq<Path>>)
      requires View() == StartRun() && Distinct(test)
      modifies this
      ensures TestComplete(View(), test) && !illogical
      ensures 1 <= cycles <= Count(test) && |history| == cycles
      ensures Quiet(test, oracle) ==>
                && cycles == Leaves(test)
                && forall k :: 0 <= k < cycles ==> [[test.name]] + history[k] == LeafPath([test.name], test, k)
      ensures Visited(trackers, test, oracle, history)
    {
      hide Visited, Leaves, LeafPath, BetweenCycles, TestAfter, T.Cycle, Count, Statics, Repeated, Quiet, StartRun;
      cycles, history := 0, [];
      Beginning(test, oracle);
      while !([test.name] in trackers && trackers[[test.name]].state == CompletedSuccessfully)
        invariant Linked(trackers) && |history| == cycles
        invariant View() == Repeated(test, oracle, cycles)
        invariant cycles > 0 || !TestComplete(View(), test)
        invariant cycles <= Count(test)
        invariant forall k :: 0 <= k < cycles ==> history[k] == Repeated(test, oracle, k + 1).entered
        invariant Quiet(test, oracle) ==>
                    cycles <= Leaves(test) && (TestComplete(View(), test) <==> cycles == Leaves(test))
        invariant Quiet(test, oracle) ==> forall k :: 0 <= k < cycles ==>
                    [[test.name]] + history[k] == LeafPath([test.name], test, k)
        decreases Count(test) - cycles
      {
        OneMoreCycle(test, oracle, cycles);
        Cycle(test, oracle(cycles));
        cycles, history := cycles + 1, history + [entered];
      }
      RepeatedKeeps(test, oracle, cycles);
      HistoryVisits(test, oracle, history);
      LogicalBetween(View(), test);
    }
  }

  lemma Beginning(test: Section, oracle: nat -> Throws)
    requires Distinct(test)
    ensures Repeated(test, oracle, 0) == StartRun() && Linked(StartRun().trackers)
    ensures !TestComplete(StartRun(), test) && Leaves(test) >= 1
  {
    Starts(test);
    LeavesPositive(test);
  }

  lemma LogicalBetween(c: Context, test: Section)
    requires BetweenCycles(c, test)
    ensures !c.illogical
  {
  }
}
