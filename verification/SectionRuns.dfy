/** What every cycle of a test keeps, whatever its sections throw: complete trackers stay as they
    are, every cycle completes another one, and no tracker is closed in a state that cannot be. */
module SectionRuns {
  import opened Tracking

  // ----- frames

  ghost predicate SameUnder(t: Trackers, t': Trackers, p: Path) {
    forall k :: p <= k ==> (k in t <==> k in t') && (k in t ==> t[k] == t'[k])
  }

  lemma {:induction false} RestFrame(t: Trackers, t': Trackers, p: Path, s: Section)
    requires SameUnder(t, t', p) && Rest(t, p, s)
    ensures Rest(t', p, s)
    decreases s
  {
    if !Complete(t[p].state) {
      KnownFrame(t, t', p, s);
    }
  }

  lemma {:induction false} KnownFrame(t: Trackers, t': Trackers, p: Path, s: Section)
    requires p in t && p in t' && t[p].children == t'[p].children && Known(t, p, s)
    requires forall k :: 0 <= k < |s.subs| ==> SameUnder(t, t', Child(p, s, k))
    ensures Known(t', p, s)
    decreases s, 0
  {
    forall k | 0 <= k < |t[p].children|
      ensures Rest(t', Child(p, s, k), s.subs[k]) && t'[Child(p, s, k)] == t[Child(p, s, k)]
    {
      RestFrame(t, t', Child(p, s, k), s.subs[k]);
    }
    forall k | |t[p].children| <= k < |s.subs|
      ensures Absent(t', Child(p, s, k))
    {
      assert Absent(t, Child(p, s, k));
    }
  }

  /** Keys under one child are not under another. */
  lemma ChildrenApart(p: Path, s: Section, k: nat, l: nat, x: Path)
    requires Distinct(s) && k < |s.subs| && l < |s.subs| && k != l && Child(p, s, k) <= x
    ensures !(Child(p, s, l) <= x) && p <= x && x != p
  {
    assert Child(p, s, k)[|p|] == s.subs[k].name && Child(p, s, l)[|p|] == s.subs[l].name;
  }

  // ----- the static sections

  function Statics(p: Path, s: Section): set<Path>
    decreases s, |s.subs| + 1
  {
    {p} + StaticsFrom(p, s, 0)
  }

  function StaticsFrom(p: Path, s: Section, i: nat): set<Path>
    requires i <= |s.subs|
    decreases s, |s.subs| - i
  {
    if i == |s.subs| then {} else Statics(Child(p, s, i), s.subs[i]) + StaticsFrom(p, s, i + 1)
  }

  function Count(s: Section): nat
    decreases s, |s.subs| + 1
  {
    1 + CountFrom(s, 0)
  }

  function CountFrom(s: Section, i: nat): nat
    requires i <= |s.subs|
    decreases s, |s.subs| - i
  {
    if i == |s.subs| then 0 else Count(s.subs[i]) + CountFrom(s, i + 1)
  }

  lemma {:induction false} StaticsBound(p: Path, s: Section)
    ensures |Statics(p, s)| <= Count(s)
    ensures forall k :: k in Statics(p, s) ==> p <= k
    decreases s, |s.subs| + 1
  {
    StaticsFromBound(p, s, 0);
  }

  lemma {:induction false} StaticsFromBound(p: Path, s: Section, i: nat)
    requires i <= |s.subs|
    ensures |StaticsFrom(p, s, i)| <= CountFrom(s, i)
    ensures forall k :: k in StaticsFrom(p, s, i) ==> p <= k
    decreases s, |s.subs| - i
  {
    if i < |s.subs| {
      StaticsBound(Child(p, s, i), s.subs[i]);
      StaticsFromBound(p, s, i + 1);
    }
  }

  lemma {:induction false} StaticsOfChild(p: Path, s: Section, i: nat, k: nat)
    requires i <= k < |s.subs|
    ensures Statics(Child(p, s, k), s.subs[k]) <= StaticsFrom(p, s, i)
    decreases k - i
  {
    if i < k {
      StaticsOfChild(p, s, i + 1, k);
    }
  }

  // ----- what a run of a section promises

  ghost predicate Kept(t: Trackers, t': Trackers) {
    forall k :: CompleteAt(t, k) ==> k in t' && t'[k] == t[k]
  }

  ghost predicate Grown(t: Trackers, t': Trackers, p: Path) {
    exists k :: p <= k && CompleteAt(t', k) && !CompleteAt(t, k)
  }

  /** Before a section is met in the body of the current tracker. */
  ghost predicate Enterable(c: Context, s: Section) {
    var q, t := c.current, c.trackers;
    var p := q + [s.name];
    && q in t && !Complete(t[q].state) && !c.illogical && Distinct(s)
    && (if p in t then Rest(t, p, s) else Absent(t, p))
    && (p in t && c.completedCycle ==> t[p].state == NotStarted || Complete(t[p].state))
    && (!c.completedCycle ==> c.unfinished == 0)
    && (!c.completedCycle && q != [] ==> Parent(q) in t && t[Parent(q)].state == ExecutingChildren)
  }

  predicate Skips(c: Context, s: Section) {
    c.completedCycle || CompleteAt(c.trackers, c.current + [s.name])
  }

  /** Only the subtree at p, and the tracker q above it, may differ. */
  ghost predicate Confined(t: Trackers, t': Trackers, q: Path, p: Path, s: Section) {
    && t.Keys <= t'.Keys <= t.Keys + Statics(p, s)
    && (forall k :: k in t && !(p <= k) && k != q ==> t'[k] == t[k])
  }

  ghost predicate SectionDone(c: Context, s: Section, c': Context, threw: bool) {
    var q, t, t' := c.current, c.trackers, c'.trackers;
    var p := q + [s.name];
    && q in t && q in t' && p in t'
    && c'.current == q && !c'.illogical && c'.active == c.active
    && Confined(t, t', q, p, s) && Rest(t', p, s) && Kept(t, t')
    && t'[q].children == t[q].children + (if p in t then [] else [s.name])
    && if Skips(c, s) then
         && !threw && c'.completedCycle == c.completedCycle && c'.unfinished == c.unfinished
         && t'[q].state == t[q].state
         && t'[p] == (if p in t then t[p] else Tracker(NotStarted, []))
       else
         && c'.completedCycle && Grown(t, t', p)
         && (t'[q].state == ExecutingChildren || t'[q].state == NeedsAnotherRun)
         && (!threw ==> t'[q].state == ExecutingChildren && c'.unfinished == 0)
         && (threw ==> c'.unfinished > 0)
         && t'[p].state != NotStarted
  }

  // ----- acquiring

  /** Creating a child leaves a tree at rest there and touches nothing else. */
  lemma AddChildRest(t: Trackers, q: Path, s: Section)
    requires q in t && Absent(t, q + [s.name])
    ensures var t', p := AddChild(t, q, s.name), q + [s.name];
            && Rest(t', p, s) && t'[p] == Tracker(NotStarted, []) && t'.Keys == t.Keys + {p}
            && (forall k :: k in t && k != q ==> t'[k] == t[k])
            && t'[q] == t[q].(children := t[q].children + [s.name])
  {
    var t', p := AddChild(t, q, s.name), q + [s.name];
    assert p !in t && p != q;
    forall k | 0 <= k < |s.subs|
      ensures Absent(t', Child(p, s, k))
    {
      forall x | x in t'
        ensures !(Child(p, s, k) <= x)
      {
        assert Child(p, s, k) <= x ==> p <= x;
      }
    }
  }

  lemma AcquireSkips(c: Context, s: Section)
    requires Enterable(c, s) && Skips(c, s)
    ensures SectionDone(c, s, Acquire(c, s.name), false)
    ensures !IsOpen(Acquire(c, s.name).trackers, c.current + [s.name])
  {
    var q, t := c.current, c.trackers;
    var p := q + [s.name];
    if p !in t {
      AddChildRest(t, q, s);
    }
  }

  predicate NotStartedAt(t: Trackers, p: Path) {
    p in t && t[p].state == NotStarted
  }

  /** In the body of the section at p, about to meet its i-th subsection. */
  ghost predicate InBody(c: Context, p: Path, s: Section, i: nat) {
    var t := c.trackers;
    && i <= |s.subs| && Distinct(s)
    && c.current == p && p in t && !c.illogical && c.unfinished == 0
    && t[p].state == (if c.completedCycle then ExecutingChildren else Executing)
    && Known(t, p, s) && i <= |t[p].children|
    && (!c.completedCycle ==> forall k :: 0 <= k < i ==> CompleteAt(t, Child(p, s, k)))
    && (c.completedCycle ==> forall k :: i <= k < |t[p].children| ==> NotStartedAt(t, Child(p, s, k)))
    && (p != [] ==> Parent(p) in t && t[Parent(p)].state == ExecutingChildren)
  }

  /** Opening: the section executes, its parent executes children, nothing else changes. */
  lemma AcquireOpens(c: Context, s: Section)
    requires Enterable(c, s) && !Skips(c, s)
    ensures
      var q, t, c' := c.current, c.trackers, Acquire(c, s.name);
      var p, t' := q + [s.name], c'.trackers;
      && c' == c.(current := p, trackers := t')
      && InBody(c', p, s, 0)
      && t'.Keys == t.Keys + {p}
      && (forall k :: k in t && k != p && k != q ==> t'[k] == t[k])
      && t'[q] == Tracker(ExecutingChildren, t[q].children + if p in t then [] else [s.name])
      && t'[p] == Tracker(Executing, if p in t then t[p].children else [])
  {
    var q, t := c.current, c.trackers;
    var p := q + [s.name];
    if p !in t {
      AddChildRest(t, q, s);
    }
    var t1 := if p in t then t else AddChild(t, q, s.name);
    assert Rest(t1, p, s) && p != q;
    hide Rest, Distinct, Absent;
    var t2 := SetState(t1, p, Executing);
    assert Parent(p) == q;
    var t3 := OpenChild(t2, q);
    OpenChildStops(t2, q);
    assert Acquire(c, s.name) == c.(current := p, trackers := t3);
    forall k | 0 <= k < |s.subs|
      ensures SameUnder(t1, t3, Child(p, s, k))
    {
    }
    KnownFrame(t1, t3, p, s);
  }

  lemma OpenChildStops(t: Trackers, q: Path)
    requires q in t && (q != [] ==> Parent(q) in t && t[Parent(q)].state == ExecutingChildren)
    ensures OpenChild(t, q) == SetState(t, q, ExecutingChildren)
  {
    if q != [] && t[q].state != ExecutingChildren {
      assert Parent(q) != q;
      assert SetState(t, q, ExecutingChildren)[Parent(q)] == t[Parent(q)];
    } else if t[q].state == ExecutingChildren {
      assert SetState(t, q, ExecutingChildren) == t;
    }
  }

  // ----- through a body

  lemma BodyEnters(c: Context, p: Path, s: Section, i: nat)
    requires InBody(c, p, s, i) && i < |s.subs|
    ensures Enterable(c, s.subs[i])
  {
    assert Child(p, s, i) == p + [s.subs[i].name];
    if i < |c.trackers[p].children| {
      assert Rest(c.trackers, Child(p, s, i), s.subs[i]);
    } else {
      assert Absent(c.trackers, Child(p, s, i));
    }
  }

  /** The siblings of a section that was met are untouched. */
  lemma SiblingsKept(c: Context, p: Path, s: Section, i: nat, c': Context, threw: bool)
    requires InBody(c, p, s, i) && i < |s.subs|
    requires SectionDone(c, s.subs[i], c', threw)
    ensures forall k :: 0 <= k < |c.trackers[p].children| && k != i ==>
              && Child(p, s, k) in c.trackers && Child(p, s, k) in c'.trackers
              && c'.trackers[Child(p, s, k)] == c.trackers[Child(p, s, k)]
              && Rest(c'.trackers, Child(p, s, k), s.subs[k])
    ensures forall k :: |c.trackers[p].children| <= k < |s.subs| && k != i ==> Absent(c'.trackers, Child(p, s, k))
    ensures i < |c.trackers[p].children| <==> Child(p, s, i) in c.trackers
  {
    var t, t', x := c.trackers, c'.trackers, Child(p, s, i);
    hide Rest, Kept, Grown;
    forall k | 0 <= k < |t[p].children| && k != i
      ensures Rest(t', Child(p, s, k), s.subs[k]) && Child(p, s, k) in t && Child(p, s, k) in t'
      ensures t'[Child(p, s, k)] == t[Child(p, s, k)]
    {
      SiblingSame(t, t', p, s, i, k);
      RestFrame(t, t', Child(p, s, k), s.subs[k]);
      RestPresent(t, Child(p, s, k), s.subs[k]);
    }
    forall k | |t[p].children| <= k < |s.subs| && k != i
      ensures Absent(t', Child(p, s, k))
    {
      SiblingSame(t, t', p, s, i, k);
      assert Absent(t, Child(p, s, k));
    }
    if i < |t[p].children| {
      RestPresent(t, x, s.subs[i]);
    } else {
      assert Absent(t, x);
    }
  }

  lemma RestPresent(t: Trackers, p: Path, s: Section)
    requires Rest(t, p, s)
    ensures p in t
  {
  }

  /** The children after one of them was met: the others are untouched. */
  lemma KnownAfterSection(c: Context, p: Path, s: Section, i: nat, c': Context, threw: bool)
    requires InBody(c, p, s, i) && i < |s.subs|
    requires SectionDone(c, s.subs[i], c', threw)
    ensures Known(c'.trackers, p, s)
    ensures forall k :: 0 <= k < |c.trackers[p].children| && k != i ==>
              Child(p, s, k) in c.trackers && Child(p, s, k) in c'.trackers
              && c'.trackers[Child(p, s, k)] == c.trackers[Child(p, s, k)]
    ensures |c'.trackers[p].children| >= i + 1
    ensures |c'.trackers[p].children| == if i < |c.trackers[p].children| then |c.trackers[p].children| else i + 1
  {
    SiblingsKept(c, p, s, i, c', threw);
    hide Rest, Kept, Grown, Confined, Absent;
  }

  lemma SiblingSame(t: Trackers, t': Trackers, p: Path, s: Section, i: nat, k: nat)
    requires Distinct(s) && i < |s.subs| && k < |s.subs| && k != i
    requires Confined(t, t', p, Child(p, s, i), s.subs[i])
    ensures SameUnder(t, t', Child(p, s, k))
  {
    StaticsBound(Child(p, s, i), s.subs[i]);
    forall x | Child(p, s, k) <= x
      ensures (x in t <==> x in t') && (x in t ==> t[x] == t'[x])
    {
      ChildrenApart(p, s, k, i, x);
    }
  }

  lemma BodyContinues(c: Context, p: Path, s: Section, i: nat, c': Context)
    requires InBody(c, p, s, i) && i < |s.subs|
    requires SectionDone(c, s.subs[i], c', false)
    ensures InBody(c', p, s, i + 1)
  {
    KnownAfterSection(c, p, s, i, c', false);
    var t, t', x := c.trackers, c'.trackers, Child(p, s, i);
    StaticsBound(x, s.subs[i]);
    if p != [] {
      assert !(x <= Parent(p)) && Parent(p) != p;
    }
    if Skips(c, s.subs[i]) {
    } else {
      forall k | i + 1 <= k < |t'[p].children|
        ensures NotStartedAt(t', Child(p, s, k))
      {
        assert !CompleteAt(t, x);
      }
    }
  }

  /** After a body ended, normally or not, before its section is closed. */
  ghost predicate AfterBody(c: Context, p: Path, s: Section) {
    var t := c.trackers;
    && Distinct(s) && c.current == p && p in t && !c.illogical && Known(t, p, s)
    && (t[p].state == Executing || t[p].state == ExecutingChildren || t[p].state == NeedsAnotherRun)
    && (c.completedCycle <==> t[p].state != Executing)
    && (!c.completedCycle ==> c.unfinished == 0)
    && (p != [] ==> Parent(p) in t && t[Parent(p)].state == ExecutingChildren)
  }

  ghost predicate BodyDone(c: Context, p: Path, s: Section, i: nat, c': Context, threw: bool)
    requires i <= |s.subs|
  {
    var t, t' := c.trackers, c'.trackers;
    && AfterBody(c', p, s) && c'.active == c.active
    && t.Keys <= t'.Keys <= t.Keys + StaticsFrom(p, s, i)
    && (forall k :: k in t && !(p <= k) ==> t'[k] == t[k])
    && Kept(t, t')
    && (c.completedCycle ==> c'.completedCycle)
    && (c'.completedCycle && !c.completedCycle ==> Grown(t, t', p))
    && (!threw ==> c'.unfinished == 0 && t'[p].state != NeedsAnotherRun)
  }

  lemma BodyIdle(c: Context, p: Path, s: Section, i: nat, threw: bool)
    requires i <= |s.subs| && InBody(c, p, s, i)
    ensures BodyDone(c, p, s, i, c, threw)
  {
  }

  lemma BodyStops(c: Context, p: Path, s: Section, i: nat, c': Context)
    requires InBody(c, p, s, i) && i < |s.subs|
    requires SectionDone(c, s.subs[i], c', true)
    ensures BodyDone(c, p, s, i, c', true)
  {
    KnownAfterSection(c, p, s, i, c', true);
    var x := Child(p, s, i);
    StaticsBound(x, s.subs[i]);
    StaticsOfChild(p, s, i, i);
    if p != [] {
      assert !(x <= Parent(p)) && Parent(p) != p;
    }
    GrownUp(c.trackers, c'.trackers, p, x);
    UnderChild(c.trackers, p, s, i);
  }

  lemma UnderChild(t: Trackers, p: Path, s: Section, i: nat)
    requires i < |s.subs|
    ensures forall k :: k in t && !(p <= k) ==> !(Child(p, s, i) <= k)
  {
    forall k | k in t && !(p <= k)
      ensures !(Child(p, s, i) <= k)
    {
      assert Child(p, s, i)[..|p|] == p;
    }
  }

  lemma GrownUp(t: Trackers, t': Trackers, p: Path, x: Path)
    requires p <= x
    ensures Grown(t, t', x) ==> Grown(t, t', p)
  {
    if Grown(t, t', x) {
      var k :| x <= k && CompleteAt(t', k) && !CompleteAt(t, k);
      assert p <= k;
    }
  }

  /** A section met and passed, then the rest of the body. */
  lemma BodyChains(c: Context, p: Path, s: Section, i: nat, c1: Context, c': Context, threw: bool)
    requires InBody(c, p, s, i) && i < |s.subs|
    requires SectionDone(c, s.subs[i], c1, false)
    requires BodyDone(c1, p, s, i + 1, c', threw)
    ensures BodyDone(c, p, s, i, c', threw)
  {
    var x, t, t1, t' := Child(p, s, i), c.trackers, c1.trackers, c'.trackers;
    StaticsBound(x, s.subs[i]);
    UnderChild(t, p, s, i);
    if c'.completedCycle && !c.completedCycle {
      if c1.completedCycle {
        var k :| x <= k && CompleteAt(t1, k) && !CompleteAt(t, k);
        assert p <= k && CompleteAt(t', k);
      } else {
        var k :| p <= k && CompleteAt(t', k) && !CompleteAt(t1, k);
        assert !CompleteAt(t, k);
      }
    }
  }

  // ----- closing

  /** Closing after a body: the section is at rest, and something below or itself completed. */
  lemma CloseRests(c: Context, p: Path, s: Section)
    requires AfterBody(c, p, s) && p != []
    ensures
      var c', t := Close(c, p), c.trackers;
      var t' := c'.trackers;
      && !c'.illogical && c'.current == Parent(p) && c'.completedCycle && c'.active == c.active
      && c'.unfinished == c.unfinished && c'.entered == c.entered
      && Rest(t', p, s) && t'.Keys == t.Keys
      && (forall k :: k in t && k != p ==> t'[k] == t[k])
      && Kept(t, t') && t'[p].state != NotStarted && t'[p].state != Failed
      && (!c.completedCycle ==> CompleteAt(t', p))
  {
    var t, t' := c.trackers, Close(c, p).trackers;
    if !CompleteAt(t', p) {
      assert t' == t;
    }
  }

  lemma FailRests(c: Context, p: Path, s: Section)
    requires AfterBody(c, p, s) && p != []
    ensures
      var c', t := Fail(c, p), c.trackers;
      var t' := c'.trackers;
      && !c'.illogical && c'.current == Parent(p) && c'.completedCycle && c'.active == c.active
      && c'.unfinished == c.unfinished && c'.entered == c.entered
      && Rest(t', p, s) && t'.Keys == t.Keys
      && (forall k :: k in t && k != p && k != Parent(p) ==> t'[k] == t[k])
      && Kept(t, t') && CompleteAt(t', p)
      && t'[Parent(p)] == t[Parent(p)].(state := NeedsAnotherRun)
  {
    assert Parent(p) != p;
  }

  lemma GrownThrough(t: Trackers, t1: Trackers, t2: Trackers, t': Trackers, p: Path, q: Path)
    requires Grown(t1, t2, p) && Kept(t2, t') && q in t && !Complete(t[q].state)
    requires forall k :: k in t && k != p && k != q ==> k in t1 && t1[k] == t[k]
    requires !CompleteAt(t, p)
    ensures Grown(t, t', p)
  {
    var k :| p <= k && CompleteAt(t2, k) && !CompleteAt(t1, k);
    assert CompleteAt(t', k) && !CompleteAt(t, k);
  }

  /** What opening and the body leave, relative to the state before the section. */
  lemma OpenedBody(c: Context, s: Section, c1: Context, c2: Context, threw: bool)
    requires Enterable(c, s) && !Skips(c, s)
    requires c1 == SectionStarted(c, s.name).0
    requires BodyDone(c1, c.current + [s.name], s, 0, c2, threw)
    ensures
      var q, p, t, t2 := c.current, c.current + [s.name], c.trackers, c2.trackers;
      && AfterBody(c2, p, s) && Parent(p) == q && q != p && q in t && q in t2 && p in t2
      && c2.active == c.active + [p] && c2.active[..|c2.active| - 1] == c.active
      && t.Keys <= t2.Keys <= t.Keys + Statics(p, s)
      && (forall k :: k in t && !(p <= k) && k != q ==> t2[k] == t[k])
      && t2[q] == Tracker(ExecutingChildren, t[q].children + if p in t then [] else [s.name])
      && Kept(t, t2)
      && !CompleteAt(t, p) && !CompleteAt(t2, p) && !Complete(t[q].state)
      && (c2.completedCycle ==> Grown(c1.trackers, t2, p))
      && (forall k :: k in t && k != p && k != q ==> k in c1.trackers && c1.trackers[k] == t[k])
      && (!threw ==> c2.unfinished == 0)
  {
    hide Known, Distinct, Rest;
    AcquireOpens(c, s);
  }

  lemma EndedContext(c2: Context, p: Path, active: seq<Path>, threw: bool)
    requires c2.active == active + [p] && (threw ==> c2.unfinished > 0)
    ensures (if threw then SectionEndedEarly(c2) else SectionEnded(c2))
            == Close(c2, p).(active := active,
                             unfinished := if threw then c2.unfinished + 1 else Close(c2, p).unfinished)
  {
    hide Close;
    assert c2.active[..|c2.active| - 1] == active;
  }

  /** Ending a section changes its own tracker and at most its parent's. */
  lemma ConfinedThrough(t: Trackers, t2: Trackers, t': Trackers, q: Path, p: Path, s: Section)
    requires t.Keys <= t2.Keys <= t.Keys + Statics(p, s) && t'.Keys == t2.Keys && Kept(t, t2) && Kept(t2, t')
    requires forall k :: k in t && !(p <= k) && k != q ==> t2[k] == t[k]
    requires forall k :: k in t2 && k != p && k != q ==> t'[k] == t2[k]
    ensures Confined(t, t', q, p, s) && Kept(t, t')
  {
    hide Statics;
  }

  lemma SectionEnds(c: Context, s: Section, c1: Context, c2: Context, threw: bool)
    requires Enterable(c, s) && !Skips(c, s)
    requires c1 == SectionStarted(c, s.name).0
    requires BodyDone(c1, c.current + [s.name], s, 0, c2, threw)
    requires !threw || c2.unfinished > 0
    ensures SectionDone(c, s, if threw then SectionEndedEarly(c2) else SectionEnded(c2), threw)
  {
    OpenedBody(c, s, c1, c2, threw);
    hide Known, Distinct, Rest, BodyDone, AfterBody, Enterable, SectionStarted, Acquire, Close, Statics, Grown;
    hide SectionEnded, SectionEndedEarly, Skips;
    var p, t' := c.current + [s.name], Close(c2, c.current + [s.name]).trackers;
    CloseRests(c2, p, s);
    ConfinedThrough(c.trackers, c2.trackers, t', c.current, p, s);
    EndedContext(c2, p, c.active, threw);
    hide Confined, Kept;
    assert Grown(c.trackers, t', p) by {
      if c2.completedCycle {
        GrownThrough(c.trackers, c1.trackers, c2.trackers, t', p, c.current);
      } else {
        GrownHere(c.trackers, t', p);
      }
    }
  }

  lemma GrownHere(t: Trackers, t': Trackers, p: Path)
    requires CompleteAt(t', p) && !CompleteAt(t, p)
    ensures Grown(t, t', p)
  {
  }

  lemma SectionFails(c: Context, s: Section, c1: Context, c2: Context)
    requires Enterable(c, s) && !Skips(c, s)
    requires c1 == SectionStarted(c, s.name).0
    requires BodyDone(c1, c.current + [s.name], s, 0, c2, true)
    requires c2.unfinished == 0
    ensures SectionDone(c, s, SectionEndedEarly(c2), true)
  {
    OpenedBody(c, s, c1, c2, true);
    hide Known, Distinct, Rest, BodyDone, AfterBody, Enterable, SectionStarted, Acquire, Fail, Statics, Grown;
    var p, t' := c.current + [s.name], Fail(c2, c.current + [s.name]).trackers;
    FailRests(c2, p, s);
    ConfinedThrough(c.trackers, c2.trackers, t', c.current, p, s);
    hide Confined, Kept;
    GrownHere(c.trackers, t', p);
  }

  // ----- whole runs

  lemma {:induction false} RunSectionKeeps(c: Context, s: Section, throws: Throws)
    requires Enterable(c, s)
    ensures var (c', threw) := RunSection(c, s, throws); SectionDone(c, s, c', threw)
    decreases s, |s.subs| + 1
  {
    var p := c.current + [s.name];
    if Skips(c, s) {
      AcquireSkips(c, s);
    } else {
      AcquireOpens(c, s);
      var c1 := SectionStarted(c, s.name).0;
      assert InBody(c1, p, s, 0);
      RunBodyKeeps(c1, p, s, 0, throws);
      var (c2, threw) := RunBody(c1, p, s, 0, throws);
      if threw && c2.unfinished == 0 {
        SectionFails(c, s, c1, c2);
      } else {
        SectionEnds(c, s, c1, c2, threw);
      }
    }
  }

  lemma {:induction false} RunBodyKeeps(c: Context, p: Path, s: Section, i: nat, throws: Throws)
    requires i <= |s.subs| && InBody(c, p, s, i)
    ensures var (c', threw) := RunBody(c, p, s, i, throws); BodyDone(c, p, s, i, c', threw)
    decreases s, |s.subs| - i
  {
    hide InBody, BodyDone, SectionDone, Enterable;
    if throws(p, i) || i == |s.subs| {
      BodyIdle(c, p, s, i, throws(p, i));
    } else {
      BodyEnters(c, p, s, i);
      RunSectionKeeps(c, s.subs[i], throws);
      var (c1, threw) := RunSection(c, s.subs[i], throws);
      if threw {
        BodyStops(c, p, s, i, c1);
      } else {
        BodyContinues(c, p, s, i, c1);
        RunBodyKeeps(c1, p, s, i + 1, throws);
        var (c2, threw2) := RunBody(c1, p, s, i + 1, throws);
        BodyChains(c, p, s, i, c1, c2, threw2);
      }
    }
  }

  // ----- whole cycles

  /** Between cycles of a test. */
  ghost predicate BetweenCycles(c: Context, test: Section) {
    var t, p := c.trackers, [test.name];
    && [] in t && !Complete(t[[]].state) && !c.illogical && c.active == [] && c.unfinished == 0
    && Distinct(test)
    && (if p in t then Rest(t, p, test) && t[p].state != Failed else Absent(t, p))
    && t.Keys <= {[]} + Statics(p, test)
  }

  predicate TestComplete(c: Context, test: Section) {
    [test.name] in c.trackers && c.trackers[[test.name]].state == CompletedSuccessfully
  }

  function Completed(t: Trackers): set<Path> {
    set k | k in t && Complete(t[k].state)
  }

  /** Whatever the body throws, a cycle keeps every complete tracker, completes another one, and
      never closes a tracker in an illogical state. */
  lemma CycleKeeps(c: Context, test: Section, throws: Throws)
    requires BetweenCycles(c, test) && !TestComplete(c, test)
    ensures
      var c' := Cycle(c, test, throws);
      && BetweenCycles(c', test)
      && Kept(c.trackers, c'.trackers)
      && Completed(c.trackers) < Completed(c'.trackers) <= Statics([test.name], test)
  {
    var t, t' := c.trackers, Cycle(c, test, throws).trackers;
    CycleShape(c, test, throws);
    hide Cycle, Rest, Known, Distinct;
    StaticsBound([test.name], test);
    CompletedGrows(t, t', [test.name]);
  }

  lemma CompletedGrows(t: Trackers, t': Trackers, p: Path)
    requires Kept(t, t') && Grown(t, t', p)
    ensures Completed(t) < Completed(t')
  {
    assert Completed(t) <= Completed(t') by {
      forall k | k in Completed(t)
        ensures k in Completed(t')
      {
        assert CompleteAt(t, k);
      }
    }
    var k :| p <= k && CompleteAt(t', k) && !CompleteAt(t, k);
    assert k in Completed(t') && k !in Completed(t);
  }

  /** By then no section is active, so nothing is closed twice. */
  lemma {:induction false} UnfinishedForgotten(c: Context)
    requires c.active == []
    ensures HandleUnfinished(c) == c.(unfinished := 0)
    decreases c.unfinished
  {
    if c.unfinished > 0 {
      UnfinishedForgotten(c.(unfinished := c.unfinished - 1));
    }
  }

  lemma CycleShape(c: Context, test: Section, throws: Throws)
    requires BetweenCycles(c, test) && !TestComplete(c, test)
    ensures
      var c', p, t := Cycle(c, test, throws), [test.name], c.trackers;
      var t' := c'.trackers;
      && !c'.illogical && c'.active == [] && c'.unfinished == 0
      && Rest(t', p, test) && t'[p].state != Failed
      && t.Keys <= t'.Keys <= t.Keys + Statics(p, test)
      && [] in t' && !Complete(t'[[]].state)
      && Kept(t, t') && Grown(t, t', p)
  {
    hide Rest, Known, Distinct, RunBody, Close, Acquire, HandleUnfinished;
    var p, t := [test.name], c.trackers;
    var c0 := c.(current := [], completedCycle := false, entered := []);
    assert [] + [test.name] == p;
    EntersTest(c, test);
    AcquireOpens(c0, test);
    var c1 := Acquire(c0, test.name);
    RunBodyKeeps(c1, p, test, 0, throws);
    var (c2, threw) := RunBody(c1, p, test, 0, throws);
    CloseRests(c2, p, test);
    var c3 := Close(c2, p);
    UnfinishedForgotten(c3);
    assert Parent(p) == [];
    if c2.completedCycle {
      GrownThrough(t, c1.trackers, c2.trackers, c3.trackers, p, []);
    } else {
      assert CompleteAt(c3.trackers, p) && !CompleteAt(t, p);
    }
  }

  lemma EntersTest(c: Context, test: Section)
    requires BetweenCycles(c, test) && !TestComplete(c, test)
    ensures
      var c0 := c.(current := [], completedCycle := false, entered := []);
      Enterable(c0, test) && !Skips(c0, test)
  {
    assert [] + [test.name] == [test.name];
  }
}
