/** The section tracker: a tree of run states that lets one test body, run again and again, visit
    each of its sections. A tracker is named by its path from the root. */
module Tracking {

  datatype RunState =
    NotStarted | Executing | ExecutingChildren | NeedsAnotherRun | CompletedSuccessfully | Failed

  /** What identifies a section among its siblings: its name and where it stands in the source. */
  datatype Name = NameAndLocation(name: string, file: string, line: nat)
  type Path = seq<Name>

  datatype Tracker = Tracker(state: RunState, children: seq<Name>)
  type Trackers = map<Path, Tracker>

  /** The sections a test body declares, in document order. */
  datatype Section = Section(name: Name, subs: seq<Section>)

  /** Where a body throws in one cycle: before its i-th subsection, or at its end. */
  type Throws = (Path, nat) -> bool

  datatype Context = Context(
    trackers: Trackers,
    current: Path,
    completedCycle: bool,
    active: seq<Path>,
    unfinished: nat,
    entered: seq<Path>,
    illogical: bool)

  predicate Complete(s: RunState) {
    s == CompletedSuccessfully || s == Failed
  }

  predicate CompleteAt(t: Trackers, p: Path) {
    p in t && Complete(t[p].state)
  }

  function Parent(p: Path): Path
    requires p != []
  {
    p[..|p| - 1]
  }

  // ----- tracker operations

  function SetState(t: Trackers, p: Path, s: RunState): Trackers
    requires p in t
  {
    t[p := t[p].(state := s)]
  }

  /** Marks a tracker as executing a child, recursively up the tree until one already is. */
  function OpenChild(t: Trackers, p: Path): (t': Trackers)
    ensures t'.Keys == t.Keys
    decreases |p|
  {
    if p !in t || t[p].state == ExecutingChildren then t
    else if p == [] then SetState(t, p, ExecutingChildren)
    else OpenChild(SetState(t, p, ExecutingChildren), Parent(p))
  }

  function Open(c: Context, p: Path): Context
    requires p in c.trackers
  {
    var t := SetState(c.trackers, p, Executing);
    c.(current := p, trackers := if p == [] then t else OpenChild(t, Parent(p)))
  }

  predicate ChildrenComplete(t: Trackers, p: Path)
    requires p in t
  {
    forall n :: n in t[p].children ==> CompleteAt(t, p + [n])
  }

  /** Closing the current tracker. States that cannot be closed raise the internal error, as
      does having no tracker to close. */
  function CloseCurrent(c: Context): Context {
    var p, t := c.current, c.trackers;
    if p == [] || p !in t then c.(illogical := true)
    else
      var s := t[p].state;
      var t' := if s == Executing || (s == ExecutingChildren && ChildrenComplete(t, p))
                then SetState(t, p, CompletedSuccessfully) else t;
      c.(trackers := t', current := Parent(p), completedCycle := true,
         illogical := c.illogical || s == NotStarted || Complete(s))
  }

  /** Closes any still open descendants of `p`, then `p`. */
  function Close(c: Context, p: Path): Context
    decreases |c.current|
  {
    if c.current == p then CloseCurrent(c)
    else if c.current == [] || c.current !in c.trackers then c.(illogical := true)
    else Close(CloseCurrent(c), p)
  }

  function Fail(c: Context, p: Path): Context {
    if p == [] || p !in c.trackers then c.(illogical := true)
    else
      var t := SetState(c.trackers, p, Failed);
      c.(trackers := if Parent(p) in t then SetState(t, Parent(p), NeedsAnotherRun) else t,
         current := Parent(p), completedCycle := true)
  }

  function AddChild(t: Trackers, q: Path, name: Name): Trackers
    requires q in t
  {
    t[q := t[q].(children := t[q].children + [name])][q + [name] := Tracker(NotStarted, [])]
  }

  /** Finds or creates the child of the current tracker, and opens it unless the cycle is over
      or it is complete. */
  function Acquire(c: Context, name: Name): Context {
    if c.current !in c.trackers then c.(illogical := true)
    else
      var p := c.current + [name];
      var t := if p in c.trackers then c.trackers else AddChild(c.trackers, c.current, name);
      var c' := c.(trackers := t);
      if !c.completedCycle && !Complete(t[p].state) then Open(c', p) else c'
  }

  // ----- sections as the test body meets them

  predicate IsOpen(t: Trackers, p: Path) {
    p in t && t[p].state != NotStarted && !Complete(t[p].state)
  }

  function SectionStarted(c: Context, name: Name): (Context, bool) {
    var p := c.current + [name];
    var c' := Acquire(c, name);
    if IsOpen(c'.trackers, p) then (c'.(active := c'.active + [p], entered := c'.entered + [p]), true)
    else (c', false)
  }

  /** Normal end of a section. */
  function SectionEnded(c: Context): Context {
    if c.active == [] then c
    else Close(c, c.active[|c.active| - 1]).(active := c.active[..|c.active| - 1])
  }

  /** End of a section during unwinding: the innermost one fails, the outer ones close. */
  function SectionEndedEarly(c: Context): Context {
    if c.active == [] then c.(illogical := true)
    else
      var p := c.active[|c.active| - 1];
      var c' := if c.unfinished == 0 then Fail(c, p) else Close(c, p);
      c'.(active := c.active[..|c.active| - 1], unfinished := c.unfinished + 1)
  }

  // ----- the test body and the cycle

  /** One section: skipped when not open, otherwise its body between start and end. */
  function RunSection(c: Context, s: Section, throws: Throws): (Context, bool)
    decreases s, |s.subs| + 1
  {
    var p := c.current + [s.name];
    var (c1, open) := SectionStarted(c, s.name);
    if !open then (c1, false)
    else
      var (c2, threw) := RunBody(c1, p, s, 0, throws);
      if threw then (SectionEndedEarly(c2), true) else (SectionEnded(c2), false)
  }

  /** The body of the section at `p` from its i-th subsection on. */
  function RunBody(c: Context, p: Path, s: Section, i: nat, throws: Throws): (Context, bool)
    requires i <= |s.subs|
    decreases s, |s.subs| - i
  {
    if throws(p, i) then (c, true)
    else if i == |s.subs| then (c, false)
    else
      var (c1, threw) := RunSection(c, s.subs[i], throws);
      if threw then (c1, true) else RunBody(c1, p, s, i + 1, throws)
  }

  function StartRun(): Context {
    Context(map[[] := Tracker(NotStarted, [])], [], false, [], 0, [], false)
  }

  /** Sections that ended early are reported as ended after the unwinding. */
  function HandleUnfinished(c: Context): Context
    decreases c.unfinished
  {
    if c.unfinished == 0 then c else HandleUnfinished(SectionEnded(c).(unfinished := c.unfinished - 1))
  }

  /** One run of the whole test: the test case has a tracker of its own, always closed at the
      end. */
  function Cycle(c: Context, test: Section, throws: Throws): Context {
    var p := [test.name];
    var c0 := c.(current := [], completedCycle := false, entered := []);
    var c1 := Acquire(c0, test.name);
    var (c2, _) := RunBody(c1, p, test, 0, throws);
    HandleUnfinished(Close(c2, p))
  }

  // ----- structure

  ghost predicate Distinct(s: Section) {
    && (forall i, j :: 0 <= i < j < |s.subs| ==> s.subs[i].name != s.subs[j].name)
    && (forall i :: 0 <= i < |s.subs| ==> Distinct(s.subs[i]))
  }

  predicate Absent(t: Trackers, p: Path) {
    forall k :: k in t ==> !(p <= k)
  }

  function Child(p: Path, s: Section, k: nat): Path
    requires k < |s.subs|
  {
    p + [s.subs[k].name]
  }

  /** The subtree of a section between cycles. */
  ghost predicate Rest(t: Trackers, p: Path, s: Section)
    decreases s, 1
  {
    && p in t
    && t[p].state != Executing
    && (t[p].state == NotStarted ==> t[p].children == [])
    && (!Complete(t[p].state) ==> Known(t, p, s))
  }

  /** The known children are a prefix of the declared ones; an incomplete child is followed only
      by children that have not started. */
  ghost predicate Known(t: Trackers, p: Path, s: Section)
    requires p in t
    decreases s, 0
  {
    var n := |t[p].children|;
    && n <= |s.subs|
    && (forall k :: 0 <= k < n ==> t[p].children[k] == s.subs[k].name && Rest(t, Child(p, s, k), s.subs[k]))
    && (forall k :: n <= k < |s.subs| ==> Absent(t, Child(p, s, k)))
    && (forall k, l :: 0 <= k < l < n && !CompleteAt(t, Child(p, s, k)) ==> t[Child(p, s, l)].state == NotStarted)
  }
}
