/** The pass that removes redundant register accesses from a block of the intermediate
    representation: a get becomes the value last set or got, a set overwritten unread is erased. */
module GetSetElimination {
  import opened Arithmetic
  import opened Wrappers
  import opened RegisterBlocks

  // ----- the pass

  /** What is known of a location: the value in it, as accessed in a kind, and where the set of it
      stands if nothing has read it since. */
  datatype Info = Info(known: Option<(Value, Kind)>, lastSet: Option<nat>)

  const NOTHING: Info := Info(None, None)

  /** What the pass knows of a location before instruction i. */
  function Track(block: seq<Inst>, i: nat, loc: Loc): Info
    requires i <= |block|
  {
    if i == 0 then NOTHING
    else
      var info := Track(block, i - 1, loc);
      if !Touches(block[i - 1], loc) then info
      else match block[i - 1]
        case Get(_, kind) =>
          if info.known.Some? && info.known.value.1 == kind then info else Info(Some((Ref(i - 1), kind)), None)
        case Set(_, kind, value) => Info(Some((value, kind)), Some(i - 1))
        case _ => NOTHING
  }

  /** The block after the first i instructions have been looked at. */
  function Eliminated(block: seq<Inst>, i: nat): (r: seq<Inst>)
    requires i <= |block|
    ensures |r| == |block|
  {
    if i == 0 then block
    else
      var r := Eliminated(block, i - 1);
      match block[i - 1]
      case Get(loc, kind) =>
        var info := Track(block, i - 1, loc);
        if info.known.Some? && info.known.value.1 == kind then r[i - 1 := Identity(info.known.value.0)] else r
      case Set(loc, _, _) =>
        var info := Track(block, i - 1, loc);
        if info.lastSet.Some? && info.lastSet.value < |r| then r[info.lastSet.value := Void] else r
      case _ => r
  }

  // ----- the last instruction that touches a location

  /** What the last instruction before i that touches a location tells of it. */
  function Summary(block: seq<Inst>, i: nat, loc: Loc): Info
    requires i <= |block|
  {
    if i == 0 then NOTHING
    else if !Touches(block[i - 1], loc) then Summary(block, i - 1, loc)
    else match block[i - 1]
      case Get(_, kind) => Info(Some((Ref(i - 1), kind)), None)
      case Set(_, kind, value) => Info(Some((value, kind)), Some(i - 1))
      case _ => NOTHING
  }

  lemma {:induction false} LastSetQuiet(block: seq<Inst>, i: nat, loc: Loc)
    requires i <= |block| && Summary(block, i, loc).lastSet.Some?
    ensures
      var j := Summary(block, i, loc).lastSet.value;
      && j < i && block[j].Set? && block[j].loc == loc
      && Summary(block, i, loc).known == Some((block[j].value, block[j].kind))
      && forall t :: j < t < i ==> !Touches(block[t], loc)
  {
    if !Touches(block[i - 1], loc) {
      LastSetQuiet(block, i - 1, loc);
    }
  }

  lemma {:induction false} KnownEarlier(block: seq<Inst>, i: nat, loc: Loc)
    requires i <= |block| && Ordered(block) && Summary(block, i, loc).known.Some?
    ensures Earlier(Summary(block, i, loc).known.value.0, i)
  {
    if !Touches(block[i - 1], loc) {
      KnownEarlier(block, i - 1, loc);
    } else {
      assert OperandsEarlier(block[i - 1], i - 1);
    }
  }

  /** The value known of a location is the one in it: what a set stored, or what a get loads again. */
  ghost predicate Holds(info: Info, loc: Loc, s: State) {
    info.known.Some? ==>
      var (v, kind) := info.known.value;
      if info.lastSet.Some? then Lookup(s.regs, loc) == Keep(kind, Eval(s.env, v))
      else Keep(kind, Lookup(s.regs, loc)) == Eval(s.env, v)
  }

  lemma {:induction false} SummaryHolds(sem: Semantics, block: seq<Inst>, i: nat, loc: Loc, regs: map<Loc, nat>,
                                        world: seq<nat>)
    requires i <= |block| && Ordered(block)
    ensures Holds(Summary(block, i, loc), loc, Run(sem, block[..i], Start(regs, world)))
  {
    hide Run, Step, Keep, Lookup, Holds;
    var start := Start(regs, world);
    if i == 0 {
      assert Holds(NOTHING, loc, Run(sem, block[..0], start)) by { NothingHolds(loc, Run(sem, block[..0], start)); }
    } else {
      var s := Run(sem, block[..i - 1], start);
      EnvGrows(sem, block[..i - 1], 0, start);
      RunNext(sem, block, i - 1, start);
      SummaryHolds(sem, block, i - 1, loc, regs, world);
      if !Touches(block[i - 1], loc) {
        if Summary(block, i - 1, loc).known.Some? {
          KnownEarlier(block, i - 1, loc);
        }
        UntouchedHolds(sem, block[i - 1], i - 1, s, loc, Summary(block, i - 1, loc));
      } else {
        TouchedHolds(sem, block[i - 1], i - 1, s, loc);
        NothingHolds(loc, Step(sem, block[i - 1], s));
      }
    }
  }

  lemma NothingHolds(loc: Loc, s: State)
    ensures Holds(NOTHING, loc, s)
  {
  }

  lemma UntouchedHolds(sem: Semantics, inst: Inst, i: nat, s: State, loc: Loc, info: Info)
    requires !Touches(inst, loc) && |s.env| == i && Holds(info, loc, s)
    requires info.known.Some? ==> Earlier(info.known.value.0, i)
    ensures Holds(info, loc, Step(sem, inst, s))
  {
    StepLeaves(sem, inst, s, loc);
    StepExtends(sem, inst, s);
    hide Step, Keep, Lookup;
    if info.known.Some? {
      EvalStable(s.env, Step(sem, inst, s).env, info.known.value.0, i);
    }
  }

  lemma TouchedHolds(sem: Semantics, inst: Inst, i: nat, s: State, loc: Loc)
    requires Touches(inst, loc) && |s.env| == i && OperandsEarlier(inst, i)
    ensures inst.Get? ==> Holds(Info(Some((Ref(i), inst.kind)), None), loc, Step(sem, inst, s))
    ensures inst.Set? ==> Holds(Info(Some((inst.value, inst.kind)), Some(i)), loc, Step(sem, inst, s))
  {
    if inst.Set? {
      EvalStable(s.env, Step(sem, inst, s).env, inst.value, i);
    }
  }

  // ----- what the pass knows is what the last instruction tells

  lemma {:induction false} SummaryAlike(a: seq<Inst>, b: seq<Inst>, i: nat, loc: Loc)
    requires i <= |a| == |b|
    requires forall t :: 0 <= t < i ==> a[t] == b[t] || (!Touches(a[t], loc) && !Touches(b[t], loc))
    ensures Summary(a, i, loc) == Summary(b, i, loc)
  {
    if i > 0 {
      SummaryAlike(a, b, i - 1, loc);
    }
  }

  lemma {:induction false} Untouched(block: seq<Inst>, i: nat)
    requires i <= |block|
    ensures Eliminated(block, i)[i..] == block[i..]
  {
    if i > 0 {
      Untouched(block, i - 1);
      var r := Eliminated(block, i - 1);
      assert r[i..] == r[i - 1..][1..] && block[i..] == block[i - 1..][1..];
      TrackBefore(block, i - 1);
    }
  }

  lemma {:induction false} TrackBefore(block: seq<Inst>, i: nat)
    requires i <= |block|
    ensures forall loc :: Track(block, i, loc).lastSet.Some? ==> Track(block, i, loc).lastSet.value < i
  {
    if i > 0 {
      TrackBefore(block, i - 1);
    }
  }

  lemma {:induction false} TrackIsSummary(block: seq<Inst>, i: nat, loc: Loc)
    requires i <= |block|
    ensures Summary(Eliminated(block, i), i, loc) == Track(block, i, loc)
    decreases i
  {
    if i > 0 {
      var r, r', inst := Eliminated(block, i - 1), Eliminated(block, i), block[i - 1];
      Untouched(block, i - 1);
      assert r[i - 1] == r[i - 1..][0] == block[i - 1..][0] == inst;
      TrackIsSummary(block, i - 1, loc);
      if inst.Set? && Track(block, i - 1, inst.loc).lastSet.Some? {
        TrackIsSummary(block, i - 1, inst.loc);
        LastSetQuiet(r, i - 1, inst.loc);
        if inst.loc != loc {
          SummaryAlike(r, r', i - 1, loc);
        }
      } else {
        SummaryAlike(r, r', i - 1, loc);
      }
    }
  }

  /** A set is needed if the location was not set just before, unread; a get, if what it loads is not known. */
  predicate Needed(block: seq<Inst>, i: nat)
    requires i < |block|
  {
    match block[i]
    case Get(loc, kind) => !Forwarded(Summary(block, i, loc), kind)
    case Set(loc, _, _) => Summary(block, i, loc).lastSet.None?
    case _ => true
  }

  predicate Forwarded(info: Info, kind: Kind) {
    info.known.Some? && info.known.value.1 == kind
  }

  /** An erased set was the last to touch its location: what is left of the accesses is needed still. */
  lemma EraseKeepsNeeded(block: seq<Inst>, j: nat, i: nat, loc: Loc, t: nat)
    requires j < i <= |block| && t < i && block[j].Set? && block[j].loc == loc && Needed(block, t)
    requires forall k :: j < k < i ==> !Touches(block[k], loc)
    ensures Needed(block[j := Void], t)
  {
    var erased := block[j := Void];
    if t != j && (block[t].Get? || block[t].Set?) {
      SummaryAlike(block, erased, t, block[t].loc);
    }
  }

  lemma {:induction false} LastSetFirst(block: seq<Inst>, i: nat, loc: Loc)
    requires i <= |block| && Summary(block, i, loc).lastSet.Some?
    ensures
      var j := Summary(block, i, loc).lastSet.value;
      j < |block| && Summary(block[j := Void], i, loc) == Summary(block, j, loc)
  {
    var j := Summary(block, i, loc).lastSet.value;
    LastSetQuiet(block, i, loc);
    if !Touches(block[i - 1], loc) {
      LastSetFirst(block, i - 1, loc);
    } else {
      SummaryAlike(block, block[j := Void], j, loc);
    }
  }

  /** Nothing redundant is left. */
  lemma {:induction false} AllNeeded(block: seq<Inst>, i: nat, t: nat)
    requires t < i <= |block|
    ensures Needed(Eliminated(block, i), t)
    decreases i
  {
    var r, r', inst := Eliminated(block, i - 1), Eliminated(block, i), block[i - 1];
    Untouched(block, i - 1);
    assert r[i - 1] == r[i - 1..][0] == block[i - 1..][0] == inst;
    if t < i - 1 {
      AllNeeded(block, i - 1, t);
    }
    if inst.Set? {
      TrackIsSummary(block, i - 1, inst.loc);
      if Track(block, i - 1, inst.loc).lastSet.Some? {
        LastSetQuiet(r, i - 1, inst.loc);
        var j := Summary(r, i - 1, inst.loc).lastSet.value;
        if t < i - 1 {
          EraseKeepsNeeded(r, j, i - 1, inst.loc, t);
        } else {
          AllNeeded(block, i - 1, j);
          LastSetFirst(r, i - 1, inst.loc);
        }
      }
    } else {
      if inst.Get? {
        TrackIsSummary(block, i - 1, inst.loc);
      }
      if t < i - 1 && (r[t].Get? || r[t].Set?) {
        SummaryAlike(r, r', t, r[t].loc);
      }
    }
  }

  /** The last instruction that touched a location tells of it. */
  lemma {:induction false} SummaryAt(block: seq<Inst>, k: nat, i: nat, loc: Loc)
    requires k < i <= |block| && Touches(block[k], loc) && forall t :: k < t < i ==> !Touches(block[t], loc)
    ensures Summary(block, i, loc) ==
            match block[k]
            case Get(_, kind) => Info(Some((Ref(k), kind)), None)
            case Set(_, kind, value) => Info(Some((value, kind)), Some(k))
            case _ => NOTHING
    decreases i
  {
    if k < i - 1 {
      SummaryAt(block, k, i - 1, loc);
    }
  }

  /** Of two accesses to a location with nothing that touches it between: a set never follows a set,
      nor does a get follow an access of its own kind. */
  lemma NoneRedundant(block: seq<Inst>, k: nat, i: nat, loc: Loc)
    requires
      var r := Eliminated(block, |block|);
      && k < i < |block| && (r[k].Get? || r[k].Set?) && (r[i].Get? || r[i].Set?) && r[k].loc == loc && r[i].loc == loc
      && forall t :: k < t < i ==> !Touches(r[t], loc)
    ensures
      var r := Eliminated(block, |block|);
      !(r[k].Set? && r[i].Set?) && (r[i].Get? ==> r[k].kind != r[i].kind)
  {
    var r := Eliminated(block, |block|);
    AllNeeded(block, |block|, i);
    SummaryAt(r, k, i, loc);
    hide Eliminated, Summary;
  }

  lemma {:induction false} StaysOrdered(block: seq<Inst>, i: nat)
    requires i <= |block| && Ordered(block)
    ensures Ordered(Eliminated(block, i))
  {
    if i > 0 {
      StaysOrdered(block, i - 1);
      var r, inst := Eliminated(block, i - 1), block[i - 1];
      if inst.Get? {
        TrackIsSummary(block, i - 1, inst.loc);
        if Forwarded(Track(block, i - 1, inst.loc), inst.kind) {
          KnownEarlier(r, i - 1, inst.loc);
        }
      }
    }
  }

  // ----- the meaning is kept, and exactly when

  /** A get that becomes the operand of a set: in the run with the values env, the operand is no wider
      than what the set stores. */
  predicate Faithful(block: seq<Inst>, i: nat, env: seq<nat>)
    requires i < |block|
  {
    block[i].Get? ==>
      var info, kind := Track(block, i, block[i].loc), block[i].kind;
      Forwarded(info, kind) && info.lastSet.Some? ==>
        Keep(kind, Eval(env, info.known.value.0)) == Eval(env, info.known.value.0)
  }

  lemma {:induction false} SameUpTo(sem: Semantics, block: seq<Inst>, i: nat, regs: map<Loc, nat>, world: seq<nat>)
    requires i <= |block| && Ordered(block)
    requires forall t :: 0 <= t < i ==> Faithful(block, t, Run(sem, block, Start(regs, world)).env)
    ensures Run(sem, Eliminated(block, i), Start(regs, world)) == Run(sem, block, Start(regs, world))
    decreases i
  {
    hide Run, Step, Keep, Lookup;
    if i > 0 {
      SameUpTo(sem, block, i - 1, regs, world);
      var r, inst := Eliminated(block, i - 1), block[i - 1];
      Untouched(block, i - 1);
      assert r[i - 1] == r[i - 1..][0] == block[i - 1..][0] == inst;
      if inst.Get? && Forwarded(Track(block, i - 1, inst.loc), inst.kind) {
        ForwardedLoads(sem, block, i - 1, regs, world);
        ForwardSame(sem, r, i - 1, Track(block, i - 1, inst.loc).known.value.0, Start(regs, world));
      } else if inst.Set? && Track(block, i - 1, inst.loc).lastSet.Some? {
        TrackIsSummary(block, i - 1, inst.loc);
        LastSetQuiet(r, i - 1, inst.loc);
        EraseSame(sem, r, Summary(r, i - 1, inst.loc).lastSet.value, i - 1, inst.loc, Start(regs, world));
      }
    }
  }

  /** What a forwarded get would load is the value known. */
  lemma ForwardedLoads(sem: Semantics, block: seq<Inst>, i: nat, regs: map<Loc, nat>, world: seq<nat>)
    requires i < |block| && Ordered(block) && block[i].Get?
    requires Forwarded(Track(block, i, block[i].loc), block[i].kind)
    requires Run(sem, Eliminated(block, i), Start(regs, world)) == Run(sem, block, Start(regs, world))
    requires Faithful(block, i, Run(sem, block, Start(regs, world)).env)
    ensures
      var at := Run(sem, Eliminated(block, i)[..i], Start(regs, world));
      Keep(block[i].kind, Lookup(at.regs, block[i].loc)) == Eval(at.env, Track(block, i, block[i].loc).known.value.0)
  {
    var r, loc := Eliminated(block, i), block[i].loc;
    var at := Run(sem, r[..i], Start(regs, world));
    StaysOrdered(block, i);
    TrackIsSummary(block, i, loc);
    SummaryHolds(sem, r, i, loc, regs, world);
    KnownEarlier(r, i, loc);
    EnvAt(sem, r, i, regs, world);
    var v := Track(block, i, loc).known.value.0;
    EvalStable(at.env, Run(sem, block, Start(regs, world)).env, v, i);
    KeepTwice(block[i].kind, Eval(at.env, v));
  }

  lemma {:induction false} StaysForwarded(block: seq<Inst>, i: nat, n: nat)
    requires i < n <= |block| && block[i].Get? && Forwarded(Track(block, i, block[i].loc), block[i].kind)
    ensures Eliminated(block, n)[i] == Identity(Track(block, i, block[i].loc).known.value.0)
    decreases n
  {
    if i < n - 1 {
      StaysForwarded(block, i, n - 1);
      if block[n - 1].Set? {
        TrackIsSummary(block, n - 1, block[n - 1].loc);
        if Track(block, n - 1, block[n - 1].loc).lastSet.Some? {
          LastSetQuiet(Eliminated(block, n - 1), n - 1, block[n - 1].loc);
        }
      }
    }
  }

  /** If the runs agree, a get that became a set's operand loaded just that. */
  lemma AgreeingFaithful(sem: Semantics, block: seq<Inst>, i: nat, regs: map<Loc, nat>, world: seq<nat>)
    requires i < |block| && Ordered(block)
    requires Run(sem, Eliminated(block, |block|), Start(regs, world)) == Run(sem, block, Start(regs, world))
    ensures Faithful(block, i, Run(sem, block, Start(regs, world)).env)
  {
    if block[i].Get? && Forwarded(Track(block, i, block[i].loc), block[i].kind) {
      var out, env, loc := Eliminated(block, |block|), Run(sem, block, Start(regs, world)).env, block[i].loc;
      var v, at := Track(block, i, loc).known.value.0, Run(sem, out[..i], Start(regs, world));
      StaysForwarded(block, i, |block|);
      EnvAt(sem, block, i, regs, world);
      EnvAt(sem, out, i, regs, world);
      KeepTwice(block[i].kind, Lookup(Run(sem, block[..i], Start(regs, world)).regs, loc));
      StaysOrdered(block, i);
      TrackIsSummary(block, i, loc);
      KnownEarlier(Eliminated(block, i), i, loc);
      EvalStable(at.env, env, v, i);
    }
  }

  /** Every instruction gives the same value, and registers and world end the same, in exactly the runs
      in which no get is replaced by an operand wider than what was stored. */
  lemma PreservesIff(sem: Semantics, block: seq<Inst>, regs: map<Loc, nat>, world: seq<nat>)
    requires Ordered(block)
    ensures Run(sem, Eliminated(block, |block|), Start(regs, world)) == Run(sem, block, Start(regs, world))
            <==> forall i :: 0 <= i < |block| ==> Faithful(block, i, Run(sem, block, Start(regs, world)).env)
  {
    if Run(sem, Eliminated(block, |block|), Start(regs, world)) == Run(sem, block, Start(regs, world)) {
      forall i | 0 <= i < |block|
        ensures Faithful(block, i, Run(sem, block, Start(regs, world)).env)
      {
        AgreeingFaithful(sem, block, i, regs, world);
      }
    } else if forall i :: 0 <= i < |block| ==> Faithful(block, i, Run(sem, block, Start(regs, world)).env) {
      SameUpTo(sem, block, |block|, regs, world);
    }
  }

  /** Moving a register to the flags and reading them back: the flags are four bits, the pass forwards all. */
  const MOVE_FLAGS: seq<Inst> := [Get(Reg(0), W), Set(Flags, NZCVRaw, Ref(0)), Get(Flags, NZCVRaw)]

  lemma FlagsExample(sem: Semantics, world: seq<nat>, block: seq<Inst>)
    requires block == MOVE_FLAGS
    ensures Ordered(block)
    ensures Run(sem, block, Start(map[Reg(0) := 1], world)).env == [1, 0, 0]
    ensures Run(sem, Eliminated(block, 3), Start(map[Reg(0) := 1], world)).env == [1, 0, 1]
  {
    assert Track(block, 2, Flags) == Info(Some((Ref(0), NZCVRaw)), Some(1));
    assert Eliminated(block, 1) == block && Eliminated(block, 2) == block;
    assert Eliminated(block, 3) == block[2 := Identity(Ref(0))];
    FlagsRun(sem, world, block, 0);
    FlagsRun(sem, world, block[2 := Identity(Ref(0))], 1);
  }

  lemma FlagsRun(sem: Semantics, world: seq<nat>, block: seq<Inst>, last: nat)
    requires block == MOVE_FLAGS[2 := if last == 0 then Get(Flags, NZCVRaw) else Identity(Ref(0))] && last <= 1
    ensures Run(sem, block, Start(map[Reg(0) := 1], world)).env == [1, 0, last]
  {
    var s := Start(map[Reg(0) := 1], world);
    assert Run(sem, block[..0], s) == s;
    hide Run, Step;
    RunNext(sem, block, 0, s);
    RunNext(sem, block, 1, s);
    RunNext(sem, block, 2, s);
    assert block[..3] == block;
    FlagsSteps(sem, s);
  }

  lemma FlagsSteps(sem: Semantics, s: State)
    requires s.env == [] && s.regs == map[Reg(0) := 1]
    ensures
      var t := State([1], s.regs, s.world);
      var u := State([1, 0], s.regs[Flags := 0], s.world);
      && Step(sem, Get(Reg(0), W), s) == t && Step(sem, Set(Flags, NZCVRaw, Ref(0)), t) == u
      && Step(sem, Get(Flags, NZCVRaw), u).env == [1, 0, 0] && Step(sem, Identity(Ref(0)), u).env == [1, 0, 1]
  {
    NoFlags(0);
    NoFlags(1);
    hide TopFour;
  }

  lemma NoFlags(x: nat)
    requires x < 0x1000_0000
    ensures TopFour(x) == 0
  {
  }

  // ----- the pass itself

  function InfoOf(info: map<Loc, Info>, loc: Loc): Info {
    if loc in info then info[loc] else NOTHING
  }

  class Pass {
    var block: seq<Inst>
    var info: map<Loc, Info>

    constructor (instructions: seq<Inst>)
      ensures block == instructions && info == map[]
    {
      block := instructions;
      info := map[];
    }

    method DoSet(loc: Loc, value: Value, at: nat, kind: Kind)
      requires var last := InfoOf(info, loc).lastSet; last.Some? ==> last.value < |block|
      modifies this
      ensures info == old(info)[loc := Info(Some((value, kind)), Some(at))]
      ensures
        var last := InfoOf(old(info), loc).lastSet;
        block == if last.Some? then old(block)[last.value := Void] else old(block)
    {
      var last := InfoOf(info, loc).lastSet;
      if last.Some? {
        block := block[last.value := Void];
      }
      info := info[loc := Info(Some((value, kind)), Some(at))];
    }

    method DoGet(loc: Loc, at: nat, kind: Kind)
      requires at < |block|
      modifies this
      ensures
        var known := InfoOf(old(info), loc);
        if Forwarded(known, kind) then info == old(info) && block == old(block)[at := Identity(known.known.value.0)]
        else info == old(info)[loc := Info(Some((Ref(at), kind)), None)] && block == old(block)
    {
      var known := InfoOf(info, loc);
      if known.known.None? {
        info := info[loc := Info(Some((Ref(at), kind)), None)];
      } else if known.known.value.1 == kind {
        block := block[at := Identity(known.known.value.0)];
      } else {
        info := info[loc := Info(Some((Ref(at), kind)), None)];
      }
    }

    method Eliminate()
      requires info == map[]
      modifies this
      ensures block == Eliminated(old(block), |old(block)|)
    {
      ghost var before := block;
      var i := 0;
      while i < |block|
        invariant i <= |block| == |before| && block == Eliminated(before, i)
        invariant forall loc :: InfoOf(info, loc) == Track(before, i, loc)
      {
        Untouched(before, i);
        TrackBefore(before, i);
        assert block[i] == block[i..][0] == before[i..][0] == before[i];
        match block[i] {
          case Get(loc, kind) => DoGet(loc, i, kind);
          case Set(loc, kind, value) => DoSet(loc, value, i, kind);
          case Other(_, _, flags, core, _) =>
            if flags {
              info := map loc | loc in info && loc != Flags :: info[loc];
            }
            if core {
              info := map loc | loc in info && loc == Flags :: info[loc];
            }
          case _ =>
        }
        i := i + 1;
      }
    }
  }
}
