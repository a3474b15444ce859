/** Concurrent Compile calls of catalogmcp as interleaved atomic steps on the shared
    pointer and the per-compiler gap slots. */
module CompilerInterleaving {
  import opened Basics
  import opened Operations

  type Id = nat

  /** Where a thread stands in Compile. `Recording` has loaded the pointer and is about
      to store its gap there. */
  datatype Phase =
    | Idle
    | Reset(compiler: Id)
    | Compiling(compiler: Id)
    | Recording(compiler: Id, loaded: Id)

  datatype State = State(active: Option<Id>, gaps: map<Id, string>, threads: map<nat, Phase>)

  datatype Step =
    | Begin(thread: nat, compiler: Id)   // clear the compiler's gap
    | Install(thread: nat)               // activeCompiler.Store(m)
    | Load(thread: nat)                  // a resolver finds the profile unadapted, loads the pointer
    | Record(thread: nat)                // and stores the gap on what it loaded
    | Finish(thread: nat)                // activeCompiler.Store(nil)
    | Collect(compiler: Id)              // AdapterGap

  const START := State(None, map[], map[])

  function PhaseOf(s: State, t: nat): Phase {
    if t in s.threads then s.threads[t] else Idle
  }

  function GapOf(s: State, c: Id): Option<string> {
    if c in s.gaps then Some(s.gaps[c]) else None
  }

  function Cleared(s: State, c: Id): State {
    s.(gaps := map k | k in s.gaps && k != c :: s.gaps[k])
  }

  function InPhase(s: State, t: nat, p: Phase): State {
    s.(threads := s.threads[t := p])
  }

  /** The type name a gap reports for a profile. */
  function ForeignType(p: Profile): string {
    if p.Unadapted? then p.typeName else ""
  }

  predicate Enabled(profiles: Id -> Profile, s: State, step: Step) {
    match step
    case Begin(t, _) => PhaseOf(s, t).Idle?
    case Install(t) => PhaseOf(s, t).Reset?
    case Load(t) => PhaseOf(s, t).Compiling? && profiles(PhaseOf(s, t).compiler).Unadapted?
    case Record(t) => PhaseOf(s, t).Recording? && profiles(PhaseOf(s, t).compiler).Unadapted?
    case Finish(t) => PhaseOf(s, t).Compiling?
    case Collect(_) => true
  }

  function Next(profiles: Id -> Profile, s: State, step: Step): State
    requires Enabled(profiles, s, step)
  {
    match step
    case Begin(t, c) => InPhase(Cleared(s, c), t, Reset(c))
    case Install(t) => InPhase(s, t, Compiling(PhaseOf(s, t).compiler)).(active := Some(PhaseOf(s, t).compiler))
    case Load(t) =>
      if s.active.None? then s else InPhase(s, t, Recording(PhaseOf(s, t).compiler, s.active.value))
    case Record(t) =>
      var p := PhaseOf(s, t);
      InPhase(s, t, Compiling(p.compiler)).(gaps := s.gaps[p.loaded := ForeignType(profiles(p.compiler))])
    case Finish(t) => InPhase(s, t, Idle).(active := None)
    case Collect(c) => Cleared(s, c)
  }

  /** The state after `steps`, when each was possible in its turn. */
  function Run(profiles: Id -> Profile, s: State, steps: seq<Step>): Option<State>
    decreases steps
  {
    if steps == [] then Some(s)
    else if !Enabled(profiles, s, steps[0]) then None
    else Run(profiles, Next(profiles, s, steps[0]), steps[1..])
  }

  /** Thread `t` is inside the part of Compile where its compiler is installed. */
  predicate InProgress(s: State, t: nat, c: Id) {
    var p := PhaseOf(s, t);
    (p.Compiling? || p.Recording?) && p.compiler == c
  }

  ghost predicate Invariant(profiles: Id -> Profile, s: State) {
    && (s.active.Some? ==> exists t: nat :: InProgress(s, t, s.active.value))
    && (forall c: Id :: GapOf(s, c).Some? ==> exists owner: Id :: profiles(owner) == Unadapted(GapOf(s, c).value))
  }

  lemma NextKeepsInvariant(profiles: Id -> Profile, s: State, step: Step)
    requires Invariant(profiles, s) && Enabled(profiles, s, step)
    ensures Invariant(profiles, Next(profiles, s, step))
  {
    var n := Next(profiles, s, step);
    if step.Install? {
      assert InProgress(n, step.thread, n.active.value);
    } else if n.active.Some? {
      var o: nat :| InProgress(s, o, s.active.value);
      assert InProgress(n, o, n.active.value);
    }
    forall c: Id | GapOf(n, c).Some? ensures exists owner: Id :: profiles(owner) == Unadapted(GapOf(n, c).value) {
      if step.Record? && c == PhaseOf(s, step.thread).loaded {
        assert profiles(PhaseOf(s, step.thread).compiler) == Unadapted(GapOf(n, c).value);
      } else {
        assert GapOf(n, c) == GapOf(s, c);
      }
    }
  }

  /** Every interleaving of any number of Compile and AdapterGap calls: the pointer is
      nil or names a compiler whose Compile is in progress, and every recorded gap names
      the type of some compiler's unadapted profile. */
  lemma {:induction false} EveryInterleaving(profiles: Id -> Profile, s: State, steps: seq<Step>)
    requires Invariant(profiles, s) && Run(profiles, s, steps).Some?
    ensures Invariant(profiles, Run(profiles, s, steps).value)
    decreases steps
  {
    if steps == [] {
    } else {
      NextKeepsInvariant(profiles, s, steps[0]);
      EveryInterleaving(profiles, Next(profiles, s, steps[0]), steps[1..]);
    }
  }

  /** So from the start: whatever was interleaved so far, an installed compiler is being
      compiled, and a reported gap is about a foreign profile. */
  lemma EveryRun(profiles: Id -> Profile, steps: seq<Step>)
    requires Run(profiles, START, steps).Some?
    ensures var s := Run(profiles, START, steps).value;
            && (s.active.Some? ==> exists t: nat :: InProgress(s, t, s.active.value))
            && (forall c: Id :: GapOf(s, c).Some? ==>
                  exists owner: Id :: profiles(owner) == Unadapted(GapOf(s, c).value))
  {
    EveryInterleaving(profiles, START, steps);
  }

  // ---- one Compile with nothing else running ----

  /** Steps of thread `t` inside its Compile of `c`, or a gap of another compiler being
      collected. */
  predicate Alone(step: Step, t: nat, c: Id) {
    match step
    case Load(u) => u == t
    case Record(u) => u == t
    case Collect(d) => d != c
    case _ => false
  }

  predicate HasLoad(steps: seq<Step>) {
    exists step :: step in steps && step.Load?
  }

  /** `c` is installed by `t`, which has or has not yet recorded, and never on another. */
  predicate Solo(profiles: Id -> Profile, s: State, t: nat, c: Id, reported: bool) {
    && s.active == Some(c)
    && (PhaseOf(s, t) == Compiling(c) || (PhaseOf(s, t) == Recording(c, c) && profiles(c).Unadapted?))
    && (reported ==>
          && profiles(c).Unadapted?
          && (PhaseOf(s, t).Recording? || GapOf(s, c) == Some(ForeignType(profiles(c)))))
    && (!reported ==> GapOf(s, c) == None && PhaseOf(s, t) == Compiling(c))
  }

  lemma {:induction false} SoloBody(profiles: Id -> Profile, s: State, t: nat, c: Id, reported: bool, body: seq<Step>)
    requires Solo(profiles, s, t, c, reported)
    requires forall step :: step in body ==> Alone(step, t, c)
    requires Run(profiles, s, body).Some?
    ensures Solo(profiles, Run(profiles, s, body).value, t, c, reported || HasLoad(body))
    ensures forall d: Id :: d != c && GapOf(s, d) == None ==> GapOf(Run(profiles, s, body).value, d) == None
    decreases body
  {
    if body == [] {
    } else {
      var step := body[0];
      assert step in body;
      var n := Next(profiles, s, step);
      SoloBody(profiles, n, t, c, reported || step.Load?, body[1..]);
      assert forall x :: x in body <==> x == step || x in body[1..];
    }
  }

  lemma {:induction false} RunAppend(profiles: Id -> Profile, s: State, a: seq<Step>, b: seq<Step>)
    requires Run(profiles, s, a + b).Some?
    ensures Run(profiles, s, a).Some?
    ensures Run(profiles, s, a + b) == Run(profiles, Run(profiles, s, a).value, b)
    decreases a
  {
    if a == [] {
      assert a + b == b;
    } else {
      assert (a + b)[0] == a[0] && (a + b)[1..] == a[1..] + b;
      RunAppend(profiles, Next(profiles, s, a[0]), a[1..], b);
    }
  }

  /** A Compile that overlaps no other one leaves its own compiler with a gap exactly
      when one of its resolvers met the unadapted profile, and gives none to others. */
  lemma SerialIsolation(profiles: Id -> Profile, s: State, t: nat, c: Id, body: seq<Step>)
    requires forall step :: step in body ==> Alone(step, t, c)
    requires Run(profiles, s, [Begin(t, c), Install(t)] + (body + [Finish(t)])).Some?
    ensures var end := Run(profiles, s, [Begin(t, c), Install(t)] + (body + [Finish(t)])).value;
            && end.active == None
            && GapOf(end, c) == (if HasLoad(body) then Some(ForeignType(profiles(c))) else None)
            && (HasLoad(body) ==> profiles(c).Unadapted?)
            && (forall d: Id :: d != c && GapOf(s, d) == None ==> GapOf(end, d) == None)
  {
    var head, tail := [Begin(t, c), Install(t)], body + [Finish(t)];
    RunAppend(profiles, s, head, tail);
    var s1 := Next(profiles, s, Begin(t, c));
    var s2 := Next(profiles, s1, Install(t));
    assert head[0] == Begin(t, c) && head[1..] == [Install(t)] && [Install(t)][1..] == [];
    assert Enabled(profiles, s, Begin(t, c));
    assert Run(profiles, s, head) == Run(profiles, s1, [Install(t)]) == Run(profiles, s2, []) == Some(s2);
    assert forall d: Id :: d != c ==> GapOf(s2, d) == GapOf(s, d);
    assert Solo(profiles, s2, t, c, false);
    RunAppend(profiles, s2, body, [Finish(t)]);
    SoloBody(profiles, s2, t, c, false, body);
    var s3 := Run(profiles, s2, body).value;
    assert [Finish(t)][1..] == [];
    assert Run(profiles, s3, [Finish(t)]) == Some(Next(profiles, s3, Finish(t)));
    assert forall d: Id :: GapOf(Next(profiles, s3, Finish(t)), d) == GapOf(s3, d);
  }

  // ---- where a gap lands, for any interleaving ----

  lemma RunSnoc(profiles: Id -> Profile, s: State, steps: seq<Step>, last: Step)
    requires Run(profiles, s, steps + [last]).Some?
    ensures Run(profiles, s, steps).Some?
    ensures var before := Run(profiles, s, steps).value;
            Enabled(profiles, before, last) && Run(profiles, s, steps + [last]) == Some(Next(profiles, before, last))
  {
    RunAppend(profiles, s, steps, [last]);
    assert [last][1..] == [];
  }

  lemma RunPrefix(profiles: Id -> Profile, s: State, steps: seq<Step>, k: nat)
    requires k < |steps| && Run(profiles, s, steps).Some?
    ensures Run(profiles, s, steps[..k]).Some?
    ensures Enabled(profiles, Before(profiles, s, steps, k), steps[k])
  {
    assert steps == steps[..k + 1] + steps[k + 1..];
    RunAppend(profiles, s, steps[..k + 1], steps[k + 1..]);
    assert steps[..k + 1] == steps[..k] + [steps[k]];
    RunSnoc(profiles, s, steps[..k], steps[k]);
  }

  /** The state in front of step `k` of a run that is possible so far. */
  function Before(profiles: Id -> Profile, s: State, steps: seq<Step>, k: nat): State
    requires k <= |steps|
  {
    match Run(profiles, s, steps[..k])
    case Some(before) => before
    case None => s
  }

  predicate WritesPointer(step: Step) {
    step.Install? || step.Finish?
  }

  predicate LastPointerWrite(steps: seq<Step>, k: nat) {
    k < |steps| && WritesPointer(steps[k]) && forall m :: k < m < |steps| ==> !WritesPointer(steps[m])
  }

  predicate NoPointerWrite(steps: seq<Step>) {
    forall step :: step in steps ==> !WritesPointer(step)
  }

  /** The last write of the pointer was an Install by a thread that is compiling `c`. */
  ghost predicate InstalledLast(profiles: Id -> Profile, s: State, steps: seq<Step>, c: Id) {
    || (NoPointerWrite(steps) && s.active == Some(c))
    || exists k: nat ::
         && LastPointerWrite(steps, k) && steps[k].Install?
         && PhaseOf(Before(profiles, s, steps, k), steps[k].thread) == Reset(c)
  }

  /** `activeCompiler` is `c` exactly when its last write installed `c`. */
  lemma {:induction false} PointerExact(profiles: Id -> Profile, s: State, steps: seq<Step>, c: Id)
    requires Run(profiles, s, steps).Some?
    ensures Run(profiles, s, steps).value.active == Some(c) <==> InstalledLast(profiles, s, steps, c)
    decreases steps
  {
    if steps == [] {
    } else {
      var n := |steps| - 1;
      var front, last := steps[..n], steps[n];
      assert steps == front + [last];
      RunSnoc(profiles, s, front, last);
      assert Before(profiles, s, steps, n) == Run(profiles, s, front).value;
      if WritesPointer(last) {
        assert LastPointerWrite(steps, n);
        assert last in steps;
      } else {
        PointerExact(profiles, s, front, c);
        forall k: nat ensures LastPointerWrite(front, k) <==> LastPointerWrite(steps, k) {
        }
        assert forall k: nat :: k < n ==> front[..k] == steps[..k];
        assert forall step :: step in steps <==> step in front || step == last;
      }
    }
  }

  /** A resolver that meets the foreign profile of `c` and loads the pointer: its report will
      go to `d` exactly when the last write of the pointer installed `d`, its own compiler or
      another; it is lost exactly when that write was a Finish, or there was none. */
  lemma LoadLandsOn(profiles: Id -> Profile, steps: seq<Step>, t: nat, c: Id)
    requires Run(profiles, START, steps).Some?
    requires var s := Run(profiles, START, steps).value;
             PhaseOf(s, t) == Compiling(c) && Enabled(profiles, s, Load(t))
    ensures var next := Next(profiles, Run(profiles, START, steps).value, Load(t));
            && (forall d: Id :: PhaseOf(next, t) == Recording(c, d) <==> InstalledLast(profiles, START, steps, d))
            && (PhaseOf(next, t) == Compiling(c) <==>
                  NoPointerWrite(steps) || exists k: nat :: LastPointerWrite(steps, k) && steps[k].Finish?)
  {
    forall d: Id
      ensures Run(profiles, START, steps).value.active == Some(d) <==> InstalledLast(profiles, START, steps, d)
    {
      PointerExact(profiles, START, steps, d);
    }
    PointerNil(profiles, steps);
  }

  lemma {:induction false} PointerNil(profiles: Id -> Profile, steps: seq<Step>)
    requires Run(profiles, START, steps).Some?
    ensures Run(profiles, START, steps).value.active == None <==>
              NoPointerWrite(steps) || exists k: nat :: LastPointerWrite(steps, k) && steps[k].Finish?
  {
    if steps == [] {
    } else {
      var n := |steps| - 1;
      var front, last := steps[..n], steps[n];
      assert steps == front + [last];
      RunSnoc(profiles, START, front, last);
      if WritesPointer(last) {
        assert LastPointerWrite(steps, n);
        assert last in steps;
      } else {
        PointerNil(profiles, front);
        forall k: nat ensures LastPointerWrite(front, k) <==> LastPointerWrite(steps, k) {
        }
        assert forall step :: step in steps <==> step in front || step == last;
      }
    }
  }

  /** Step `k` clears or fills the gap slot of `d`. */
  predicate WritesGap(profiles: Id -> Profile, steps: seq<Step>, k: nat, d: Id) {
    k < |steps| &&
    match steps[k]
    case Begin(_, c) => c == d
    case Collect(c) => c == d
    case Record(t) =>
      var p := PhaseOf(Before(profiles, START, steps, k), t);
      p.Recording? && p.loaded == d
    case _ => false
  }

  predicate LastGapWrite(profiles: Id -> Profile, steps: seq<Step>, k: nat, d: Id) {
    WritesGap(profiles, steps, k, d) && forall m :: k < m < |steps| ==> !WritesGap(profiles, steps, m, d)
  }

  /** The slot of `d` was last filled by step `k`, for a thread compiling `c`. */
  ghost predicate FilledBy(profiles: Id -> Profile, steps: seq<Step>, k: nat, c: Id, d: Id) {
    && LastGapWrite(profiles, steps, k, d) && steps[k].Record?
    && PhaseOf(Before(profiles, START, steps, k), steps[k].thread) == Recording(c, d)
  }

  lemma {:induction false} GapExact(profiles: Id -> Profile, steps: seq<Step>, d: Id, name: string)
    requires Run(profiles, START, steps).Some?
    ensures GapOf(Run(profiles, START, steps).value, d) == Some(name) <==>
              exists k: nat, c: Id :: FilledBy(profiles, steps, k, c, d) && ForeignType(profiles(c)) == name
    decreases steps
  {
    if steps == [] {
    } else {
      var n := |steps| - 1;
      var front, last := steps[..n], steps[n];
      assert steps == front + [last];
      RunSnoc(profiles, START, front, last);
      assert Before(profiles, START, steps, n) == Run(profiles, START, front).value;
      if WritesGap(profiles, steps, n, d) {
        assert LastGapWrite(profiles, steps, n, d);
        if last.Record? {
          assert FilledBy(profiles, steps, n, PhaseOf(Before(profiles, START, steps, n), last.thread).compiler, d);
        }
      } else {
        GapExact(profiles, front, d, name);
        assert forall k: nat :: k < n ==> front[..k] == steps[..k];
        forall k: nat ensures LastGapWrite(profiles, front, k, d) <==> LastGapWrite(profiles, steps, k, d) {
          assert forall m: nat :: m < n ==> (WritesGap(profiles, front, m, d) <==> WritesGap(profiles, steps, m, d));
        }
        forall k: nat, c: Id ensures FilledBy(profiles, front, k, c, d) <==> FilledBy(profiles, steps, k, c, d) {
        }
      }
    }
  }

  predicate Moves(step: Step, t: nat) {
    match step
    case Begin(u, _) => u == t
    case Install(u) => u == t
    case Load(u) => u == t
    case Record(u) => u == t
    case Finish(u) => u == t
    case Collect(_) => false
  }

  /** Thread `t`, compiling `c`, made its last move at step `l`: it loaded the pointer, whose
      last write had installed `d`. */
  ghost predicate LoadedAt(profiles: Id -> Profile, steps: seq<Step>, l: nat, t: nat, c: Id, d: Id) {
    && l < |steps| && steps[l] == Load(t)
    && (forall m :: l < m < |steps| ==> !Moves(steps[m], t))
    && PhaseOf(Before(profiles, START, steps, l), t) == Compiling(c)
    && InstalledLast(profiles, START, steps[..l], d)
  }

  /** A move of `t` that makes it report on `d` is a load of `d`. */
  lemma {:induction false} RecordingMove(profiles: Id -> Profile, front: seq<Step>, last: Step, t: nat, c: Id, d: Id)
    requires Run(profiles, START, front + [last]).Some? && Moves(last, t)
    ensures PhaseOf(Run(profiles, START, front + [last]).value, t) == Recording(c, d) <==>
              exists l: nat :: LoadedAt(profiles, front + [last], l, t, c, d)
  {
    var steps, n := front + [last], |front|;
    RunSnoc(profiles, START, front, last);
    PointerExact(profiles, START, front, d);
    assert steps[..n] == front && steps[n] == last;
    assert Before(profiles, START, steps, n) == Run(profiles, START, front).value;
    assert forall l: nat :: LoadedAt(profiles, steps, l, t, c, d) ==> l == n;
    if last.Load? && PhaseOf(Run(profiles, START, steps).value, t) == Recording(c, d) {
      assert LoadedAt(profiles, steps, n, t, c, d);
    }
  }

  /** A step of another thread changes nothing about the last load of `t`. */
  lemma {:induction false} LoadedStays(profiles: Id -> Profile, front: seq<Step>, last: Step, l: nat, t: nat, c: Id,
                                       d: Id)
    requires !Moves(last, t)
    ensures LoadedAt(profiles, front + [last], l, t, c, d) <==> LoadedAt(profiles, front, l, t, c, d)
  {
    var steps := front + [last];
    assert steps[|front|] == last && forall m :: 0 <= m < |front| ==> steps[m] == front[m];
    if l < |front| {
      assert steps[..l] == front[..l];
      if forall m :: l < m < |front| ==> !Moves(front[m], t) {
        forall m | l < m < |steps| ensures !Moves(steps[m], t) {
          assert m == |front| || steps[m] == front[m];
        }
      } else {
        var m :| l < m < |front| && Moves(front[m], t);
        assert Moves(steps[m], t);
      }
    }
  }

  /** A thread is about to report on `d` exactly when its last move loaded `d`. */
  lemma {:induction false} RecordingExact(profiles: Id -> Profile, steps: seq<Step>, t: nat, c: Id, d: Id)
    requires Run(profiles, START, steps).Some?
    ensures PhaseOf(Run(profiles, START, steps).value, t) == Recording(c, d) <==>
              exists l: nat :: LoadedAt(profiles, steps, l, t, c, d)
    decreases steps
  {
    if steps == [] {
    } else {
      var front, last := steps[..|steps| - 1], steps[|steps| - 1];
      assert steps == front + [last];
      if Moves(last, t) {
        RecordingMove(profiles, front, last, t, c, d);
      } else {
        RunSnoc(profiles, START, front, last);
        RecordingExact(profiles, front, t, c, d);
        forall l: nat ensures LoadedAt(profiles, front, l, t, c, d) <==> LoadedAt(profiles, steps, l, t, c, d) {
          LoadedStays(profiles, front, last, l, t, c, d);
        }
      }
    }
  }

  /** The gap `d` holds comes from a resolver of `c`: nothing has cleared or replaced it since
      step `k` stored it, and when that resolver loaded the pointer, `d` was the last
      compiler installed. */
  ghost predicate AttributedAt(profiles: Id -> Profile, steps: seq<Step>, k: nat, l: nat, c: Id, d: Id) {
    && LastGapWrite(profiles, steps, k, d) && steps[k].Record?
    && LoadedAt(profiles, steps[..k], l, steps[k].thread, c, d)
  }

  /** Every interleaving: compiler `d` holds a gap exactly when a resolver of some `c` put it
      there in this way, and the gap names the profile of that `c`; it is misattributed when
      `c` is not `d`. */
  lemma {:induction false} AttributionExact(profiles: Id -> Profile, steps: seq<Step>, d: Id, name: string)
    requires Run(profiles, START, steps).Some?
    ensures GapOf(Run(profiles, START, steps).value, d) == Some(name) <==>
              exists k: nat, l: nat, c: Id ::
                AttributedAt(profiles, steps, k, l, c, d) && ForeignType(profiles(c)) == name
  {
    GapExact(profiles, steps, d, name);
    if k: nat, c: Id :| FilledBy(profiles, steps, k, c, d) && ForeignType(profiles(c)) == name {
      RunPrefix(profiles, START, steps, k);
      RecordingExact(profiles, steps[..k], steps[k].thread, c, d);
      var l: nat :| LoadedAt(profiles, steps[..k], l, steps[k].thread, c, d);
      assert AttributedAt(profiles, steps, k, l, c, d);
    }
    if k: nat, l: nat, c: Id :| AttributedAt(profiles, steps, k, l, c, d) && ForeignType(profiles(c)) == name {
      RunPrefix(profiles, START, steps, k);
      RecordingExact(profiles, steps[..k], steps[k].thread, c, d);
      assert FilledBy(profiles, steps, k, c, d);
    }
  }

  // ---- overlapping Compiles ----

  function TwoProfiles(c: Id): Profile {
    if c == 0 then Unadapted("host.Profile") else Carrier({})
  }

  lemma RunFour(s1: State, s2: State, s3: State, s4: State, rest: seq<Step>)
    requires s1 == Next(TwoProfiles, START, Begin(0, 0))
    requires Enabled(TwoProfiles, s1, Install(0)) && s2 == Next(TwoProfiles, s1, Install(0))
    requires Enabled(TwoProfiles, s2, Begin(1, 1)) && s3 == Next(TwoProfiles, s2, Begin(1, 1))
    requires Enabled(TwoProfiles, s3, Install(1)) && s4 == Next(TwoProfiles, s3, Install(1))
    ensures Run(TwoProfiles, START, [Begin(0, 0), Install(0), Begin(1, 1), Install(1)] + rest)
            == Run(TwoProfiles, s4, rest)
  {
    var r1, r2 := [Install(0), Begin(1, 1), Install(1)] + rest, [Begin(1, 1), Install(1)] + rest;
    var r3 := [Install(1)] + rest;
    var r0 := [Begin(0, 0), Install(0), Begin(1, 1), Install(1)] + rest;
    assert r0[1..] == r1 && r1[1..] == r2 && r2[1..] == r3 && r3[1..] == rest;
    assert Run(TwoProfiles, s3, r3) == Run(TwoProfiles, s4, rest);
    assert Run(TwoProfiles, s2, r2) == Run(TwoProfiles, s3, r3);
    assert Run(TwoProfiles, s1, r1) == Run(TwoProfiles, s2, r2);
    assert Run(TwoProfiles, START, r0) == Run(TwoProfiles, s1, r1);
  }

  const OVERLAP: seq<Step> := [Begin(0, 0), Install(0), Begin(1, 1), Install(1)]

  /** Both compilers under way, the second one installed. */
  lemma Overlapped(rest: seq<Step>) returns (s4: State)
    ensures s4 == State(Some(1), map[], map[0 := Compiling(0), 1 := Compiling(1)])
    ensures Run(TwoProfiles, START, OVERLAP + rest) == Run(TwoProfiles, s4, rest)
  {
    var s1 := Next(TwoProfiles, START, Begin(0, 0));
    var s2 := Next(TwoProfiles, s1, Install(0));
    var s3 := Next(TwoProfiles, s2, Begin(1, 1));
    s4 := Next(TwoProfiles, s3, Install(1));
    RunFour(s1, s2, s3, s4, rest);
  }

  /** Compiler 0 has the foreign profile, compiler 1 a proper carrier. Overlapping, the gap of
      0 lands on 1. */
  lemma OverlapMisattributes()
    ensures var landed := Run(TwoProfiles, START, OVERLAP + [Load(0), Record(0)]);
            landed.Some? && GapOf(landed.value, 0) == None && GapOf(landed.value, 1) == Some("host.Profile")
  {
    var s4 := Overlapped([Load(0), Record(0)]);
    var s5 := Next(TwoProfiles, s4, Load(0));
    var s6 := Next(TwoProfiles, s5, Record(0));
    assert [Load(0), Record(0)][1..] == [Record(0)] && [Record(0)][1..] == [];
    assert Run(TwoProfiles, s4, [Load(0), Record(0)]) == Some(s6);
  }

  /** When 1 finishes first, the gap is on nobody. */
  lemma OverlapLoses()
    ensures var lost := Run(TwoProfiles, START, OVERLAP + [Finish(1), Load(0), Finish(0)]);
            lost.Some? && GapOf(lost.value, 0) == None && GapOf(lost.value, 1) == None
  {
    var s4 := Overlapped([Finish(1), Load(0), Finish(0)]);
    var e5 := Next(TwoProfiles, s4, Finish(1));
    var e6 := Next(TwoProfiles, e5, Load(0));
    var e7 := Next(TwoProfiles, e6, Finish(0));
    assert [Finish(1), Load(0), Finish(0)][1..] == [Load(0), Finish(0)];
    assert [Load(0), Finish(0)][1..] == [Finish(0)] && [Finish(0)][1..] == [];
    assert Run(TwoProfiles, e6, [Finish(0)]) == Some(e7);
  }
}
