/** The adapter-gap diagnostic of catalogmcp: description resolvers report through the
    package-level pointer to whichever compiler is compiling (compile.go, profile.go).
    Here one Compile at a time; CompilerInterleaving has the concurrent picture. */
module CompilerGap {
  import opened Basics
  import opened Operations

  /** What Compile meets for one operation: its own text, its targets, whether Describe
      finds it, and whether its schema decodes. */
  datatype CompiledOp = CompiledOp(description: string, targets: seq<Target>, described: bool, schemaOk: bool)

  /** fallbackDescription calls a forgeProfileOf resolver on the way to its answer. */
  predicate Reaches(targets: seq<Target>, profile: Profile) {
    if targets == [] then false
    else
      var t := targets[0];
      if IsFallback(t) && t.description != "" then false
      else if IsFallback(t) && t.descFunc.Some? && !profile.NoProfile? then
        t.descFunc.value.consultsProfile || (t.descFunc.value.render(profile) == "" && Reaches(targets[1..], profile))
      else Reaches(targets[1..], profile)
  }

  /** Target `i` is the fallback whose resolver goes through forgeProfileOf: no earlier fallback
      has a text of its own, written or resolved. */
  predicate ResolverCalledAt(targets: seq<Target>, i: nat, profile: Profile) {
    && i < |targets| && profile != NoProfile
    && targets[i].needs == [] && targets[i].visible && targets[i].description == ""
    && targets[i].descFunc.Some? && targets[i].descFunc.value.consultsProfile
    && forall j :: 0 <= j < i && targets[j].needs == [] && targets[j].visible ==>
         && targets[j].description == ""
         && (targets[j].descFunc.Some? ==> targets[j].descFunc.value.render(profile) == "")
  }

  lemma {:induction false} ReachesExactly(targets: seq<Target>, profile: Profile)
    ensures Reaches(targets, profile) <==> exists i: nat :: ResolverCalledAt(targets, i, profile)
  {
    if targets == [] {
    } else {
      var rest := targets[1..];
      ReachesExactly(rest, profile);
      assert forall j :: 0 <= j < |rest| ==> rest[j] == targets[j + 1];
      if i: nat :| ResolverCalledAt(targets, i, profile) {
        if i > 0 {
          assert ResolverCalledAt(rest, i - 1, profile);
        }
      }
      if ResolverCalledAt(targets, 0, profile) {
      } else if i: nat :| ResolverCalledAt(rest, i, profile) && Reaches(targets, profile) {
        forall j | 0 <= j < i + 1 && targets[j].needs == [] && targets[j].visible
          ensures targets[j].description == ""
          ensures targets[j].descFunc.Some? ==> targets[j].descFunc.value.render(profile) == ""
        {
          assert j == 0 || targets[j] == rest[j - 1];
        }
        assert ResolverCalledAt(targets, i + 1, profile);
      }
    }
  }

  /** Some operation up to and including the first with a bad schema reaches one. */
  predicate AnyReaches(ops: seq<CompiledOp>, profile: Profile) {
    if ops == [] then false
    else if !ops[0].described then AnyReaches(ops[1..], profile)
    else Reaches(ops[0].targets, profile) || (ops[0].schemaOk && AnyReaches(ops[1..], profile))
  }

  /** Compile gets as far as operation `i`, which reaches a resolver. */
  predicate ReachedAt(ops: seq<CompiledOp>, i: nat, profile: Profile) {
    && i < |ops|
    && ops[i].described && Reaches(ops[i].targets, profile)
    && forall j :: 0 <= j < i && ops[j].described ==> ops[j].schemaOk
  }

  lemma {:induction false} AnyReachesExact(ops: seq<CompiledOp>, profile: Profile)
    ensures AnyReaches(ops, profile) <==> exists i: nat :: ReachedAt(ops, i, profile)
  {
    if ops == [] {
    } else {
      var rest := ops[1..];
      AnyReachesExact(rest, profile);
      assert forall j :: 0 <= j < |rest| ==> rest[j] == ops[j + 1];
      if i: nat :| ReachedAt(rest, i, profile) && (ops[0].described ==> ops[0].schemaOk) {
        forall j | 0 <= j < i + 1 && ops[j].described ensures ops[j].schemaOk {
          assert j == 0 || ops[j] == rest[j - 1];
        }
        assert ReachedAt(ops, i + 1, profile);
      }
      if ops[0].described && Reaches(ops[0].targets, profile) {
        assert ReachedAt(ops, 0, profile);
      }
      if i: nat :| ReachedAt(ops, i, profile) && i > 0 {
        assert ReachedAt(rest, i - 1, profile);
      }
    }
  }

  function Descriptions(ops: seq<CompiledOp>, profile: Profile): seq<string> {
    if ops == [] then []
    else
      (if ops[0].described then [FallbackDescription(ops[0].description, ops[0].targets, profile)] else [])
      + Descriptions(ops[1..], profile)
  }

  /** One turn of the loop over the operations. */
  lemma CompileTurn(ops: seq<CompiledOp>, i: nat, profile: Profile)
    requires i < |ops|
    ensures Descriptions(ops[i..], profile) ==
              (if ops[i].described then [FallbackDescription(ops[i].description, ops[i].targets, profile)] else [])
              + Descriptions(ops[i + 1..], profile)
    ensures AnyReaches(ops[i..], profile) <==>
              if !ops[i].described then AnyReaches(ops[i + 1..], profile)
              else Reaches(ops[i].targets, profile) || (ops[i].schemaOk && AnyReaches(ops[i + 1..], profile))
  {
    assert ops[i..][0] == ops[i] && ops[i..][1..] == ops[i + 1..];
  }

  class Compiler {
    const profile: Profile
    var gap: Option<string>

    constructor (profile: Profile)
      ensures this.profile == profile && gap == None
    {
      this.profile := profile;
      gap := None;
    }

    /** Returns the diagnostic and clears it. */
    method AdapterGap() returns (error: Option<string>)
      modifies this
      ensures error == old(gap) && gap == None
    {
      error := gap;
      gap := None;
    }
  }

  /** The package: one pointer shared by all compilers. */
  class Package {
    var active: Compiler?

    constructor ()
      ensures active == null
    {
      active := null;
    }

    /** A profile of a foreign type is reported on the active compiler, if there is one. */
    method ForgeProfileOf(p: Profile)
      modifies active
      ensures active != null ==>
                active.gap == if p.Unadapted? then Some(p.typeName) else old(active.gap)
    {
      if p.NoProfile? {
        return;
      }
      if p.Unadapted? && active != null {
        active.gap := Some(p.typeName);
      }
    }

    method ResolveDescription(cliDesc: string, targets: seq<Target>, profile: Profile) returns (desc: string)
      modifies active
      ensures desc == FallbackDescription(cliDesc, targets, profile)
      ensures active != null ==>
                active.gap == if profile.Unadapted? && Reaches(targets, profile) then Some(profile.typeName)
                              else old(active.gap)
    {
      ghost var seen := false;
      for i := 0 to |targets|
        invariant FallbackDescription(cliDesc, targets[i..], profile) == FallbackDescription(cliDesc, targets, profile)
        invariant Reaches(targets, profile) <==> seen || Reaches(targets[i..], profile)
        invariant active != null ==>
                    active.gap == if profile.Unadapted? && seen then Some(profile.typeName) else old(active.gap)
      {
        var t := targets[i];
        assert targets[i..][0] == t && targets[i..][1..] == targets[i + 1..];
        if IsFallback(t) {
          if t.description != "" {
            return t.description;
          }
          if t.descFunc.Some? && !profile.NoProfile? {
            if t.descFunc.value.consultsProfile {
              ForgeProfileOf(profile);
              seen := true;
            }
            var s := t.descFunc.value.render(profile);
            if s != "" {
              return s;
            }
          }
        }
      }
      return cliDesc;
    }

    /** Compile of the catalogmcp compiler `m`; None stands for a nil catalog. When it
        ends, whichever way, nobody is active and `m` holds a gap exactly when its own
        profile is of a foreign type and a resolver was reached. */
    method Compile(m: Compiler, ops: Option<seq<CompiledOp>>) returns (tools: Option<seq<string>>)
      requires active == null
      modifies this, m
      ensures active == null
      ensures ops.None? ==> tools == None && m.gap == old(m.gap)
      ensures ops.Some? ==>
                m.gap == if m.profile.Unadapted? && AnyReaches(ops.value, m.profile) then Some(m.profile.typeName)
                         else None
      ensures ops.Some? ==> (tools.Some? <==> forall op :: op in ops.value && op.described ==> op.schemaOk)
      ensures tools.Some? ==> tools.value == Descriptions(ops.value, m.profile)
    {
      if ops.None? {
        return None;
      }
      m.gap := None;
      active := m;
      var out: seq<string> := [];
      var all := ops.value;
      ghost var seen := false;
      for i := 0 to |all|
        invariant active == m
        invariant AnyReaches(all, m.profile) <==> seen || AnyReaches(all[i..], m.profile)
        invariant m.gap == if m.profile.Unadapted? && seen then Some(m.profile.typeName) else None
        invariant out + Descriptions(all[i..], m.profile) == Descriptions(all, m.profile)
        invariant forall j :: 0 <= j < i && all[j].described ==> all[j].schemaOk
      {
        var op := all[i];
        CompileTurn(all, i, m.profile);
        if !op.described {
          continue;
        }
        var desc := ResolveDescription(op.description, op.targets, m.profile);
        seen := seen || Reaches(op.targets, m.profile);
        if !op.schemaOk {
          active := null;
          return None;
        }
        out := out + [desc];
      }
      active := null;
      return Some(out);
    }
  }

  /** One description for each operation that Describe finds, in order, and none for another. */
  lemma {:induction false} DescriptionsAppend(a: seq<CompiledOp>, op: CompiledOp, profile: Profile)
    ensures Descriptions([], profile) == []
    ensures Descriptions(a + [op], profile) ==
              Descriptions(a, profile)
              + if op.described then [FallbackDescription(op.description, op.targets, profile)] else []
  {
    if a == [] {
      assert a + [op] == [op] && [op][1..] == [];
    } else {
      assert (a + [op])[0] == a[0] && (a + [op])[1..] == a[1..] + [op];
      DescriptionsAppend(a[1..], op, profile);
    }
  }

  /** Two compilers one after the other: each reads back its own gap, not the other's. */
  method CompileInTurn(package_: Package, a: Compiler, b: Compiler, opsA: seq<CompiledOp>, opsB: seq<CompiledOp>)
    returns (gapA: Option<string>, gapB: Option<string>)
    requires package_.active == null && a != b
    modifies package_, a, b
    ensures gapA.Some? <==> a.profile.Unadapted? && exists i: nat :: ReachedAt(opsA, i, a.profile)
    ensures gapB.Some? <==> b.profile.Unadapted? && exists i: nat :: ReachedAt(opsB, i, b.profile)
  {
    AnyReachesExact(opsA, a.profile);
    AnyReachesExact(opsB, b.profile);
    var _ := package_.Compile(a, Some(opsA));
    var _ := package_.Compile(b, Some(opsB));
    gapA := a.AdapterGap();
    gapB := b.AdapterGap();
  }
}
