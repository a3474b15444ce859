/** The registry (catalogImpl in catalog.go) and the compiler over it (compile_mcp.go). */
module CatalogRegistry {
  import opened Basics
  import opened Ascii
  import opened Args
  import opened ArgResolution
  import opened Normalizer
  import opened NormalizerLaws
  import opened Operations

  /** Insertion by name into an increasing list of operations. */
  function InsertByName(op: Operation, sorted: seq<Operation>): seq<Operation> {
    if sorted == [] || Before(op.name, sorted[0].name) then [op] + sorted
    else [sorted[0]] + InsertByName(op, sorted[1..])
  }

  lemma {:induction false} InsertByNameMembers(op: Operation, sorted: seq<Operation>)
    ensures forall x :: x in InsertByName(op, sorted) <==> x == op || x in sorted
    ensures |InsertByName(op, sorted)| == |sorted| + 1
  {
    if sorted != [] && !Before(op.name, sorted[0].name) {
      InsertByNameMembers(op, sorted[1..]);
      assert sorted == [sorted[0]] + sorted[1..];
    }
  }

  lemma {:induction false} InsertByNameIncreasing(op: Operation, sorted: seq<Operation>)
    requires IncreasingByName(sorted)
    requires forall x :: x in sorted ==> x.name != op.name
    ensures IncreasingByName(InsertByName(op, sorted))
  {
    if sorted == [] {
    } else if Before(op.name, sorted[0].name) {
      forall i | 0 < i < |sorted| ensures Before(op.name, sorted[i].name) {
        BeforeTransitive(op.name, sorted[0].name, sorted[i].name);
      }
    } else {
      var rest := InsertByName(op, sorted[1..]);
      InsertByNameIncreasing(op, sorted[1..]);
      InsertByNameMembers(op, sorted[1..]);
      BeforeTotal(op.name, sorted[0].name);
      assert sorted[0] in sorted;
      forall i | 0 <= i < |rest| ensures Before(sorted[0].name, rest[i].name) {
        assert rest[i] in rest;
        if rest[i] != op {
          var k :| 0 <= k < |sorted[1..]| && sorted[1..][k] == rest[i];
          assert sorted[k + 1] == rest[i];
        }
      }
    }
  }

  class Catalog {
    const env: Env
    var ops: Ops

    /** Operations sit under their own, non-empty names and passed validation. */
    ghost predicate Valid()
      reads this
    {
      forall k :: k in ops ==> k != "" && ops[k].name == k && Registrable(env, ops[k].args)
    }

    constructor (env: Env)
      ensures Valid() && this.env == env && ops == map[]
    {
      this.env := env;
      ops := map[];
    }

    method Add(op: Option<Operation>) returns (error: Option<AddError>)
      requires Valid()
      modifies this
      ensures Valid()
      ensures error.None? <==> Addable(env, old(ops), op)
      ensures ops == AfterAdd(env, old(ops), op)
    {
      if op.None? {
        return Some(NilOperation);
      }
      if op.value.name == "" {
        return Some(Unnamed);
      }
      var bad := ValidateOperation(op.value);
      if bad.Some? {
        return Some(InvalidArg(bad.value));
      }
      if op.value.name in ops {
        return Some(AlreadyRegistered);
      }
      ops := ops[op.value.name := op.value];
      return None;
    }

    method ValidateOperation(op: Operation) returns (bad: Option<string>)
      ensures bad.None? <==> Registrable(env, op.args)
      ensures bad.Some? ==> exists a :: a in op.args && a.name == bad.value && !RegistrableArg(env, a)
    {
      for i := 0 to |op.args|
        invariant forall j :: 0 <= j < i ==> RegistrableArg(env, op.args[j])
      {
        var a := op.args[i];
        assert a in op.args;
        if a.agentOnly && a.required && a.defaultText == "" {
          return Some(a.name);
        }
        if a.agentConfirm && (a.name != "confirm" || a.argType != BoolArg) {
          return Some(a.name);
        }
        if a.choices != [] && a.argType != StringArg {
          return Some(a.name);
        }
        if a.defaultText != "" && a.choices != [] && a.defaultText !in a.choices {
          return Some(a.name);
        }
        if a.defaultText != "" && !ValidDefault(env, a) {
          return Some(a.name);
        }
      }
      return None;
    }

    method Lookup(name: string) returns (op: Option<Operation>)
      ensures op == if name in ops then Some(ops[name]) else None
    {
      return if name in ops then Some(ops[name]) else None;
    }

    /** Filters while ranging over the map in the order the runtime picks, then sorts. */
    method Search(query: string, category: string, v: Visibility, order: seq<string>) returns (out: seq<Operation>)
      requires Valid() && Enumerates(order, ops.Keys)
      ensures IsSearchResult(ops, query, category, v, out)
    {
      var q, cat := ToLower(TrimSpace(query)), ToLower(TrimSpace(category));
      var found: seq<Operation> := [];
      for i := 0 to |order|
        invariant forall op :: op in found <==>
                    op.name in order[..i] && ops[op.name] == op && PassesFilters(op, query, category, v)
        invariant forall x, y :: 0 <= x < y < |found| ==> found[x].name != found[y].name
      {
        var op := ops[order[i]];
        assert order[..i + 1] == order[..i] + [order[i]];
        assert op.name == order[i] && op.name !in order[..i];
        if !VisibleTo(op.visibility, v) {
          continue;
        }
        if cat != "" && !EqualFold(op.category, cat) {
          continue;
        }
        if q != "" && !MatchesQuery(op, q) {
          continue;
        }
        assert forall x :: 0 <= x < |found| ==> found[x] in found;
        found := found + [op];
      }
      assert order[..|order|] == order;
      out := SortByName(found);
    }

    /** slices.SortFunc by name, on operations with distinct names. */
    method SortByName(found: seq<Operation>) returns (out: seq<Operation>)
      requires forall x, y :: 0 <= x < y < |found| ==> found[x].name != found[y].name
      ensures IncreasingByName(out)
      ensures forall op :: op in out <==> op in found
      ensures |out| == |found|
    {
      out := [];
      for i := 0 to |found|
        invariant IncreasingByName(out) && |out| == i
        invariant forall op :: op in out <==> op in found[..i]
      {
        assert found[..i + 1] == found[..i] + [found[i]];
        InsertByNameMembers(found[i], out);
        InsertByNameIncreasing(found[i], out);
        out := InsertByName(found[i], out);
      }
      assert found[..|found|] == found;
    }

    method DescribeFor(name: string, actor: Actor) returns (d: Option<ToolDescriptor>)
      ensures d == Describe(ops, name, actor)
    {
      var op := Lookup(name);
      if op.None? {
        return None;
      }
      if !VisibleTo(op.value.visibility, ActorVisibility(actor)) {
        return None;
      }
      return Some(DescriptorFor(op.value, actor, NoProfile));
    }

    /** The policy gate. The registry is not touched; what is returned is the handler
        that ran and its input, or the refusal. */
    method Invoke(name: string, input: Input, actor: Actor, order: seq<string>) returns (outcome: Outcome)
      requires Enumerates(order, input.Keys)
      ensures outcome == InvokeOutcome(env, ops, name, input, actor, order)
    {
      var op := Lookup(name);
      if op.None? {
        return Refused(UnknownOperation);
      }
      if (op.value.interaction == HumanOnly || op.value.interaction == NeedsHandoff) && actor != HumanActor {
        return Refused(HumanRequired);
      }
      if !VisibleTo(op.value.visibility, ActorVisibility(actor)) {
        return Refused(NotVisible);
      }
      if op.value.safety == Destructive && actor == ModelActor {
        var confirmed := DestructiveConfirmSatisfied(op.value, input);
        if !confirmed {
          return Refused(ConfirmRequired);
        }
      }
      if op.value.handler.None? {
        return Refused(NoHandler);
      }
      var normalized := NormalizeOperationInput(env, op.value.args, input, order);
      if normalized.Err? {
        return Refused(BadInput(normalized.error));
      }
      return Executed(op.value.handler.value, normalized.value);
    }

    method DestructiveConfirmSatisfied(op: Operation, input: Input) returns (ok: bool)
      ensures ok == ConfirmSatisfied(op.args, input)
    {
      for i := 0 to |op.args|
        invariant ConfirmSatisfied(op.args[i..], input) == ConfirmSatisfied(op.args, input)
      {
        var a := op.args[i];
        assert op.args[i..][1..] == op.args[i + 1..];
        if a.name != "confirm" || !a.agentConfirm {
          continue;
        }
        if a.argType == BoolArg {
          return "confirm" in input && input["confirm"] == Bool(true);
        }
      }
      return false;
    }
  }

  /** mcpCompiler.Compile of compile_mcp.go: one descriptor per operation the surface's
      search finds, in its order; a nil catalog is an error. */
  method Compile(catalog: Catalog?, target: Visibility, profile: Profile, order: seq<string>)
    returns (tools: Option<seq<ToolDescriptor>>, ghost found: seq<Operation>)
    requires catalog != null ==> catalog.Valid() && Enumerates(order, catalog.ops.Keys)
    ensures tools.Some? <==> catalog != null
    ensures catalog != null ==>
              && IsSearchResult(catalog.ops, "", "", target, found)
              && tools.value == CompiledFrom(found, target, profile)
  {
    found := [];
    if catalog == null {
      return None, found;
    }
    var ops := catalog.Search("", "", target, order);
    var out: seq<ToolDescriptor> := [];
    for i := 0 to |ops|
      invariant out == CompiledFrom(ops[..i], target, profile)
    {
      out := out + [ToolFor(ops[i], target, profile)];
    }
    assert ops[..|ops|] == ops;
    return Some(out), ops;
  }

  function ToolFor(op: Operation, target: Visibility, profile: Profile): ToolDescriptor {
    DescriptorFor(op, if target == ModelVisible then ModelActor else HumanActor, profile)
  }

  function CompiledFrom(ops: seq<Operation>, target: Visibility, profile: Profile): (tools: seq<ToolDescriptor>)
    ensures |tools| == |ops|
  {
    seq(|ops|, i requires 0 <= i < |ops| => ToolFor(ops[i], target, profile))
  }
}
