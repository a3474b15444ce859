/** Operation descriptors (operation.go) and the policy functions over them (catalog.go). */
module Operations {
  import opened Basics
  import opened Ascii
  import opened Args
  import opened ArgResolution
  import opened Normalizer
  import opened Accessors

  datatype Safety = ReadOnly | Mutate | Destructive

  datatype Interaction = AgentSafe | HumanOnly | NeedsHandoff

  datatype Visibility = ModelVisible | AppOnly | BothVisible

  datatype Actor = ModelActor | AppActor | HumanActor

  /** The opaque profile a compiler is built for: none, a feature carrier, or a value
      of some other type that was never adapted. */
  datatype Profile = NoProfile | Carrier(features: set<string>) | Unadapted(typeName: string)

  /** A description resolver; `consultsProfile` says that it goes through forgeProfileOf. */
  datatype DescFunc = DescFunc(consultsProfile: bool, render: Profile -> string)

  datatype Target = Target(needs: seq<string>, visible: bool, description: string, descFunc: Option<DescFunc>)

  datatype Operation = Operation(
    name: string,
    title: string,
    summary: string,
    description: string,
    targets: seq<Target>,
    args: seq<OperationArg>,
    safety: Safety,
    interaction: Interaction,
    visibility: Visibility,
    category: string,
    handler: Option<nat>)

  /** What discovery shows of an operation. The JSON schema is a function of the name
      and the args, which stand for it here. */
  datatype ToolDescriptor = ToolDescriptor(
    name: string,
    title: string,
    description: string,
    schemaArgs: seq<OperationArg>,
    safety: Safety,
    interaction: Interaction,
    visibility: Visibility,
    category: string,
    targets: seq<Target>)

  type Ops = map<string, Operation>

  predicate VisibleTo(ov: Visibility, v: Visibility) {
    match v
    case ModelVisible => ov == ModelVisible || ov == BothVisible
    case AppOnly => ov == AppOnly || ov == BothVisible
    case BothVisible => true
  }

  function ActorVisibility(actor: Actor): Visibility {
    if actor.ModelActor? then ModelVisible else AppOnly
  }

  predicate IsFallback(t: Target) {
    t.needs == [] && t.visible
  }

  function FallbackDescription(cliDesc: string, targets: seq<Target>, profile: Profile): string {
    if targets == [] then cliDesc
    else
      var t := targets[0];
      if IsFallback(t) && t.description != "" then t.description
      else if IsFallback(t) && t.descFunc.Some? && !profile.NoProfile? && t.descFunc.value.render(profile) != "" then
        t.descFunc.value.render(profile)
      else FallbackDescription(cliDesc, targets[1..], profile)
  }

  function DescriptorFor(op: Operation, actor: Actor, profile: Profile): ToolDescriptor {
    ToolDescriptor(
      op.name, op.title,
      if actor.ModelActor? then FallbackDescription(op.description, op.targets, profile) else op.description,
      op.args, op.safety, op.interaction, op.visibility, op.category, op.targets)
  }

  function Describe(ops: Ops, name: string, actor: Actor): Option<ToolDescriptor> {
    if name in ops && VisibleTo(ops[name].visibility, ActorVisibility(actor)) then
      Some(DescriptorFor(ops[name], actor, NoProfile))
    else None
  }

  /** destructiveConfirmSatisfied: the agent-confirmation arg, if declared, is true in
      the raw input. */
  function ConfirmSatisfied(args: seq<OperationArg>, input: Input): bool {
    if args == [] then false
    else if args[0].name == "confirm" && args[0].agentConfirm && args[0].argType == BoolArg then
      BoolArgOf(input, "confirm", false)
    else ConfirmSatisfied(args[1..], input)
  }

  datatype Refusal =
    | UnknownOperation
    | HumanRequired
    | NotVisible
    | ConfirmRequired
    | NoHandler
    | BadInput(error: NormError)

  /** Either a refusal, or the handler that ran and the input it was given. */
  datatype Outcome = Refused(reason: Refusal) | Executed(handler: nat, input: Input)

  predicate NeedsHuman(op: Operation) {
    op.interaction == HumanOnly || op.interaction == NeedsHandoff
  }

  function InvokeOutcome(env: Env, ops: Ops, name: string, input: Input, actor: Actor, order: seq<string>): Outcome {
    if name !in ops then Refused(UnknownOperation)
    else
      var op := ops[name];
      if NeedsHuman(op) && actor != HumanActor then Refused(HumanRequired)
      else if !VisibleTo(op.visibility, ActorVisibility(actor)) then Refused(NotVisible)
      else if op.safety == Destructive && actor == ModelActor && !ConfirmSatisfied(op.args, input) then
        Refused(ConfirmRequired)
      else if op.handler.None? then Refused(NoHandler)
      else
        match Normalize(env, op.args, input, order)
        case Err(e) => Refused(BadInput(e))
        case Ok(out) => Executed(op.handler.value, out)
  }

  datatype AddError = NilOperation | Unnamed | InvalidArg(name: string) | AlreadyRegistered

  predicate Addable(env: Env, ops: Ops, op: Option<Operation>) {
    && op.Some?
    && op.value.name != ""
    && (forall a :: a in op.value.args ==> RegistrableArg(env, a))
    && op.value.name !in ops
  }

  function AfterAdd(env: Env, ops: Ops, op: Option<Operation>): Ops {
    if Addable(env, ops, op) then ops[op.value.name := op.value] else ops
  }

  predicate MatchesQuery(op: Operation, q: string) {
    || Contains(ToLower(op.name), q)
    || Contains(ToLower(op.summary), q)
    || Contains(ToLower(op.description), q)
    || Contains(ToLower(op.title), q)
  }

  /** The three filters of Search, on the query and category as typed. */
  predicate PassesFilters(op: Operation, query: string, category: string, v: Visibility) {
    var q, cat := ToLower(TrimSpace(query)), ToLower(TrimSpace(category));
    && VisibleTo(op.visibility, v)
    && (cat != "" ==> EqualFold(op.category, cat))
    && (q != "" ==> MatchesQuery(op, q))
  }

  ghost predicate IncreasingByName(ops: seq<Operation>) {
    forall i, j :: 0 <= i < j < |ops| ==> Before(ops[i].name, ops[j].name)
  }

  /** `out` lists exactly the registered operations that pass the filters, by name. */
  ghost predicate IsSearchResult(ops: Ops, query: string, category: string, v: Visibility, out: seq<Operation>) {
    && IncreasingByName(out)
    && forall op :: op in out <==> op.name in ops && ops[op.name] == op && PassesFilters(op, query, category, v)
  }
}
