/** Discovery agrees with itself on every surface, and what can be said of every run
    of the registry: which handlers ever execute, and on what input. */
module CatalogLaws {
  import opened Basics
  import opened Ascii
  import opened Decimals
  import opened Args
  import opened ArgResolution
  import opened Normalizer
  import opened NormalizerLaws
  import opened CollisionLaws
  import opened Operations
  import opened CatalogRegistry
  import Accessors
  import CompilerGap

  // ---- discovery ----

  lemma IncreasingDistinct(xs: seq<Operation>, i: nat, j: nat)
    requires IncreasingByName(xs) && i < |xs| && j < |xs|
    requires xs[i].name == xs[j].name
    ensures i == j
  {
    BeforeTotal(xs[i].name, xs[j].name);
  }

  /** The head of an increasing list is the least name in it. */
  lemma LeastFirst(xs: seq<Operation>, op: Operation)
    requires IncreasingByName(xs) && op in xs
    ensures op == xs[0] || Before(xs[0].name, op.name)
  {
  }

  lemma TailMembers(xs: seq<Operation>, op: Operation)
    requires IncreasingByName(xs) && xs != []
    ensures op in xs[1..] <==> op in xs && op != xs[0]
    ensures IncreasingByName(xs[1..])
  {
    assert xs == [xs[0]] + xs[1..];
    if i :| 0 <= i < |xs[1..]| && xs[1..][i] == xs[0] {
      IncreasingDistinct(xs, 0, i + 1);
    }
  }

  /** There is only one increasing list of a given set of operations. */
  lemma {:induction false} IncreasingUnique(xs: seq<Operation>, ys: seq<Operation>)
    requires IncreasingByName(xs) && IncreasingByName(ys)
    requires forall op :: op in xs <==> op in ys
    ensures xs == ys
    decreases |xs|
  {
    assert ys != [] ==> ys[0] in ys;
    if xs == [] {
    } else {
      assert xs[0] in ys && ys[0] in xs;
      LeastFirst(ys, xs[0]);
      LeastFirst(xs, ys[0]);
      BeforeTotal(xs[0].name, ys[0].name);
      forall op ensures op in xs[1..] <==> op in ys[1..] {
        TailMembers(xs, op);
        TailMembers(ys, op);
      }
      TailMembers(xs, xs[0]);
      TailMembers(ys, ys[0]);
      IncreasingUnique(xs[1..], ys[1..]);
      assert xs == [xs[0]] + xs[1..] && ys == [ys[0]] + ys[1..];
    }
  }

  /** Search does not depend on the order in which the map is visited. */
  lemma SearchUnique(ops: Ops, query: string, category: string, v: Visibility, x: seq<Operation>, y: seq<Operation>)
    requires IsSearchResult(ops, query, category, v, x) && IsSearchResult(ops, query, category, v, y)
    ensures x == y
  {
    IncreasingUnique(x, y);
  }

  ghost predicate KeyedByName(ops: Ops) {
    forall k :: k in ops ==> ops[k].name == k
  }

  /** Agent text never reaches a human or app surface. */
  lemma AudienceSeparated(op: Operation, actor: Actor, profile: Profile)
    ensures actor != ModelActor ==> DescriptorFor(op, actor, profile).description == op.description
    ensures DescriptorFor(op, AppActor, profile) == DescriptorFor(op, HumanActor, profile)
  {
  }

  /** What a model sees is not app-only, what an app or a human sees is not model-only. */
  predicate OnSurfaceOf(op: Operation, actor: Actor) {
    match actor
    case ModelActor => op.visibility in {ModelVisible, BothVisible}
    case AppActor => op.visibility in {AppOnly, BothVisible}
    case HumanActor => op.visibility in {AppOnly, BothVisible}
  }

  /** When a query as typed finds an operation: blanks at its ends and case do not count, an
      empty one finds everything, and any of four texts may hold it. */
  ghost predicate QueryFinds(op: Operation, query: string) {
    var q := ToLower(TrimSpace(query));
    || q == ""
    || exists i: nat ::
         || OccursAt(ToLower(op.name), q, i)
         || OccursAt(ToLower(op.title), q, i)
         || OccursAt(ToLower(op.summary), q, i)
         || OccursAt(ToLower(op.description), q, i)
  }

  /** The same for a category, which has to be the operation's up to case. */
  predicate CategoryFits(op: Operation, category: string) {
    var cat := ToLower(TrimSpace(category));
    cat == "" || (|cat| == |op.category| && forall i :: 0 <= i < |cat| ==> SameLetter(cat[i], op.category[i]))
  }

  lemma {:induction false} QueryExactly(op: Operation, q: string)
    ensures MatchesQuery(op, q) <==>
              exists i: nat ::
                || OccursAt(ToLower(op.name), q, i)
                || OccursAt(ToLower(op.title), q, i)
                || OccursAt(ToLower(op.summary), q, i)
                || OccursAt(ToLower(op.description), q, i)
  {
    ContainsExact(ToLower(op.name), q);
    ContainsExact(ToLower(op.title), q);
    ContainsExact(ToLower(op.summary), q);
    ContainsExact(ToLower(op.description), q);
  }

  /** Search, filter by filter: an operation is found exactly when it is registered under its
      name, on the surface searched, of the category, and has the query somewhere. */
  lemma {:induction false} FoundExactly(ops: Ops, query: string, category: string, v: Visibility,
                                        found: seq<Operation>, op: Operation)
    requires IsSearchResult(ops, query, category, v, found)
    ensures op in found <==>
              && op.name in ops && ops[op.name] == op
              && (v == ModelVisible ==> op.visibility != AppOnly)
              && (v == AppOnly ==> op.visibility != ModelVisible)
              && CategoryFits(op, category) && QueryFinds(op, query)
  {
    var cat := ToLower(TrimSpace(category));
    QueryExactly(op, ToLower(TrimSpace(query)));
    EqualFoldExact(op.category, cat);
    forall i | 0 <= i < |cat| && |cat| == |op.category|
      ensures SameLetter(cat[i], op.category[i]) <==> SameLetter(op.category[i], cat[i])
    {
    }
  }

  /** What a descriptor shows, field by field, for either kind of surface. */
  lemma DescriptorFields(op: Operation, actor: Actor, profile: Profile)
    ensures var d := DescriptorFor(op, actor, profile);
            && d.name == op.name && d.title == op.title && d.schemaArgs == op.args
            && d.safety == op.safety && d.interaction == op.interaction && d.visibility == op.visibility
            && d.category == op.category && d.targets == op.targets
            && (actor == ModelActor ==> d.description == FallbackDescription(op.description, op.targets, profile))
            && (actor != ModelActor ==> d.description == op.description)
  {
  }

  /** The compiled tools: one for each operation found, with its own fields; on the model's
      surface the description is resolved for the compiler's profile, elsewhere it is plain. */
  lemma CompiledFields(found: seq<Operation>, target: Visibility, profile: Profile)
    ensures var tools := CompiledFrom(found, target, profile);
            && |tools| == |found|
            && forall i :: 0 <= i < |found| ==>
                 && tools[i].name == found[i].name && tools[i].title == found[i].title
                 && tools[i].schemaArgs == found[i].args && tools[i].targets == found[i].targets
                 && tools[i].safety == found[i].safety && tools[i].interaction == found[i].interaction
                 && tools[i].visibility == found[i].visibility && tools[i].category == found[i].category
                 && (target == ModelVisible ==>
                       tools[i].description == FallbackDescription(found[i].description, found[i].targets, profile))
                 && (target != ModelVisible ==> tools[i].description == found[i].description)
  {
    forall i | 0 <= i < |found| {
      DescriptorFields(found[i], if target == ModelVisible then ModelActor else HumanActor, profile);
    }
  }

  /** One boundary: for every name, being described to an actor, being found on its
      surface, being compiled for it (without profile) and not being refused as
      invisible by Invoke come to the same, and the two descriptors are equal. */
  lemma SurfacesAgree(env: Env, ops: Ops, actor: Actor, found: seq<Operation>, name: string, input: Input,
                      order: seq<string>)
    requires KeyedByName(ops)
    requires IsSearchResult(ops, "", "", ActorVisibility(actor), found)
    ensures Describe(ops, name, actor).Some? <==> exists i :: 0 <= i < |found| && found[i].name == name
    ensures Describe(ops, name, actor).Some? <==> name in ops && OnSurfaceOf(ops[name], actor)
    ensures var tools := CompiledFrom(found, ActorVisibility(actor), NoProfile);
            forall i :: 0 <= i < |found| ==>
              && Some(tools[i]) == Describe(ops, found[i].name, actor)
              && (actor != ModelActor ==> tools[i].description == found[i].description)
    ensures Describe(ops, name, actor).None? && name in ops ==>
              InvokeOutcome(env, ops, name, input, actor, order) in {Refused(NotVisible), Refused(HumanRequired)}
    ensures Describe(ops, name, actor).Some? ==>
              InvokeOutcome(env, ops, name, input, actor, order) !in {Refused(NotVisible), Refused(UnknownOperation)}
  {
    assert ToLower(TrimSpace("")) == "";
    forall i | 0 <= i < |found| ensures found[i].name in ops && ops[found[i].name] == found[i]
                                && VisibleTo(found[i].visibility, ActorVisibility(actor)) {
      assert found[i] in found;
      AudienceSeparated(found[i], actor, NoProfile);
    }
    if Describe(ops, name, actor).Some? {
      assert PassesFilters(ops[name], "", "", ActorVisibility(actor));
      assert ops[name] in found;
    }
  }

  /** The text one fallback target offers under a profile, "" for none. */
  function Offer(t: Target, profile: Profile): string {
    if t.needs != [] || !t.visible then ""
    else if t.description != "" then t.description
    else if t.descFunc.Some? && !profile.NoProfile? then t.descFunc.value.render(profile)
    else ""
  }

  /** The description is the first non-empty offer, and the operation's own text when
      no target offers any: never empty if that is not. */
  lemma {:induction false} FirstOfferWins(cliDesc: string, targets: seq<Target>, profile: Profile)
    ensures (exists i :: 0 <= i < |targets| && Offer(targets[i], profile) != ""
               && FallbackDescription(cliDesc, targets, profile) == Offer(targets[i], profile)
               && forall j :: 0 <= j < i ==> Offer(targets[j], profile) == "")
         || (FallbackDescription(cliDesc, targets, profile) == cliDesc
               && forall i :: 0 <= i < |targets| ==> Offer(targets[i], profile) == "")
  {
    if targets == [] {
    } else {
      var rest := targets[1..];
      FirstOfferWins(cliDesc, rest, profile);
      assert forall i :: 0 <= i < |rest| ==> rest[i] == targets[i + 1];
      if Offer(targets[0], profile) == "" && FallbackDescription(cliDesc, rest, profile) != cliDesc {
        var i :| 0 <= i < |rest| && Offer(rest[i], profile) != ""
          && FallbackDescription(cliDesc, rest, profile) == Offer(rest[i], profile)
          && forall j :: 0 <= j < i ==> Offer(rest[j], profile) == "";
        assert Offer(targets[i + 1], profile) == FallbackDescription(cliDesc, targets, profile);
        forall j | 0 <= j < i + 1 ensures Offer(targets[j], profile) == "" {
          assert j == 0 || targets[j] == rest[j - 1];
        }
      }
    }
  }

  // ---- runs ----

  datatype Step =
    | AddStep(op: Option<Operation>)
    | InvokeStep(name: string, input: Input, actor: Actor, order: seq<string>)

  /** The registry after the first `n` steps of a run that starts empty. */
  function StateAt(env: Env, steps: seq<Step>, n: nat): Ops
    requires n <= |steps|
  {
    if n == 0 then map[]
    else
      var before := StateAt(env, steps, n - 1);
      match steps[n - 1]
      case AddStep(op) => AfterAdd(env, before, op)
      case InvokeStep(_, _, _, _) => before
  }

  function OutcomeAt(env: Env, steps: seq<Step>, i: nat): Outcome
    requires i < |steps| && steps[i].InvokeStep?
  {
    InvokeOutcome(env, StateAt(env, steps, i), steps[i].name, steps[i].input, steps[i].actor, steps[i].order)
  }

  /** Step `j` put `op` in the registry. */
  ghost predicate AddedAt(env: Env, steps: seq<Step>, j: nat, op: Operation)
    requires j < |steps|
  {
    steps[j] == AddStep(Some(op)) && Addable(env, StateAt(env, steps, j), Some(op))
  }

  /** Nothing removes or replaces a registered operation. */
  lemma {:induction false} NeverReplaced(env: Env, steps: seq<Step>, n: nat, m: nat, name: string)
    requires n <= m <= |steps|
    requires name in StateAt(env, steps, n)
    ensures name in StateAt(env, steps, m)
    ensures StateAt(env, steps, m)[name] == StateAt(env, steps, n)[name]
    decreases m
  {
    if n == m {
    } else {
      NeverReplaced(env, steps, n, m - 1, name);
    }
  }

  /** What the steps do to the registry: a call nothing, an add that is accepted puts its
      operation there, to be found by that name in every later state. */
  lemma {:induction false} AddedStaysRegistered(env: Env, steps: seq<Step>, j: nat, m: nat)
    requires j < m <= |steps|
    ensures StateAt(env, steps, 0) == map[]
    ensures steps[j].InvokeStep? ==> StateAt(env, steps, j + 1) == StateAt(env, steps, j)
    ensures steps[j].AddStep? && !Addable(env, StateAt(env, steps, j), steps[j].op) ==>
              StateAt(env, steps, j + 1) == StateAt(env, steps, j)
    ensures steps[j].AddStep? && Addable(env, StateAt(env, steps, j), steps[j].op) ==>
              var op := steps[j].op.value;
              && StateAt(env, steps, j + 1) == StateAt(env, steps, j)[op.name := op]
              && op.name in StateAt(env, steps, m) && StateAt(env, steps, m)[op.name] == op
  {
    if steps[j].AddStep? && Addable(env, StateAt(env, steps, j), steps[j].op) {
      NeverReplaced(env, steps, j + 1, m, steps[j].op.value.name);
    }
  }

  /** Whatever is registered was added, once, by an earlier step that validated it. */
  lemma {:induction false} RegisteredWasAdded(env: Env, steps: seq<Step>, n: nat, name: string)
    requires n <= |steps| && name in StateAt(env, steps, n)
    ensures var op := StateAt(env, steps, n)[name];
            && op.name == name
            && (exists j :: 0 <= j < n && AddedAt(env, steps, j, op))
            && (forall j, other :: 0 <= j < n && AddedAt(env, steps, j, other) && other.name == name ==> other == op)
  {
    var op := StateAt(env, steps, n)[name];
    var before := StateAt(env, steps, n - 1);
    if name in before {
      RegisteredWasAdded(env, steps, n - 1, name);
    } else {
      assert steps[n - 1].op == Some(op);
      assert AddedAt(env, steps, n - 1, op);
      forall j, other | 0 <= j < n && AddedAt(env, steps, j, other) && other.name == name ensures other == op {
        if j < n - 1 {
          assert name in StateAt(env, steps, j + 1);
          NeverReplaced(env, steps, j + 1, n - 1, name);
        }
      }
    }
  }

  /** The agent-confirmation contract of an operation, given for this call. */
  ghost predicate SelfConfirmed(op: Operation, input: Input) {
    && (exists a :: a in op.args && a.name == "confirm" && a.agentConfirm && a.argType == BoolArg)
    && Get(input, "confirm") == Some(Bool(true))
  }

  lemma {:induction false} ConfirmSatisfiedExact(args: seq<OperationArg>, input: Input)
    ensures ConfirmSatisfied(args, input) <==>
              && (exists a :: a in args && a.name == "confirm" && a.agentConfirm && a.argType == BoolArg)
              && Get(input, "confirm") == Some(Bool(true))
  {
    if args == [] {
    } else {
      ConfirmSatisfiedExact(args[1..], input);
      assert forall a :: a in args <==> a == args[0] || a in args[1..];
    }
  }

  // ---- what becomes of a given confirm ----

  predicate AliasedAsConfirm(a: OperationArg) {
    a.name != "confirm" && CamelCase(a.name) == "confirm"
  }

  predicate DeclaresConfirm(a: OperationArg, t: ArgType) {
    a.name == "confirm" && a.argType == t
  }

  predicate NullableConfirmFrom(args: seq<OperationArg>, from: nat, to: nat)
    requires to <= |args|
  {
    exists m :: from <= m < to && DeclaresConfirm(args[m], NullableBoolArg)
  }

  /** `l` is the first arg to declare `confirm` as a bool behind `j`, the last one it is an
      alias of. */
  predicate RedeclaredAt(args: seq<OperationArg>, j: nat, l: nat) {
    && j < l < |args|
    && AliasedAsConfirm(args[j]) && DeclaresConfirm(args[l], BoolArg)
    && (forall m :: j < m < |args| ==> !AliasedAsConfirm(args[m]))
    && (forall m :: j < m < l ==> !DeclaresConfirm(args[m], BoolArg))
  }

  /** Either no arg has `confirm` for an alias, or behind the last one that has it is declared
      as a bool again, by default true the first time; and no nullable bool takes it over. */
  predicate ConfirmKept(args: seq<OperationArg>) {
    || ((forall m :: 0 <= m < |args| ==> !AliasedAsConfirm(args[m])) && !NullableConfirmFrom(args, 0, |args|))
    || exists j, l :: 0 <= j < l < |args|
         && RedeclaredAt(args, j, l) && args[l].defaultText == "true" && !NullableConfirmFrom(args, l + 1, |args|)
  }

  predicate HoldsBool(v: Option<Value>) {
    v.Some? && v.value.Bool?
  }

  /** One sound turn, as far as `confirm` goes. An alias removes it. A declaration keeps a bool
      it reads, or a nullable one makes a pointer of it; a pointer stays; and what is no bool
      becomes one only through a bool declaration, which reads nothing then and defaults. */
  predicate Follows(a: OperationArg, before: Option<Value>, after: Option<Value>) {
    if AliasedAsConfirm(a) then after == None
    else if a.name != "confirm" then after == before
    else
      match before
      case Some(Bool(b)) => after == Some(AsStored(a.argType == NullableBoolArg, b))
      case Some(BoolPtr(Some(_))) => a.argType != BoolArg && after == before
      case _ => if a.argType == BoolArg then after == Some(Bool(a.defaultText == "true")) else !HoldsBool(after)
  }

  function AsStored(nullable: bool, b: bool): Value {
    if nullable then BoolPtr(Some(b)) else Bool(b)
  }

  lemma DeclarationFollows(env: Env, a: OperationArg, before: Option<Value>)
    requires a.name == "confirm" && !AliasedAsConfirm(a) && ResolveArg(env, a, before).state != Invalid
    ensures Follows(a, before, Some(FinalValue(env, a, before)))
  {
  }

  lemma TurnFollows(env: Env, args: seq<OperationArg>, k: nat, input: Input)
    requires k < |args| && TurnSound(env, args, k, input)
    ensures Follows(args[k], Held(env, args, k, "confirm", input), Held(env, args, k + 1, "confirm", input))
  {
    if args[k].name == "confirm" {
      CamelCaseFixpoint("confirm");
      var before := Held(env, args, k, "confirm", input);
      assert Read(env, args, k, input) == before;
      DeclarationFollows(env, args[k], before);
    }
  }

  /** What `confirm` holds in front of each turn and behind the last. */
  ghost function Trace(env: Env, args: seq<OperationArg>, input: Input): (held: seq<Option<Value>>)
    ensures |held| == |args| + 1
    ensures forall k :: 0 <= k <= |args| ==> held[k] == Held(env, args, k, "confirm", input)
  {
    seq(|args| + 1, k requires 0 <= k <= |args| => Held(env, args, k, "confirm", input))
  }

  predicate Followed(args: seq<OperationArg>, held: seq<Option<Value>>) {
    |held| == |args| + 1 && forall k :: 0 <= k < |args| ==> Follows(args[k], held[k], held[k + 1])
  }

  /** A bool stays under `confirm`, as a pointer from the first nullable declaration on. */
  lemma {:induction false} BoolFollows(args: seq<OperationArg>, held: seq<Option<Value>>, l: nat, k: nat, b: bool)
    requires Followed(args, held) && l <= k <= |args| && held[l] == Some(Bool(b))
    requires forall m :: l <= m < k ==> !AliasedAsConfirm(args[m])
    ensures held[k] == Some(AsStored(NullableConfirmFrom(args, l, k), b))
    decreases k
  {
    if l == k {
    } else {
      var n := k - 1;
      BoolFollows(args, held, l, n, b);
      assert Follows(args[n], held[n], held[n + 1]);
      assert NullableConfirmFrom(args, l, k) <==>
               NullableConfirmFrom(args, l, n) || DeclaresConfirm(args[n], NullableBoolArg);
    }
  }

  /** Without a bool declaration no bool appears. */
  lemma {:induction false} NoBoolFollows(args: seq<OperationArg>, held: seq<Option<Value>>, l: nat, k: nat)
    requires Followed(args, held) && l <= k <= |args| && !HoldsBool(held[l])
    requires forall m :: l <= m < k ==> !AliasedAsConfirm(args[m]) && !DeclaresConfirm(args[m], BoolArg)
    ensures !HoldsBool(held[k])
    decreases k
  {
    if l == k {
    } else {
      NoBoolFollows(args, held, l, k - 1);
      assert Follows(args[k - 1], held[k - 1], held[k]);
    }
  }

  lemma {:induction false} LastAliased(args: seq<OperationArg>, n: nat, m: nat) returns (j: nat)
    requires m < n <= |args| && AliasedAsConfirm(args[m])
    ensures j < n && AliasedAsConfirm(args[j]) && forall l :: j < l < n ==> !AliasedAsConfirm(args[l])
  {
    if AliasedAsConfirm(args[n - 1]) {
      j := n - 1;
    } else {
      j := LastAliased(args, n - 1, m);
    }
  }

  lemma {:induction false} FirstBool(args: seq<OperationArg>, from: nat, m: nat) returns (l: nat)
    requires from <= m < |args| && DeclaresConfirm(args[m], BoolArg)
    ensures from <= l <= m && DeclaresConfirm(args[l], BoolArg)
    ensures forall i :: from <= i < l ==> !DeclaresConfirm(args[i], BoolArg)
    decreases m - from
  {
    if DeclaresConfirm(args[from], BoolArg) {
      l := from;
    } else {
      l := FirstBool(args, from + 1, m);
    }
  }

  /** Behind the last alias only the default of the first bool declaration is left of it. */
  lemma {:induction false} ConfirmRedeclared(args: seq<OperationArg>, held: seq<Option<Value>>, j: nat, l: nat)
    requires Followed(args, held) && RedeclaredAt(args, j, l)
    ensures held[|args|] == Some(Bool(true)) <==>
              args[l].defaultText == "true" && !NullableConfirmFrom(args, l + 1, |args|)
  {
    assert Follows(args[j], held[j], held[j + 1]) && Follows(args[l], held[l], held[l + 1]);
    NoBoolFollows(args, held, j + 1, l);
    BoolFollows(args, held, l + 1, |args|, args[l].defaultText == "true");
  }

  lemma {:induction false} ConfirmLeft(env: Env, args: seq<OperationArg>, input: Input)
    requires Get(input, "confirm") == Some(Bool(true))
    requires forall m :: 0 <= m < |args| ==> TurnSound(env, args, m, input)
    ensures Held(env, args, |args|, "confirm", input) == Some(Bool(true)) <==> ConfirmKept(args)
  {
    var held := Trace(env, args, input);
    forall k | 0 <= k < |args| ensures Follows(args[k], held[k], held[k + 1]) {
      TurnFollows(env, args, k, input);
    }
    TraceKept(args, held);
  }

  lemma {:induction false} TraceKept(args: seq<OperationArg>, held: seq<Option<Value>>)
    requires Followed(args, held) && held[0] == Some(Bool(true))
    ensures held[|args|] == Some(Bool(true)) <==> ConfirmKept(args)
  {
    if m: nat :| m < |args| && AliasedAsConfirm(args[m]) {
      var j := LastAliased(args, |args|, m);
      assert Follows(args[j], held[j], held[j + 1]);
      if d: nat :| j < d < |args| && DeclaresConfirm(args[d], BoolArg) {
        var l := FirstBool(args, j + 1, d);
        ConfirmRedeclared(args, held, j, l);
        forall j', l' | RedeclaredAt(args, j', l') ensures l' == l {
        }
      } else {
        NoBoolFollows(args, held, j + 1, |args|);
      }
    } else {
      BoolFollows(args, held, 0, |args|, true);
    }
  }

  /** The handler of a confirmed call sees `confirm` true exactly when the declarations keep
      it, for every arg list and whatever else is in the input. */
  lemma {:induction false} ConfirmReachesHandler(env: Env, args: seq<OperationArg>, input: Input, order: seq<string>)
    requires Get(input, "confirm") == Some(Bool(true)) && Normalize(env, args, input, order).Ok?
    ensures Get(Normalize(env, args, input, order).value, "confirm") == Some(Bool(true)) <==> ConfirmKept(args)
  {
    OutputTurnByTurn(env, args, input, order, "confirm");
    ConfirmLeft(env, args, input);
  }

  /** Args apart from one another keep it. */
  lemma ApartArgsKeepConfirm(op: Operation, input: Input)
    requires WellFormed(op.args) && SelfConfirmed(op, input)
    ensures ConfirmKept(op.args)
  {
    var c :| c in op.args && c.name == "confirm" && c.agentConfirm && c.argType == BoolArg;
    forall a | a in op.args ensures !AliasedAsConfirm(a) && (a.name == "confirm" ==> a == c) {
      if a != c {
        ApartMembers(op.args, a, c);
      }
    }
  }

  /** The policy on one executed call, for the operation it dispatched to. */
  ghost predicate PolicyHeld(env: Env, op: Operation, step: Step, handler: nat, given: Input)
    requires step.InvokeStep?
  {
    && op.handler == Some(handler)
    && Registrable(env, op.args)
    && OnSurfaceOf(op, step.actor)
    && (step.actor != HumanActor ==> op.interaction == AgentSafe)
    && (op.safety == Destructive && step.actor == ModelActor ==> SelfConfirmed(op, step.input))
    && Normalize(env, op.args, step.input, step.order) == Ok(given)
    && (op.safety == Destructive && step.actor == ModelActor ==>
          (Get(given, "confirm") == Some(Bool(true)) <==> ConfirmKept(op.args)))
  }

  /** Every answer of Invoke, in the order of the gates. */
  lemma {:induction false} InvokeExactly(env: Env, ops: Ops, name: string, input: Input, actor: Actor,
                                         order: seq<string>)
    ensures var r := InvokeOutcome(env, ops, name, input, actor, order);
            if name !in ops then r == Refused(UnknownOperation)
            else
              var op := ops[name];
              if op.interaction != AgentSafe && actor != HumanActor then r == Refused(HumanRequired)
              else if !OnSurfaceOf(op, actor) then r == Refused(NotVisible)
              else if op.safety == Destructive && actor == ModelActor && !SelfConfirmed(op, input) then
                r == Refused(ConfirmRequired)
              else if op.handler == None then r == Refused(NoHandler)
              else
                match Normalize(env, op.args, input, order)
                case Err(e) => r == Refused(BadInput(e))
                case Ok(given) => r == Executed(op.handler.value, given)
  {
    if name in ops {
      ConfirmSatisfiedExact(ops[name].args, input);
    }
  }

  /** One call: executing means every gate was passed, and passing every gate with an
      input that normalizes means executing. */
  lemma ExecutedExactly(env: Env, ops: Ops, step: Step, handler: nat, given: Input)
    requires step.InvokeStep?
    requires forall k :: k in ops ==> Registrable(env, ops[k].args)
    ensures InvokeOutcome(env, ops, step.name, step.input, step.actor, step.order) == Executed(handler, given)
            <==> step.name in ops && PolicyHeld(env, ops[step.name], step, handler, given)
  {
    if step.name in ops {
      var op := ops[step.name];
      InvokeExactly(env, ops, step.name, step.input, step.actor, step.order);
      if SelfConfirmed(op, step.input) && Normalize(env, op.args, step.input, step.order).Ok? {
        ConfirmReachesHandler(env, op.args, step.input, step.order);
      }
    }
  }

  /** The two sentinel refusals callers test for: a human is required, or a confirmation. */
  lemma {:induction false} SentinelsExactly(env: Env, ops: Ops, name: string, input: Input, actor: Actor,
                                            order: seq<string>)
    ensures var r := InvokeOutcome(env, ops, name, input, actor, order);
            && (r == Refused(HumanRequired) <==>
                  name in ops && ops[name].interaction in {HumanOnly, NeedsHandoff} && actor != HumanActor)
            && (r == Refused(ConfirmRequired) <==>
                  && name in ops
                  && ops[name].interaction == AgentSafe
                  && ops[name].visibility in {ModelVisible, BothVisible}
                  && actor == ModelActor
                  && ops[name].safety == Destructive
                  && !SelfConfirmed(ops[name], input))
  {
    if name in ops {
      ConfirmSatisfiedExact(ops[name].args, input);
    }
  }

  /** Registration, rule by rule. */
  lemma RegistrableExactly(env: Env, a: OperationArg)
    ensures RegistrableArg(env, a) <==>
              && (a.agentOnly && a.required ==> a.defaultText != "")
              && (a.agentConfirm ==> a.name == "confirm" && a.argType == BoolArg)
              && (a.choices != [] ==> a.argType == StringArg && (a.defaultText == "" || a.defaultText in a.choices))
              && (a.defaultText != "" ==>
                    match a.argType
                    case BoolArg => a.defaultText == "true" || a.defaultText == "false"
                    case NullableBoolArg => a.defaultText == "true" || a.defaultText == "false"
                    case IntArg => PlainDecimal(a.defaultText) && FitsInt(DecimalValue(a.defaultText), env.width)
                    case NullableIntArg =>
                      PlainDecimal(a.defaultText) && FitsInt(DecimalValue(a.defaultText), env.width)
                    case FloatArg => env.parseFloat(a.defaultText).ok
                    case DurationArg => env.parseDuration(a.defaultText).ok
                    case _ => true)
  {
    ParseIntExact(a.defaultText, Half(env.width));
  }

  /** An accepted operation is registered under its name from then on, with all others as they
      were; a refused one changes nothing. It is accepted exactly when it is given, named, every
      arg is registrable and the name is free. */
  lemma AddExactly(env: Env, ops: Ops, op: Option<Operation>)
    ensures var accepted := && op != None && op.value.name != "" && op.value.name !in ops
                            && forall a :: a in op.value.args ==> RegistrableArg(env, a);
            var after := AfterAdd(env, ops, op);
            && (Addable(env, ops, op) <==> accepted)
            && (accepted ==>
                  && op.value.name in after && after[op.value.name] == op.value
                  && after.Keys == ops.Keys + {op.value.name})
            && (!accepted ==> after == ops)
            && forall k :: k in ops ==> k in after && after[k] == ops[k]
  {
  }

  lemma {:induction false} StatesRegistrable(env: Env, steps: seq<Step>, n: nat)
    requires n <= |steps|
    ensures forall k :: k in StateAt(env, steps, n) ==> Registrable(env, StateAt(env, steps, n)[k].args)
  {
    if n == 0 {
    } else {
      StatesRegistrable(env, steps, n - 1);
    }
  }

  /** Every run of adds and invokes: a handler that executed belongs to an operation
      that one earlier step added, that every later state still holds unchanged, and
      for which the policy held on that very call. */
  lemma {:induction false} RunSafety(env: Env, steps: seq<Step>, i: nat)
    requires i < |steps| && steps[i].InvokeStep? && OutcomeAt(env, steps, i).Executed?
    ensures var ops := StateAt(env, steps, i);
            && steps[i].name in ops
            && PolicyHeld(env, ops[steps[i].name], steps[i], OutcomeAt(env, steps, i).handler,
                          OutcomeAt(env, steps, i).input)
            && (exists j :: 0 <= j < i && AddedAt(env, steps, j, ops[steps[i].name]))
            && (forall j, other :: 0 <= j < |steps| && AddedAt(env, steps, j, other) && other.name == steps[i].name ==>
                  other == ops[steps[i].name])
            && (forall m :: i <= m <= |steps| ==>
                  && steps[i].name in StateAt(env, steps, m)
                  && StateAt(env, steps, m)[steps[i].name] == ops[steps[i].name])
  {
    var name, ops := steps[i].name, StateAt(env, steps, i);
    StatesRegistrable(env, steps, i);
    ExecutedExactly(env, ops, steps[i], OutcomeAt(env, steps, i).handler, OutcomeAt(env, steps, i).input);
    RegisteredWasAdded(env, steps, i, name);
    forall m | i <= m <= |steps|
      ensures name in StateAt(env, steps, m) && StateAt(env, steps, m)[name] == ops[name]
    {
      NeverReplaced(env, steps, i, m, name);
    }
    RegisteredWasAdded(env, steps, |steps|, name);
  }

  // ---- a compile in the middle of a run ----

  /** What the Compile of catalogmcp meets at an operation of its search, in registry `ops`;
      targets and schema come from elsewhere. */
  function Met(ops: Ops, op: Operation, targetsOf: string -> seq<Target>,
               schemaOk: string -> bool): CompilerGap.CompiledOp {
    var described := Describe(ops, op.name, ModelActor).Some?;
    CompilerGap.CompiledOp(op.description, targetsOf(op.name), described, schemaOk(op.name))
  }

  /** An operation found on the model's surface is described, unchanged, at any later moment. */
  lemma {:induction false} FoundStaysDescribed(env: Env, steps: seq<Step>, n: nat, m: nat, found: seq<Operation>,
                                               op: Operation)
    requires n <= m <= |steps| && op in found
    requires IsSearchResult(StateAt(env, steps, n), "", "", ModelVisible, found)
    ensures Describe(StateAt(env, steps, m), op.name, ModelActor) == Some(DescriptorFor(op, ModelActor, NoProfile))
  {
    NeverReplaced(env, steps, n, m, op.name);
  }

  lemma {:induction false} DescribedAll(ops: seq<CompilerGap.CompiledOp>, profile: Profile)
    requires forall op :: op in ops ==> op.described
    ensures |CompilerGap.Descriptions(ops, profile)| == |ops|
    ensures forall i :: 0 <= i < |ops| ==>
              CompilerGap.Descriptions(ops, profile)[i]
              == FallbackDescription(ops[i].description, ops[i].targets, profile)
  {
    if ops == [] {
    } else {
      assert ops[0] in ops && forall op :: op in ops[1..] ==> op in ops;
      DescribedAll(ops[1..], profile);
    }
  }

  /** Whatever is added between the search and the lookups of one Compile, operation `i`
      being looked up at moment `at(i)`: none of the found operations is skipped. */
  lemma {:induction false} NothingSkipped(env: Env, steps: seq<Step>, n: nat, at: nat -> nat, found: seq<Operation>,
                                          targetsOf: string -> seq<Target>, schemaOk: string -> bool, profile: Profile)
    requires n <= |steps| && forall i: nat :: i < |found| ==> n <= at(i) <= |steps|
    requires IsSearchResult(StateAt(env, steps, n), "", "", ModelVisible, found)
    ensures var met := seq(|found|, i requires 0 <= i < |found| =>
                             Met(StateAt(env, steps, at(i)), found[i], targetsOf, schemaOk));
            var texts := CompilerGap.Descriptions(met, profile);
            && |texts| == |found|
            && forall i :: 0 <= i < |found| ==>
                 texts[i] == FallbackDescription(found[i].description, targetsOf(found[i].name), profile)
  {
    var met := seq(|found|, i requires 0 <= i < |found| =>
                     Met(StateAt(env, steps, at(i)), found[i], targetsOf, schemaOk));
    forall i | 0 <= i < |found| ensures met[i].described {
      FoundStaysDescribed(env, steps, n, at(i), found, found[i]);
    }
    DescribedAll(met, profile);
  }

  // ---- a given confirm lost ----

  const CONFIRM := OperationArg("confirm", BoolArg, false, "", [], false, true, false, "")
  const SHADOW := OperationArg("confirm-", BoolArg, false, "", [], false, false, false, "")

  lemma {:induction false} ShadowAlias()
    ensures CamelCase("confirm") == "confirm" && CamelCase("confirm-") == "confirm"
  {
    CamelCaseFixpoint("confirm");
    TrailingHyphen("confirm");
    assert "confirm" + "-" == "confirm-";
  }

  lemma {:induction false} ConfirmMoved(env: Env)
    ensures Fill(env, [CONFIRM, SHADOW], map["confirm" := Bool(true)]) == Ok(map["confirm-" := Bool(true)])
  {
    var input: Input := map["confirm" := Bool(true)];
    ShadowAlias();
    assert input["confirm" := Bool(true)] == input;
    assert DropKey(input, "confirm") == map[];
    BoolStep(env, CONFIRM, input, input);
    BoolStep(env, SHADOW, input, map[]);
    FillTwo(env, CONFIRM, SHADOW, input, input, map["confirm-" := Bool(true)]);
  }

  lemma {:induction false} TrailingHyphen(s: string)
    requires '-' !in s
    ensures CamelCase(s + "-") == s
  {
    if s == "" {
      assert s + "-" == "-" && "-"[1..] == "";
    } else {
      assert (s + "-")[1..] == s[1..] + "-";
      TrailingHyphen(s[1..]);
    }
  }

  /** A confirmed destructive call by a model that normalizes is executed. */
  lemma {:induction false} ConfirmedCallRuns(env: Env, op: Operation, input: Input, order: seq<string>, given: Input)
    requires op.visibility == ModelVisible && op.interaction == AgentSafe && op.handler.Some?
    requires ConfirmSatisfied(op.args, input) && Normalize(env, op.args, input, order) == Ok(given)
    ensures InvokeOutcome(env, map[op.name := op], op.name, input, ModelActor, order)
            == Executed(op.handler.value, given)
  {
  }

  lemma {:induction false} ConfirmReset(env: Env)
    ensures Fill(env, [SHADOW, CONFIRM], map["confirm" := Bool(true)])
            == Ok(map["confirm-" := Bool(true), "confirm" := Bool(false)])
  {
    var input: Input := map["confirm" := Bool(true)];
    var moved: Input := map["confirm-" := Bool(true)];
    ShadowAlias();
    assert DropKey(input, "confirm") == map[];
    BoolStep(env, SHADOW, input, map[]);
    AbsentBoolStep(env, CONFIRM, moved);
    FillTwo(env, SHADOW, CONFIRM, input, moved, moved["confirm" := Bool(false)]);
  }

  lemma ShadowedRegistrable(env: Env, args: seq<OperationArg>)
    requires args == [CONFIRM, SHADOW] || args == [SHADOW, CONFIRM]
    ensures Registrable(env, args) && !ConfirmKept(args)
    ensures ConfirmSatisfied(args, map["confirm" := Bool(true)])
  {
    ShadowAlias();
    assert CONFIRM in args && AliasedAsConfirm(SHADOW);
    assert args[0] == SHADOW || args[1] == SHADOW;
    ConfirmSatisfiedExact(args, map["confirm" := Bool(true)]);
  }

  /** Registrable args under which a confirmed destructive call reaches its handler without
      any `confirm`, and, declared the other way round, with `confirm` false: the one arg's
      alias is the other's name. */
  lemma ConfirmErasedByAlias(env: Env, op: Operation)
    requires op.args == [CONFIRM, SHADOW] || op.args == [SHADOW, CONFIRM]
    requires op.name != "" && op.safety == Destructive
    requires op.visibility == ModelVisible && op.interaction == AgentSafe && op.handler.Some?
    ensures Addable(env, map[], Some(op)) && !ConfirmKept(op.args)
    ensures InvokeOutcome(env, map[op.name := op], op.name, map["confirm" := Bool(true)], ModelActor, ["confirm"])
            == Executed(op.handler.value,
                        if op.args[0] == CONFIRM then map["confirm-" := Bool(true)]
                        else map["confirm-" := Bool(true), "confirm" := Bool(false)])
  {
    var given: Input := if op.args[0] == CONFIRM then map["confirm-" := Bool(true)]
    else map["confirm-" := Bool(true), "confirm" := Bool(false)];
    ShadowedRegistrable(env, op.args);
    ShadowedNormalizes(env, op.args, given);
    ConfirmedCallRuns(env, op, map["confirm" := Bool(true)], ["confirm"], given);
  }

  lemma {:induction false} ShadowedNormalizes(env: Env, args: seq<OperationArg>, given: Input)
    requires || (args == [CONFIRM, SHADOW] && given == map["confirm-" := Bool(true)])
             || (args == [SHADOW, CONFIRM] && given == map["confirm-" := Bool(true), "confirm" := Bool(false)])
    ensures Normalize(env, args, map["confirm" := Bool(true)], ["confirm"]) == Ok(given)
  {
    var input: Input := map["confirm" := Bool(true)];
    assert Fill(env, args, input) == Ok(given) by {
      ConfirmMoved(env);
      ConfirmReset(env);
    }
    if args[0] == CONFIRM {
      ShadowedKeys(env, CONFIRM, SHADOW, input, given);
    } else {
      ShadowedKeys(env, SHADOW, CONFIRM, input, given);
    }
  }

  lemma ShadowedKeys(env: Env, first: OperationArg, second: OperationArg, input: Input, given: Input)
    requires first == CONFIRM || second == CONFIRM
    requires forall a :: a in [first, second] ==> !a.required && a.group == ""
    requires Fill(env, [first, second], input) == Ok(given) && REQUEST_STATE !in given
    ensures Normalize(env, [first, second], input, ["confirm"]) == Ok(given)
  {
    assert CONFIRM in [first, second];
    OptionalArgsNormalize(env, [first, second], input, ["confirm"], given);
  }

  const NULLABLE := OperationArg("confirm", NullableBoolArg, false, "", [], false, false, false, "")

  lemma NullableStep(env: Env, a: OperationArg, input: Input)
    requires a.argType == NullableBoolArg && CamelCase(a.name) == a.name && Get(input, a.name) == Some(Bool(true))
    ensures FillArg(env, a, input) == Ok(input[a.name := BoolPtr(Some(true))])
  {
  }

  lemma RetypedFill(env: Env, input: Input, given: Input)
    requires input == map["confirm" := Bool(true)] && given == map["confirm" := BoolPtr(Some(true))]
    ensures Fill(env, [CONFIRM, NULLABLE], input) == Ok(given)
  {
    ShadowAlias();
    assert input["confirm" := Bool(true)] == input && input["confirm" := BoolPtr(Some(true))] == given;
    BoolStep(env, CONFIRM, input, input);
    NullableStep(env, NULLABLE, input);
    FillTwo(env, CONFIRM, NULLABLE, input, input, given);
  }

  /** Registrable args without any alias under which the `confirm` of an executed destructive
      call reads as false in the handler: a second declaration turns it into a pointer. */
  lemma ConfirmRetyped(env: Env, op: Operation)
    requires op.args == [CONFIRM, NULLABLE] && op.name != "" && op.safety == Destructive
    requires op.visibility == ModelVisible && op.interaction == AgentSafe && op.handler.Some?
    ensures Addable(env, map[], Some(op)) && !ConfirmKept(op.args)
    ensures InvokeOutcome(env, map[op.name := op], op.name, map["confirm" := Bool(true)], ModelActor, ["confirm"])
            == Executed(op.handler.value, map["confirm" := BoolPtr(Some(true))])
    ensures !Accessors.BoolArgOf(map["confirm" := BoolPtr(Some(true))], "confirm", false)
  {
    var input: Input := map["confirm" := Bool(true)];
    var given: Input := map["confirm" := BoolPtr(Some(true))];
    ShadowAlias();
    assert CONFIRM in op.args && op.args[1] == NULLABLE;
    ConfirmSatisfiedExact(op.args, input);
    assert DeclaresConfirm(op.args[1], NullableBoolArg);
    RetypedFill(env, input, given);
    ShadowedKeys(env, CONFIRM, NULLABLE, input, given);
    ConfirmedCallRuns(env, op, input, ["confirm"], given);
  }

  lemma AbsentBoolStep(env: Env, a: OperationArg, input: Input)
    requires a.argType == BoolArg && a.defaultText == "" && CamelCase(a.name) == a.name && a.name !in input
    ensures FillArg(env, a, input) == Ok(input[a.name := Bool(false)])
  {
  }

  lemma BoolStep(env: Env, a: OperationArg, input: Input, rest: Input)
    requires a.argType == BoolArg && LookupArg(a, input) == Some(Bool(true))
    requires rest == if CamelCase(a.name) != a.name then DropKey(input, CamelCase(a.name)) else input
    ensures FillArg(env, a, input) == Ok(rest[a.name := Bool(true)])
  {
  }
}
