/** NormalizeOperationInput and its stages (catalog.go), each loop a method proved
    against the function that says what it computes. Go visits the keys of a map in
    an order the runtime picks: `order` is that order for the input map. */
module Normalizer {
  import opened Basics
  import opened Ascii
  import opened Args
  import opened ArgResolution

  const AUTH_TOKEN := "auth_token"
  const REQUEST_STATE := "request_state"

  datatype NormError =
    | MissingArgument(name: string)
    | UnknownArgument(key: string)
    | BadValue(name: string)
    | Ambiguous(group: string)

  predicate IsRequired(a: OperationArg) {
    a.required && a.defaultText == ""
  }

  /** lookupArgInput: the declared name first, then its camelCase alias. */
  function LookupArg(a: OperationArg, input: Input): Option<Value> {
    if a.name in input then Some(input[a.name])
    else if CamelCase(a.name) != a.name then Get(input, CamelCase(a.name))
    else None
  }

  function StateOf(env: Env, a: OperationArg, input: Input): ArgState {
    ResolveArg(env, a, LookupArg(a, input)).state
  }

  function FinalOf(env: Env, a: OperationArg, input: Input): Value {
    FinalValue(env, a, LookupArg(a, input))
  }

  predicate IsMissing(env: Env, a: OperationArg, input: Input) {
    IsRequired(a) && StateOf(env, a, input) in {Absent, Null, Empty}
  }

  function FirstMissing(env: Env, args: seq<OperationArg>, input: Input): Option<OperationArg> {
    if args == [] then None
    else if IsMissing(env, args[0], input) then Some(args[0])
    else FirstMissing(env, args[1..], input)
  }

  /** isDeclaredArgKey. */
  predicate IsArgKey(args: seq<OperationArg>, key: string) {
    exists a :: a in args && (a.name == key || CamelCase(a.name) == key)
  }

  function Names(args: seq<OperationArg>): set<string> {
    set a | a in args :: a.name
  }

  function Aliases(args: seq<OperationArg>): set<string> {
    set a | a in args :: CamelCase(a.name)
  }

  function KnownKeys(args: seq<OperationArg>): set<string> {
    Names(args) + Aliases(args) + {AUTH_TOKEN, REQUEST_STATE}
  }

  /** The first visited key outside `known`, and "" when there is none. */
  function FirstUnknown(known: set<string>, order: seq<string>): string {
    if order == [] then ""
    else if order[0] !in known then order[0]
    else FirstUnknown(known, order[1..])
  }

  /** One turn of the loop in normalizeInputDefaults, on the map it is rewriting. */
  function FillArg(env: Env, a: OperationArg, out: Input): Result<Input, NormError> {
    var raw := LookupArg(a, out);
    var rest := if CamelCase(a.name) != a.name then DropKey(out, CamelCase(a.name)) else out;
    if ResolveArg(env, a, raw).state == Invalid then Err(BadValue(a.name))
    else Ok(rest[a.name := FinalValue(env, a, raw)])
  }

  function Fill(env: Env, args: seq<OperationArg>, out: Input): Result<Input, NormError> {
    if args == [] then Ok(out)
    else
      match FillArg(env, args[0], out)
      case Err(e) => Err(e)
      case Ok(next) => Fill(env, args[1..], next)
  }

  /** selectorMemberSelected. */
  predicate MemberSelected(a: OperationArg, value: Value) {
    match a.argType
    case BoolArg => value == Bool(true)
    case NullableBoolArg => value == BoolPtr(Some(true))
    case NullableIntArg => value.IntPtr? && value.pi.Some?
    case StringSliceArg => value.StrSlice? && value.ss != []
    case _ =>
      match value
      case Str(s) => s != ""
      case Num(kind, n) => kind in {KInt, KInt64} ==> n != 0
      case Float64(f) => f != Finite(0.0)
      case Duration(ns) => ns != 0
      case _ => !value.Nil?
  }

  /** The non-empty selection groups, each at its first appearance. */
  function GroupOrder(args: seq<OperationArg>): (order: seq<string>)
    ensures "" !in order
  {
    if args == [] then []
    else
      var before, last := GroupOrder(args[..|args| - 1]), args[|args| - 1];
      if last.group == "" || last.group in before then before else before + [last.group]
  }

  function Members(args: seq<OperationArg>, g: string): seq<OperationArg> {
    if args == [] then []
    else
      var before, last := Members(args[..|args| - 1], g), args[|args| - 1];
      if last.group == g then before + [last] else before
  }

  function SelectedNames(members: seq<OperationArg>, out: Input): seq<string> {
    if members == [] then []
    else
      var before, last := SelectedNames(members[..|members| - 1], out), members[|members| - 1];
      if MemberSelected(last, GetOrNil(out, last.name)) then before + [last.name] else before
  }

  /** The first group, in order of appearance, with more than one selected member. */
  function AmbiguousGroup(args: seq<OperationArg>, order: seq<string>, out: Input): Option<string> {
    if order == [] then None
    else if |SelectedNames(Members(args, order[0]), out)| > 1 then Some(order[0])
    else AmbiguousGroup(args, order[1..], out)
  }

  function NormalizeDefaults(env: Env, args: seq<OperationArg>, input: Input): Result<Input, NormError> {
    match Fill(env, args, input)
    case Err(e) => Err(e)
    case Ok(out) =>
      match AmbiguousGroup(args, GroupOrder(args), out)
      case Some(g) => Err(Ambiguous(g))
      case None => Ok(out)
  }

  function Normalize(env: Env, args: seq<OperationArg>, input: Input, order: seq<string>): Result<Input, NormError> {
    match FirstMissing(env, args, input)
    case Some(a) => Err(MissingArgument(a.name))
    case None =>
      var key := FirstUnknown(KnownKeys(args), order);
      if key != "" then Err(UnknownArgument(key))
      else
        match NormalizeDefaults(env, args, input)
        case Err(e) => Err(e)
        case Ok(out) => Ok(if IsArgKey(args, REQUEST_STATE) then out else DropKey(out, REQUEST_STATE))
  }

  // ---- the loops ----

  method FirstMissingRequiredArg(env: Env, args: seq<OperationArg>, input: Input) returns (m: Option<OperationArg>)
    ensures m == FirstMissing(env, args, input)
    ensures m.None? <==> forall a :: a in args && IsRequired(a) ==> StateOf(env, a, input) in {Filled, Invalid}
  {
    for i := 0 to |args|
      invariant forall j :: 0 <= j < i ==> !IsMissing(env, args[j], input)
      invariant FirstMissing(env, args[i..], input) == FirstMissing(env, args, input)
    {
      assert args[i..][1..] == args[i + 1..];
      if IsMissing(env, args[i], input) {
        return Some(args[i]);
      }
    }
    return None;
  }

  lemma OneMoreArg(args: seq<OperationArg>, i: nat)
    requires i < |args|
    ensures Names(args[..i + 1]) == Names(args[..i]) + {args[i].name}
    ensures Aliases(args[..i + 1]) == Aliases(args[..i]) + {CamelCase(args[i].name)}
  {
    assert args[..i + 1] == args[..i] + [args[i]];
  }

  /** The set of recognized keys, collected arg by arg. */
  method RecognizedKeys(args: seq<OperationArg>) returns (known: set<string>)
    ensures known == KnownKeys(args)
  {
    known := {};
    for i := 0 to |args|
      invariant known == Names(args[..i]) + Aliases(args[..i])
    {
      OneMoreArg(args, i);
      known := known + {args[i].name};
      if CamelCase(args[i].name) != args[i].name {
        known := known + {CamelCase(args[i].name)};
      }
    }
    assert args[..|args|] == args;
    known := known + {AUTH_TOKEN, REQUEST_STATE};
  }

  method UnknownOperationArg(args: seq<OperationArg>, input: Input, order: seq<string>) returns (key: string)
    requires Enumerates(order, input.Keys)
    ensures key == FirstUnknown(KnownKeys(args), order)
    ensures key != "" ==> key in input && key !in KnownKeys(args)
    ensures input.Keys <= KnownKeys(args) ==> key == ""
  {
    var known := RecognizedKeys(args);
    for i := 0 to |order|
      invariant forall j :: 0 <= j < i ==> order[j] in known
      invariant FirstUnknown(known, order[i..]) == FirstUnknown(known, order)
    {
      assert order[i..][1..] == order[i + 1..];
      if order[i] !in known {
        return order[i];
      }
    }
    return "";
  }

  method IsDeclaredArgKey(args: seq<OperationArg>, key: string) returns (declared: bool)
    ensures declared <==> IsArgKey(args, key)
  {
    for i := 0 to |args|
      invariant forall j :: 0 <= j < i ==> args[j].name != key && CamelCase(args[j].name) != key
    {
      if args[i].name == key || CamelCase(args[i].name) == key {
        return true;
      }
    }
    return false;
  }

  method NormalizeInputDefaults(env: Env, args: seq<OperationArg>, input: Input) returns (r: Result<Input, NormError>)
    ensures r == NormalizeDefaults(env, args, input)
  {
    var out := input;
    for i := 0 to |args|
      invariant Fill(env, args[i..], out) == Fill(env, args, input)
    {
      var a := args[i];
      assert args[i..][0] == a && args[i..][1..] == args[i + 1..];
      var raw := LookupArg(a, out);
      if CamelCase(a.name) != a.name {
        out := DropKey(out, CamelCase(a.name));
      }
      var resolved := ResolveArg(env, a, raw);
      if resolved.state == Invalid {
        return Err(BadValue(a.name));
      }
      if resolved.state == Filled {
        out := out[a.name := resolved.value];
      } else if a.defaultText != "" {
        out := out[a.name := DefaultValue(env, a)];
      } else {
        out := out[a.name := ZeroShape(a.argType)];
      }
    }
    var group := EnforceSelectionGroups(args, out);
    if group.Some? {
      return Err(Ambiguous(group.value));
    }
    return Ok(out);
  }

  lemma GroupOrderStep(args: seq<OperationArg>, i: nat)
    requires i < |args|
    ensures GroupOrder(args[..i + 1]) ==
              if args[i].group == "" || args[i].group in GroupOrder(args[..i]) then GroupOrder(args[..i])
              else GroupOrder(args[..i]) + [args[i].group]
  {
    assert args[..i + 1][..i] == args[..i];
  }

  lemma MembersStep(args: seq<OperationArg>, i: nat, g: string)
    requires i < |args|
    ensures Members(args[..i + 1], g) ==
              if args[i].group == g then Members(args[..i], g) + [args[i]] else Members(args[..i], g)
  {
    assert args[..i + 1][..i] == args[..i];
  }

  lemma {:induction false} NewGroupHasNoMembers(args: seq<OperationArg>, g: string)
    requires g != "" && g !in GroupOrder(args)
    ensures Members(args, g) == []
  {
    if args == [] {
    } else {
      NewGroupHasNoMembers(args[..|args| - 1], g);
    }
  }

  /** The groups with their members, in order of first appearance. */
  method CollectGroups(args: seq<OperationArg>) returns (groups: map<string, seq<OperationArg>>, order: seq<string>)
    ensures order == GroupOrder(args)
    ensures forall g :: g in order ==> g in groups && groups[g] == Members(args, g)
  {
    groups := map[];
    order := [];
    for i := 0 to |args|
      invariant order == GroupOrder(args[..i])
      invariant forall g :: g in groups <==> g in order
      invariant forall g :: g in groups ==> groups[g] == Members(args[..i], g)
    {
      var a := args[i];
      GroupOrderStep(args, i);
      ghost var before := groups;
      if a.group != "" {
        if a.group !in groups {
          NewGroupHasNoMembers(args[..i], a.group);
          order := order + [a.group];
          groups := groups[a.group := [a]];
        } else {
          groups := groups[a.group := groups[a.group] + [a]];
        }
      }
      forall g | g in groups ensures groups[g] == Members(args[..i + 1], g) {
        MembersStep(args, i, g);
        assert g in before || g == a.group;
      }
    }
    assert args[..|args|] == args;
  }

  /** Look through the groups for the first one with two selected members. */
  method EnforceSelectionGroups(args: seq<OperationArg>, out: Input) returns (group: Option<string>)
    ensures group == AmbiguousGroup(args, GroupOrder(args), out)
  {
    var groups, order := CollectGroups(args);
    for k := 0 to |order|
      invariant AmbiguousGroup(args, order[k..], out) == AmbiguousGroup(args, order, out)
    {
      assert order[k..][1..] == order[k + 1..];
      assert order[k] in order;
      var selected := SelectedMembers(groups[order[k]], out);
      if |selected| > 1 {
        return Some(order[k]);
      }
    }
    return None;
  }

  method SelectedMembers(members: seq<OperationArg>, out: Input) returns (selected: seq<string>)
    ensures selected == SelectedNames(members, out)
  {
    selected := [];
    for i := 0 to |members|
      invariant selected == SelectedNames(members[..i], out)
    {
      assert members[..i + 1][..i] == members[..i];
      if MemberSelected(members[i], GetOrNil(out, members[i].name)) {
        selected := selected + [members[i].name];
      }
    }
    assert members[..|members|] == members;
  }

  method NormalizeOperationInput(env: Env, args: seq<OperationArg>, input: Input, order: seq<string>)
    returns (r: Result<Input, NormError>)
    requires Enumerates(order, input.Keys)
    ensures r == Normalize(env, args, input, order)
  {
    var missing := FirstMissingRequiredArg(env, args, input);
    if missing.Some? {
      return Err(MissingArgument(missing.value.name));
    }
    var key := UnknownOperationArg(args, input, order);
    if key != "" {
      return Err(UnknownArgument(key));
    }
    r := NormalizeInputDefaults(env, args, input);
    if r.Ok? {
      var declared := IsDeclaredArgKey(args, REQUEST_STATE);
      if !declared {
        r := Ok(DropKey(r.value, REQUEST_STATE));
      }
    }
  }
}
