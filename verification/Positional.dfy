/** Positional arguments (positional.go): the `<name>` scanner and the right-aligned
    in-place binding into an input map. */
module Positional {
  import opened Basics
  import opened Args
  import opened Accessors

  // ---- the scanner ----

  /** How many characters precede the next '>' (or the end). */
  function NameLength(s: string): (n: nat)
    ensures n <= |s|
    ensures '>' !in s[..n]
    ensures n < |s| ==> s[n] == '>'
  {
    if s == "" || s[0] == '>' then 0
    else
      var rest := NameLength(s[1..]);
      assert s[..1 + rest] == [s[0]] + s[1..][..rest];
      1 + rest
  }

  /** The submatches of `<([^>]+)>`, leftmost first and not overlapping. */
  function PositionalNames(pos: string): (names: seq<string>)
    ensures forall n :: n in names ==> n != "" && '>' !in n
    decreases |pos|
  {
    if pos == "" then []
    else if pos[0] != '<' then PositionalNames(pos[1..])
    else
      var n := NameLength(pos[1..]);
      if n > 0 && n + 1 < |pos| then [pos[1..n + 1]] + PositionalNames(pos[n + 2..])
      else PositionalNames(pos[1..])
  }

  datatype Token = Token(before: string, name: string)

  /** A usage string: each name in angle brackets after some text, then a tail. */
  function Usage(tokens: seq<Token>, tail: string): string {
    if tokens == [] then tail
    else tokens[0].before + ("<" + (tokens[0].name + (">" + Usage(tokens[1..], tail))))
  }

  function TokenNames(tokens: seq<Token>): seq<string> {
    if tokens == [] then [] else [tokens[0].name] + TokenNames(tokens[1..])
  }

  lemma {:induction false} SkipText(before: string, rest: string)
    requires '<' !in before
    ensures PositionalNames(before + rest) == PositionalNames(rest)
  {
    if before == "" {
      assert before + rest == rest;
    } else {
      assert (before + rest)[1..] == before[1..] + rest;
      SkipText(before[1..], rest);
    }
  }

  lemma {:induction false} NameEndsAtBracket(name: string, rest: string)
    requires '>' !in name
    ensures NameLength(name + (">" + rest)) == |name|
  {
    if name == "" {
      assert name + (">" + rest) == ">" + rest;
    } else {
      assert (name + (">" + rest))[1..] == name[1..] + (">" + rest);
      NameEndsAtBracket(name[1..], rest);
    }
  }

  lemma {:induction false} TokenScans(name: string, rest: string)
    requires name != "" && '>' !in name
    ensures PositionalNames("<" + (name + (">" + rest))) == [name] + PositionalNames(rest)
  {
    var pos := "<" + (name + (">" + rest));
    NameEndsAtBracket(name, rest);
    assert pos[1..] == name + (">" + rest);
    assert pos[1..|name| + 1] == name;
    assert pos[|name| + 2..] == rest;
  }

  /** Scanning a usage string returns the names it was written with. */
  lemma {:induction false} UsageScansBack(tokens: seq<Token>, tail: string)
    requires forall t :: t in tokens ==> '<' !in t.before && t.name != "" && '>' !in t.name
    requires '<' !in tail
    ensures PositionalNames(Usage(tokens, tail)) == TokenNames(tokens)
  {
    if tokens == [] {
      SkipText(tail, "");
      assert tail + "" == tail;
    } else {
      var t := tokens[0];
      UsageScansBack(tokens[1..], tail);
      SkipText(t.before, "<" + (t.name + (">" + Usage(tokens[1..], tail))));
      TokenScans(t.name, Usage(tokens[1..], tail));
    }
  }

  /** Empty brackets open no name, and without a closing bracket there is none. */
  lemma {:induction false} NoNameScans(s: string)
    ensures PositionalNames("<" + (">" + s)) == PositionalNames(s)
    ensures '>' !in s ==> PositionalNames(s) == []
  {
    var pos := "<" + (">" + s);
    assert pos[1..] == ">" + s && (">" + s)[1..] == s;
    if s != "" {
      NoNameScans(s[1..]);
    }
  }

  // ---- the binding ----

  /** resolvePositionalArgName: the arg of that name, else the first string arg, else
      the slot itself. */
  function ResolveSlot(args: seq<OperationArg>, slot: string): string {
    if exists a :: a in args && a.name == slot then slot
    else FirstStringArg(args, slot)
  }

  function FirstStringArg(args: seq<OperationArg>, slot: string): string {
    if args == [] then slot
    else if args[0].argType == StringArg then args[0].name
    else FirstStringArg(args[1..], slot)
  }

  predicate FirstStringAt(args: seq<OperationArg>, i: nat) {
    i < |args| && args[i].argType == StringArg && forall j :: 0 <= j < i ==> args[j].argType != StringArg
  }

  /** A slot that names no arg lands on the first string arg, and on its own name only
      when there is none. */
  lemma {:induction false} SlotFallsBack(args: seq<OperationArg>, slot: string)
    ensures (exists i: nat :: FirstStringAt(args, i) && FirstStringArg(args, slot) == args[i].name)
         || (FirstStringArg(args, slot) == slot && forall a :: a in args ==> a.argType != StringArg)
  {
    if args != [] && args[0].argType != StringArg {
      var rest := args[1..];
      SlotFallsBack(rest, slot);
      assert forall j :: 0 <= j < |rest| ==> rest[j] == args[j + 1];
      if i: nat :| FirstStringAt(rest, i) {
        forall j | 0 <= j < i + 1 ensures args[j].argType != StringArg {
          assert j == 0 || args[j] == rest[j - 1];
        }
        assert FirstStringAt(args, i + 1);
      }
    } else if args != [] {
      assert FirstStringAt(args, 0);
    }
  }

  /** The args the slots resolve to. */
  function SlotTargets(args: seq<OperationArg>, slots: seq<string>): (targets: seq<string>)
    ensures |targets| == |slots|
    ensures forall i :: 0 <= i < |slots| ==> targets[i] == ResolveSlot(args, slots[i])
  {
    seq(|slots|, i requires 0 <= i < |slots| => ResolveSlot(args, slots[i]))
  }

  /** Target `k` is free: not one of the earlier ones and not already filled. */
  predicate FreeAt(targets: seq<string>, input: Input, k: nat)
    requires k < |targets|
  {
    targets[k] !in targets[..k] && StrArg(input, targets[k], "") == ""
  }

  /** The first target that is not free, or their number. */
  function FirstConflict(targets: seq<string>, input: Input, from: nat): (k: nat)
    requires from <= |targets|
    ensures from <= k <= |targets|
    decreases |targets| - from
  {
    if from == |targets| || !FreeAt(targets, input, from) then from
    else FirstConflict(targets, input, from + 1)
  }

  /** Everything before the first conflict is free, and what stands there is not. */
  lemma {:induction false} ConflictMeaning(targets: seq<string>, input: Input, from: nat)
    requires from <= |targets|
    ensures var k := FirstConflict(targets, input, from);
            && (forall j :: from <= j < k ==> FreeAt(targets, input, j))
            && (k < |targets| ==> !FreeAt(targets, input, k))
    decreases |targets| - from
  {
    if from < |targets| && FreeAt(targets, input, from) {
      ConflictMeaning(targets, input, from + 1);
    }
  }

  function Bound(input: Input, targets: seq<string>, supplied: seq<string>, k: nat): Input
    requires k <= |targets| && k <= |supplied|
  {
    if k == 0 then input else Bound(input, targets, supplied, k - 1)[targets[k - 1] := Str(supplied[k - 1])]
  }

  /** While targets are free, binding `k` of them sets exactly those keys, in order. */
  lemma {:induction false} BoundMeaning(input: Input, targets: seq<string>, supplied: seq<string>, k: nat)
    requires k <= |targets| && k <= |supplied|
    requires forall j :: 0 <= j < k ==> FreeAt(targets, input, j)
    ensures forall j :: 0 <= j < k ==> Get(Bound(input, targets, supplied, k), targets[j]) == Some(Str(supplied[j]))
    ensures forall key :: key !in targets[..k] ==> Get(Bound(input, targets, supplied, k), key) == Get(input, key)
  {
    if k == 0 {
    } else {
      BoundMeaning(input, targets, supplied, k - 1);
      assert targets[..k] == targets[..k - 1] + [targets[k - 1]];
      forall j | 0 <= j < k - 1 ensures targets[j] != targets[k - 1] {
        assert targets[j] in targets[..k - 1];
        assert FreeAt(targets, input, k - 1);
      }
    }
  }

  datatype MapError = ExtraArgument(value: string) | SlotTaken(slot: string) | GivenTwice(name: string)

  /** A Go map handed over by reference. */
  class InputMap {
    var m: Input

    constructor (m: Input)
      ensures this.m == m
    {
      this.m := m;
    }
  }

  /** What binding `supplied` to the slots, resolved to `targets`, leaves behind and reports. */
  ghost predicate Bindings(slots: seq<string>, targets: seq<string>, supplied: seq<string>,
                           before: Input, after: Input, error: Option<MapError>)
    requires |supplied| == |slots| == |targets|
  {
    var k := FirstConflict(targets, before, 0);
    && after == Bound(before, targets, supplied, k)
    && (error.None? <==> k == |slots|)
    && (k < |slots| ==>
          error == Some(if targets[k] in targets[..k] then SlotTaken(slots[k]) else GivenTwice(targets[k])))
  }

  /** The key a slot drives: its own name when an arg is declared under it, else the name of
      the first string arg, else its own name. */
  ghost predicate Drives(args: seq<OperationArg>, slot: string, key: string) {
    && ((exists a :: a in args && a.name == slot) ==> key == slot)
    && ((forall a :: a in args ==> a.name != slot) ==>
          && (forall i: nat :: FirstStringAt(args, i) ==> key == args[i].name)
          && ((forall a :: a in args ==> a.argType != StringArg) ==> key == slot))
  }

  lemma {:induction false} ResolvedDrives(args: seq<OperationArg>, slot: string)
    ensures Drives(args, slot, ResolveSlot(args, slot))
    ensures forall key :: Drives(args, slot, key) ==> key == ResolveSlot(args, slot)
  {
    SlotFallsBack(args, slot);
    forall i: nat, j: nat | FirstStringAt(args, i) && FirstStringAt(args, j) ensures i == j {
    }
    assert forall i: nat :: FirstStringAt(args, i) ==> args[i] in args;
  }

  /** After a success each slot's value stands under the key the slot drives, and no other key
      has changed. */
  ghost predicate ValuesPlaced(args: seq<OperationArg>, slots: seq<string>, supplied: seq<string>, before: Input,
                               after: Input)
    requires |slots| == |supplied|
  {
    && (forall i, key :: 0 <= i < |slots| && Drives(args, slots[i], key) ==> Get(after, key) == Some(Str(supplied[i])))
    && (forall key :: (forall i :: 0 <= i < |slots| ==> !Drives(args, slots[i], key)) ==>
          Get(after, key) == Get(before, key))
  }

  lemma {:induction false} BindingsPlace(args: seq<OperationArg>, slots: seq<string>, supplied: seq<string>,
                                         before: Input, after: Input, error: Option<MapError>)
    requires |slots| == |supplied|
    requires Bindings(slots, SlotTargets(args, slots), supplied, before, after, error)
    ensures error.None? ==> ValuesPlaced(args, slots, supplied, before, after)
  {
    var targets := SlotTargets(args, slots);
    BindingIsSafe(before, targets, supplied);
    if error.None? {
      assert targets[..|slots|] == targets;
      forall i, key | 0 <= i < |slots| && Drives(args, slots[i], key)
        ensures Get(after, key) == Some(Str(supplied[i]))
      {
        ResolvedDrives(args, slots[i]);
      }
      forall key | forall i :: 0 <= i < |slots| ==> !Drives(args, slots[i], key)
        ensures Get(after, key) == Get(before, key)
      {
        if key in targets {
          var i :| 0 <= i < |targets| && targets[i] == key;
          ResolvedDrives(args, slots[i]);
        }
      }
    }
  }

  /** Slots that name different declared args none of which was given as text always bind. */
  lemma {:induction false} NamedSlotsBind(args: seq<OperationArg>, slots: seq<string>, supplied: seq<string>,
                                          before: Input, after: Input, error: Option<MapError>)
    requires |slots| == |supplied|
    requires Bindings(slots, SlotTargets(args, slots), supplied, before, after, error)
    requires forall i :: 0 <= i < |slots| ==> exists a :: a in args && a.name == slots[i]
    requires forall i, j :: 0 <= i < j < |slots| ==> slots[i] != slots[j]
    requires forall i :: 0 <= i < |slots| ==> Get(before, slots[i]) in {None, Some(Str(""))}
    ensures error == None
    ensures forall i :: 0 <= i < |slots| ==> Get(after, slots[i]) == Some(Str(supplied[i]))
  {
    var targets := SlotTargets(args, slots);
    forall i | 0 <= i < |slots| ensures targets[i] == slots[i] && Drives(args, slots[i], slots[i]) {
      ResolvedDrives(args, slots[i]);
    }
    BindingSucceedsExactly(before, targets);
    BindingsPlace(args, slots, supplied, before, after, error);
  }

  /** MapPositionalArgs writes into the caller's map slot by slot and stops at the first
      conflict. The outcome is decided by the map as it was on entry, although the loop
      tests the map it is writing to. */
  method MapPositionalArgs(args: seq<OperationArg>, pos: string, supplied: seq<string>, input: InputMap)
    returns (error: Option<MapError>)
    modifies input
    ensures var names, n := PositionalNames(pos), |supplied|;
            if names == [] || n == 0 then error == None && input.m == old(input.m)
            else if n > |names| then error == Some(ExtraArgument(supplied[|names|])) && input.m == old(input.m)
            else
              var slots := names[|names| - n..];
              && Bindings(slots, SlotTargets(args, slots), supplied, old(input.m), input.m, error)
              && (error.None? ==> ValuesPlaced(args, slots, supplied, old(input.m), input.m))
  {
    var names := PositionalNames(pos);
    var n := |supplied|;
    if |names| == 0 || n == 0 {
      return None;
    }
    if n > |names| {
      return Some(ExtraArgument(supplied[|names|]));
    }
    var slots := names[|names| - n..];
    error := BindSlots(args, slots, supplied, input);
  }

  /** The binding loop, over the slots that are left after right alignment. */
  method BindSlots(args: seq<OperationArg>, slots: seq<string>, supplied: seq<string>, input: InputMap)
    returns (error: Option<MapError>)
    requires |supplied| == |slots|
    modifies input
    ensures Bindings(slots, SlotTargets(args, slots), supplied, old(input.m), input.m, error)
    ensures error.None? ==> ValuesPlaced(args, slots, supplied, old(input.m), input.m)
  {
    var bound: set<string> := {};
    ghost var targets := SlotTargets(args, slots);
    ghost var before := input.m;
    for i := 0 to |slots|
      invariant i <= FirstConflict(targets, before, 0)
      invariant bound == Taken(targets, i)
      invariant input.m == Bound(before, targets, supplied, i)
    {
      var argName := ResolveSlot(args, slots[i]);
      BindTurn(before, slots, targets, supplied, i);
      error := BindSlot(slots[i], argName, supplied[i], bound, input);
      if error.Some? {
        BindingsHold(slots, targets, supplied, before, i, error);
        return;
      }
      bound := bound + {argName};
    }
    BindingsHold(slots, targets, supplied, before, |slots|, None);
    BindingsPlace(args, slots, supplied, before, input.m, None);
    return None;
  }

  function SlotError(slot: string, argName: string, bound: set<string>, m: Input): Option<MapError> {
    if argName in bound then Some(SlotTaken(slot))
    else if StrArg(m, argName, "") != "" then Some(GivenTwice(argName))
    else None
  }

  /** One slot: refused when its arg is already bound or already given, else written. */
  method BindSlot(slot: string, argName: string, value: string, bound: set<string>, input: InputMap)
    returns (error: Option<MapError>)
    modifies input
    ensures error == SlotError(slot, argName, bound, old(input.m))
    ensures input.m == if error.None? then old(input.m)[argName := Str(value)] else old(input.m)
  {
    if argName in bound {
      return Some(SlotTaken(slot));
    }
    if StrArg(input.m, argName, "") != "" {
      return Some(GivenTwice(argName));
    }
    input.m := input.m[argName := Str(value)];
    return None;
  }

  /** The first `k` targets as a set. */
  function Taken(targets: seq<string>, k: nat): set<string>
    requires k <= |targets|
  {
    if k == 0 then {} else Taken(targets, k - 1) + {targets[k - 1]}
  }

  lemma {:induction false} TakenMeaning(targets: seq<string>, k: nat, t: string)
    requires k <= |targets|
    ensures t in Taken(targets, k) <==> t in targets[..k]
  {
    if k == 0 {
    } else {
      TakenMeaning(targets, k - 1, t);
      assert targets[..k] == targets[..k - 1] + [targets[k - 1]];
    }
  }

  /** What is left behind when the loop ends at slot `k`. */
  lemma BindingsHold(slots: seq<string>, targets: seq<string>, supplied: seq<string>, before: Input, k: nat,
                     error: Option<MapError>)
    requires |supplied| == |slots| == |targets| && k <= |slots|
    requires k == FirstConflict(targets, before, 0)
    requires if k == |slots| then error == None
             else error == Some(if targets[k] in targets[..k] then SlotTaken(slots[k]) else GivenTwice(targets[k]))
    ensures Bindings(slots, targets, supplied, before, Bound(before, targets, supplied, k), error)
  {
  }

  /** One turn: testing the written map is testing the original one. */
  lemma BindStep(input: Input, targets: seq<string>, supplied: seq<string>, k: nat)
    requires |targets| == |supplied| && k < |targets| && k <= FirstConflict(targets, input, 0)
    ensures targets[k] !in targets[..k] ==>
              StrArg(Bound(input, targets, supplied, k), targets[k], "") == StrArg(input, targets[k], "")
    ensures FreeAt(targets, input, k) <==> k < FirstConflict(targets, input, 0)
    ensures targets[k] in Taken(targets, k) <==> targets[k] in targets[..k]
  {
    ConflictMeaning(targets, input, 0);
    BoundMeaning(input, targets, supplied, k);
    TakenMeaning(targets, k, targets[k]);
    if targets[k] !in targets[..k] {
      assert Get(Bound(input, targets, supplied, k), targets[k]) == Get(input, targets[k]);
    }
  }

  /** The loop up to slot `k` and what its turn does. */
  lemma BindTurn(input: Input, slots: seq<string>, targets: seq<string>, supplied: seq<string>, k: nat)
    requires |targets| == |supplied| == |slots| && k < |targets| && k <= FirstConflict(targets, input, 0)
    ensures var error := SlotError(slots[k], targets[k], Taken(targets, k), Bound(input, targets, supplied, k));
            if error.None? then k + 1 <= FirstConflict(targets, input, 0)
            else
              && k == FirstConflict(targets, input, 0)
              && error == Some(if targets[k] in targets[..k] then SlotTaken(slots[k]) else GivenTwice(targets[k]))
    ensures Bound(input, targets, supplied, k + 1) == Bound(input, targets, supplied, k)[targets[k] := Str(supplied[k])]
    ensures Taken(targets, k + 1) == Taken(targets, k) + {targets[k]}
  {
    BindStep(input, targets, supplied, k);
  }

  lemma FreeTargetsDistinct(targets: seq<string>, input: Input, k: nat)
    requires k <= |targets| && forall j :: 0 <= j < k ==> FreeAt(targets, input, j)
    ensures forall i, j :: 0 <= i < j < k ==> targets[i] != targets[j]
    ensures forall t :: t in targets[..k] ==> StrArg(input, t, "") == ""
  {
    forall i, j | 0 <= i < j < k ensures targets[i] != targets[j] {
      assert FreeAt(targets, input, j);
      assert targets[..j][i] in targets[..j];
    }
    forall t | t in targets[..k] ensures StrArg(input, t, "") == "" {
      var j :| 0 <= j < k && targets[..k][j] == t;
      assert FreeAt(targets, input, j);
    }
  }

  /** What that means for a caller: in every case the keys that changed are those of
      the bound slots, pairwise distinct and set in order, and none of them held a
      non-empty string. */
  lemma BindingIsSafe(input: Input, targets: seq<string>, supplied: seq<string>)
    requires |targets| == |supplied|
    ensures var k := FirstConflict(targets, input, 0);
            var out := Bound(input, targets, supplied, k);
            && (forall i, j :: 0 <= i < j < k ==> targets[i] != targets[j])
            && (forall j :: 0 <= j < k ==> Get(out, targets[j]) == Some(Str(supplied[j])))
            && (forall key :: key !in targets[..k] ==> Get(out, key) == Get(input, key))
            && (forall key :: StrArg(input, key, "") != "" ==> Get(out, key) == Get(input, key))
  {
    var k := FirstConflict(targets, input, 0);
    ConflictMeaning(targets, input, 0);
    BoundMeaning(input, targets, supplied, k);
    FreeTargetsDistinct(targets, input, k);
  }

  /** The binding succeeds exactly when the slots name different args, none of them
      already given. */
  lemma BindingSucceedsExactly(input: Input, targets: seq<string>)
    ensures FirstConflict(targets, input, 0) == |targets| <==>
              && (forall i, j :: 0 <= i < j < |targets| ==> targets[i] != targets[j])
              && (forall t :: t in targets ==> StrArg(input, t, "") == "")
  {
    var k := FirstConflict(targets, input, 0);
    ConflictMeaning(targets, input, 0);
    FreeTargetsDistinct(targets, input, k);
    assert targets[..|targets|] == targets;
    if k < |targets| {
      assert !FreeAt(targets, input, k);
      assert targets[k] in targets;
      if targets[k] in targets[..k] {
        var i :| 0 <= i < k && targets[..k][i] == targets[k];
        assert targets[i] == targets[k];
      }
    }
  }
}
