/** What normalization means as a whole: when it accepts, what it returns, and the
    laws that follow: order independence, closed and typed output, convergence of
    frontends, idempotence. */
module NormalizerLaws {
  import opened Basics
  import opened Ascii
  import opened Args
  import opened ArgResolution
  import opened ArgLaws
  import opened Normalizer

  /** Two args that share neither a declared name nor an alias. */
  predicate Apart(a: OperationArg, b: OperationArg) {
    && a.name != b.name
    && a.name != CamelCase(b.name)
    && CamelCase(a.name) != b.name
    && CamelCase(a.name) != CamelCase(b.name)
  }

  /** Registration does not check this. The laws below assume it; CollisionLaws says what
      happens without. */
  predicate WellFormed(args: seq<OperationArg>) {
    forall i, j :: 0 <= i < j < |args| ==> Apart(args[i], args[j])
  }

  predicate DistinctNames(args: seq<OperationArg>) {
    forall i, j :: 0 <= i < j < |args| ==> args[i].name != args[j].name
  }

  lemma WellFormedDistinct(args: seq<OperationArg>)
    requires WellFormed(args)
    ensures DistinctNames(args)
  {
    forall i, j | 0 <= i < j < |args| ensures args[i].name != args[j].name {
      assert Apart(args[i], args[j]);
    }
  }

  predicate Registrable(env: Env, args: seq<OperationArg>) {
    forall a :: a in args ==> RegistrableArg(env, a)
  }

  // ---- the declarative meaning ----

  predicate BothSelected(env: Env, a: OperationArg, b: OperationArg, input: Input) {
    && a.group != "" && a.group == b.group
    && MemberSelected(a, FinalOf(env, a, input))
    && MemberSelected(b, FinalOf(env, b, input))
  }

  /** Every mandatory arg is filled, nothing present is malformed, and no selection
      group has two selected members once defaults are in. */
  ghost predicate Acceptable(env: Env, args: seq<OperationArg>, input: Input) {
    && (forall a :: a in args && IsRequired(a) ==> StateOf(env, a, input) == Filled)
    && (forall a :: a in args ==> StateOf(env, a, input) != Invalid)
    && (forall i, j :: 0 <= i < j < |args| ==> !BothSelected(env, args[i], args[j], input))
  }

  /** Input keys that are neither declared, nor an alias, nor reserved. */
  function Stray(args: seq<OperationArg>, input: Input): set<string> {
    input.Keys - KnownKeys(args)
  }

  /** Keys that pass through untouched: not an arg key and not the stripped one. */
  function PassedKeys(args: seq<OperationArg>, input: Input): set<string> {
    set k | k in input.Keys && !IsArgKey(args, k) && k != REQUEST_STATE
  }

  /** `out` holds the final value of every arg under its declared name, no alias and
      no stripped key, and otherwise what the input held. */
  ghost predicate IsNormalized(env: Env, args: seq<OperationArg>, input: Input, out: Input) {
    && (forall a :: a in args ==> Get(out, a.name) == Some(FinalOf(env, a, input)))
    && (forall k :: k !in Names(args) ==>
          Get(out, k) == if IsArgKey(args, k) || k == REQUEST_STATE then None else Get(input, k))
  }

  lemma SameLookupsSameMap(x: Input, y: Input)
    requires forall k :: Get(x, k) == Get(y, k)
    ensures x == y
  {
    forall k ensures k in x <==> k in y {
      assert Get(x, k) == Get(y, k);
    }
    assert x.Keys == y.Keys;
    forall k | k in x ensures x[k] == y[k] {
      assert Get(x, k) == Get(y, k);
    }
  }

  /** The description has one model: it is a function of the input. */
  lemma NormalizedUnique(env: Env, args: seq<OperationArg>, input: Input, x: Input, y: Input)
    requires IsNormalized(env, args, input, x) && IsNormalized(env, args, input, y)
    ensures x == y
  {
    forall k ensures Get(x, k) == Get(y, k) {
      if k in Names(args) {
        var a :| a in args && a.name == k;
        assert Get(x, a.name) == Get(y, a.name);
      }
    }
    SameLookupsSameMap(x, y);
  }

  lemma ApartMembers(args: seq<OperationArg>, a: OperationArg, b: OperationArg)
    requires WellFormed(args) && a in args && b in args && a != b
    ensures Apart(a, b)
  {
    var i :| 0 <= i < |args| && args[i] == a;
    var j :| 0 <= j < |args| && args[j] == b;
    assert if i < j then Apart(args[i], args[j]) else Apart(args[j], args[i]);
  }

  lemma SameNameSameArg(args: seq<OperationArg>, a: OperationArg, b: OperationArg)
    requires WellFormed(args) && a in args && b in args
    requires a.name == b.name || CamelCase(a.name) == b.name || CamelCase(a.name) == CamelCase(b.name)
    ensures a == b
  {
    if a != b {
      ApartMembers(args, a, b);
    }
  }

  // ---- the loop reads the map it rewrites ----

  /** `k` is neither name nor alias of the first `i` args. */
  ghost predicate Elsewhere(args: seq<OperationArg>, i: nat, k: string)
    requires i <= |args|
  {
    forall j :: 0 <= j < i ==> args[j].name != k && CamelCase(args[j].name) != k
  }

  /** After the first `i` args: theirs hold the given values, their aliases are gone, and
      every key that is none of theirs is still as in the input. */
  ghost predicate Rewritten(args: seq<OperationArg>, values: seq<Value>, i: nat, input: Input, out: Input)
    requires i <= |args| == |values|
  {
    && (forall j :: 0 <= j < i ==> Get(out, args[j].name) == Some(values[j]))
    && (forall j :: 0 <= j < i && CamelCase(args[j].name) != args[j].name ==> Get(out, CamelCase(args[j].name)) == None)
    && (forall k :: Elsewhere(args, i, k) ==> Get(out, k) == Get(input, k))
  }

  ghost function Finals(env: Env, args: seq<OperationArg>, input: Input): (values: seq<Value>)
    ensures |values| == |args|
    ensures forall j :: 0 <= j < |args| ==> values[j] == FinalOf(env, args[j], input)
  {
    seq(|args|, j requires 0 <= j < |args| => FinalOf(env, args[j], input))
  }

  ghost predicate FilledUpTo(env: Env, args: seq<OperationArg>, i: nat, input: Input, out: Input)
    requires i <= |args|
  {
    Rewritten(args, Finals(env, args, input), i, input, out)
  }

  /** Non-interference: a turn for one arg sees the input as it was. */
  lemma LookupUnchanged(env: Env, args: seq<OperationArg>, i: nat, input: Input, out: Input)
    requires WellFormed(args) && i < |args|
    requires FilledUpTo(env, args, i, input, out)
    ensures LookupArg(args[i], out) == LookupArg(args[i], input)
  {
    forall j | 0 <= j < i ensures Apart(args[j], args[i]) {}
    assert Elsewhere(args, i, args[i].name) && Elsewhere(args, i, CamelCase(args[i].name));
  }

  /** What one turn does to each key, for args apart from one another. */
  lemma FillArgKeys(env: Env, a: OperationArg, out: Input, key: string)
    requires FillArg(env, a, out).Ok?
    ensures Get(FillArg(env, a, out).value, key) ==
              if key == a.name then Some(FinalValue(env, a, LookupArg(a, out)))
              else if key == CamelCase(a.name) then None
              else Get(out, key)
  {
  }

  lemma RewrittenExtends(args: seq<OperationArg>, values: seq<Value>, i: nat, input: Input, out: Input, next: Input)
    requires WellFormed(args) && i < |args| == |values|
    requires Rewritten(args, values, i, input, out)
    requires forall key :: Get(next, key) ==
               if key == args[i].name then Some(values[i])
               else if key == CamelCase(args[i].name) then None
               else Get(out, key)
    ensures Rewritten(args, values, i + 1, input, next)
  {
    forall j | 0 <= j < i ensures Apart(args[j], args[i]) {}
    forall k | Elsewhere(args, i + 1, k) ensures Get(next, k) == Get(input, k) {
      assert args[i].name != k && CamelCase(args[i].name) != k;
      assert Elsewhere(args, i, k);
    }
  }

  lemma FillArgExtends(env: Env, args: seq<OperationArg>, i: nat, input: Input, out: Input)
    requires WellFormed(args) && i < |args|
    requires FilledUpTo(env, args, i, input, out)
    ensures StateOf(env, args[i], input) == Invalid ==> FillArg(env, args[i], out) == Err(BadValue(args[i].name))
    ensures StateOf(env, args[i], input) != Invalid ==>
              && FillArg(env, args[i], out).Ok?
              && FilledUpTo(env, args, i + 1, input, FillArg(env, args[i], out).value)
  {
    LookupUnchanged(env, args, i, input, out);
    if StateOf(env, args[i], input) != Invalid {
      var next := FillArg(env, args[i], out).value;
      forall key ensures Get(next, key) ==
                           if key == args[i].name then Some(FinalOf(env, args[i], input))
                           else if key == CamelCase(args[i].name) then None
                           else Get(out, key) {
        FillArgKeys(env, args[i], out, key);
      }
      RewrittenExtends(args, Finals(env, args, input), i, input, out, next);
    }
  }

  /** No arg from `i` on is malformed in the input. */
  predicate SoundFrom(env: Env, args: seq<OperationArg>, i: nat, input: Input)
    requires i <= |args|
    decreases |args| - i
  {
    i == |args| || (StateOf(env, args[i], input) != Invalid && SoundFrom(env, args, i + 1, input))
  }

  lemma {:induction false} SoundFromExact(env: Env, args: seq<OperationArg>, i: nat, input: Input)
    requires i <= |args|
    ensures SoundFrom(env, args, i, input) <==> forall j :: i <= j < |args| ==> StateOf(env, args[j], input) != Invalid
    decreases |args| - i
  {
    if i == |args| {
    } else {
      SoundFromExact(env, args, i + 1, input);
    }
  }

  /** The whole loop: it fails exactly when some arg is malformed in the input, and
      otherwise has made every arg final. */
  lemma {:induction false} FillMeaning(env: Env, args: seq<OperationArg>, i: nat, input: Input, out: Input)
    requires WellFormed(args) && i <= |args|
    requires FilledUpTo(env, args, i, input, out)
    ensures Fill(env, args[i..], out).Ok? <==> SoundFrom(env, args, i, input)
    ensures Fill(env, args[i..], out).Ok? ==> FilledUpTo(env, args, |args|, input, Fill(env, args[i..], out).value)
    decreases |args| - i
  {
    if i == |args| {
    } else {
      assert args[i..][0] == args[i] && args[i..][1..] == args[i + 1..];
      FillArgExtends(env, args, i, input, out);
      if StateOf(env, args[i], input) != Invalid {
        FillMeaning(env, args, i + 1, input, FillArg(env, args[i], out).value);
      }
    }
  }

  // ---- selection groups ----

  lemma {:induction false} GroupOrderHolds(args: seq<OperationArg>, g: string)
    ensures g in GroupOrder(args) <==> g != "" && exists i :: 0 <= i < |args| && args[i].group == g
  {
    if args == [] {
    } else {
      GroupOrderHolds(args[..|args| - 1], g);
      assert forall i :: 0 <= i < |args| - 1 ==> args[..|args| - 1][i] == args[i];
    }
  }

  predicate SelectedAt(args: seq<OperationArg>, i: nat, g: string, out: Input)
    requires i < |args|
  {
    args[i].group == g && MemberSelected(args[i], GetOrNil(out, args[i].name))
  }

  function SelectedInGroup(args: seq<OperationArg>, g: string, out: Input): nat {
    |SelectedNames(Members(args, g), out)|
  }

  lemma SelectedInGroupStep(args: seq<OperationArg>, g: string, out: Input)
    requires args != []
    ensures var n := |args| - 1;
            SelectedInGroup(args, g, out) ==
              SelectedInGroup(args[..n], g, out) + if SelectedAt(args, n, g, out) then 1 else 0
  {
    var n := |args| - 1;
    var m := Members(args[..n], g);
    if args[n].group == g {
      assert (m + [args[n]])[..|m|] == m;
    }
  }

  lemma SelectedInPrefix(args: seq<OperationArg>, n: nat, g: string, out: Input)
    requires n <= |args|
    ensures forall i :: 0 <= i < n ==> (SelectedAt(args[..n], i, g, out) <==> SelectedAt(args, i, g, out))
  {
  }

  /** Counting selected members: some, and more than one. */
  lemma {:induction false} SomeSelected(args: seq<OperationArg>, g: string, out: Input)
    ensures SelectedInGroup(args, g, out) > 0 <==> exists i :: 0 <= i < |args| && SelectedAt(args, i, g, out)
  {
    if args == [] {
    } else {
      var n := |args| - 1;
      SomeSelected(args[..n], g, out);
      SelectedInGroupStep(args, g, out);
      SelectedInPrefix(args, n, g, out);
      if i :| 0 <= i < n && SelectedAt(args[..n], i, g, out) {
        assert SelectedAt(args, i, g, out);
      }
    }
  }

  ghost predicate TwoSelected(args: seq<OperationArg>, g: string, out: Input) {
    exists i, j :: 0 <= i < j < |args| && SelectedAt(args, i, g, out) && SelectedAt(args, j, g, out)
  }

  /** Two selected members: both in the prefix, or one there and the last. */
  lemma TwoSelectedStep(args: seq<OperationArg>, g: string, out: Input)
    requires args != []
    ensures var n := |args| - 1;
            TwoSelected(args, g, out) <==>
              || TwoSelected(args[..n], g, out)
              || (SelectedAt(args, n, g, out) && exists i :: 0 <= i < n && SelectedAt(args[..n], i, g, out))
  {
    var n := |args| - 1;
    SelectedInPrefix(args, n, g, out);
    if TwoSelected(args[..n], g, out) {
      var i, j :| 0 <= i < j < n && SelectedAt(args[..n], i, g, out) && SelectedAt(args[..n], j, g, out);
      assert SelectedAt(args, i, g, out) && SelectedAt(args, j, g, out);
    }
    if TwoSelected(args, g, out) {
      var i, j :| 0 <= i < j < |args| && SelectedAt(args, i, g, out) && SelectedAt(args, j, g, out);
      assert SelectedAt(args[..n], i, g, out);
      if j < n {
        assert SelectedAt(args[..n], j, g, out);
      }
    }
    if i :| 0 <= i < n && SelectedAt(args[..n], i, g, out) {
      assert SelectedAt(args, i, g, out);
    }
  }

  lemma {:induction false} ManySelected(args: seq<OperationArg>, g: string, out: Input)
    ensures SelectedInGroup(args, g, out) > 1 <==> TwoSelected(args, g, out)
  {
    if args == [] {
    } else {
      var before := args[..|args| - 1];
      ManySelected(before, g, out);
      SomeSelected(before, g, out);
      SelectedInGroupStep(args, g, out);
      TwoSelectedStep(args, g, out);
    }
  }

  lemma {:induction false} AmbiguousMeaning(args: seq<OperationArg>, order: seq<string>, out: Input)
    ensures AmbiguousGroup(args, order, out).None? <==> forall g :: g in order ==> SelectedInGroup(args, g, out) <= 1
  {
    if order == [] {
    } else {
      AmbiguousMeaning(args, order[1..], out);
      assert order[0] in order;
      assert forall g :: g in order <==> g == order[0] || g in order[1..];
    }
  }

  /** The gate passes exactly when no two args of one group are both selected. */
  lemma SelectionGateExact(args: seq<OperationArg>, out: Input)
    ensures AmbiguousGroup(args, GroupOrder(args), out).None? <==> forall g :: g != "" ==> !TwoSelected(args, g, out)
  {
    AmbiguousMeaning(args, GroupOrder(args), out);
    forall g
      ensures g in GroupOrder(args) && SelectedInGroup(args, g, out) > 1 <==> g != "" && TwoSelected(args, g, out)
    {
      GroupOrderHolds(args, g);
      ManySelected(args, g, out);
    }
  }

  /** A typed value counts as selected exactly when it is not the zero of its type; a
      nullable bool only when it is true, so an explicit 0 of a nullable int is a choice
      and an explicit false is not. */
  lemma SelectedMeansNonZero(a: OperationArg, v: Value)
    requires HasShape(a.argType, v) && a.argType != RawJSONArg
    ensures MemberSelected(a, v) <==>
              if a.argType == NullableBoolArg then v == BoolPtr(Some(true)) else v != ZeroShape(a.argType)
  {
  }

  /** A raw JSON value is a selection unless it is null or the empty text or number. */
  lemma RawSelection(a: OperationArg, v: Value)
    requires a.argType == RawJSONArg
    ensures MemberSelected(a, v) <==>
              v !in {Nil, Str(""), Num(KInt, 0), Num(KInt64, 0), Float64(Finite(0.0)), Duration(0)}
  {
  }

  /** What the caller leaves out, or gives as null or empty, selects nothing unless its
      declared default does. */
  lemma OmittedSelectsNothing(env: Env, a: OperationArg, input: Input)
    requires StateOf(env, a, input) != Filled
    ensures MemberSelected(a, FinalOf(env, a, input)) ==> a.defaultText != "" && MemberSelected(a, DefaultValue(env, a))
  {
  }

  // ---- missing and unknown arguments ----

  lemma {:induction false} FirstMissingExact(env: Env, args: seq<OperationArg>, input: Input)
    ensures FirstMissing(env, args, input).None? <==> forall a :: a in args ==> !IsMissing(env, a, input)
    ensures FirstMissing(env, args, input).Some? ==>
              && FirstMissing(env, args, input).value in args
              && IsMissing(env, FirstMissing(env, args, input).value, input)
  {
    if args == [] {
    } else {
      FirstMissingExact(env, args[1..], input);
      assert forall a :: a in args <==> a == args[0] || a in args[1..];
    }
  }

  lemma {:induction false} FirstUnknownExact(known: set<string>, order: seq<string>)
    ensures (forall k :: k in order ==> k in known) ==> FirstUnknown(known, order) == ""
    ensures FirstUnknown(known, order) != "" ==>
              FirstUnknown(known, order) in order && FirstUnknown(known, order) !in known
    ensures (exists k :: k in order && k !in known) && ("" in known || "" !in order) ==>
              FirstUnknown(known, order) != ""
    ensures (forall k :: k in order && k !in known ==> k == "") ==> FirstUnknown(known, order) == ""
  {
    if order == [] {
    } else {
      FirstUnknownExact(known, order[1..]);
      assert forall k :: k in order <==> k == order[0] || k in order[1..];
    }
  }

  // ---- the main theorem ----

  lemma SelectedByFinal(env: Env, args: seq<OperationArg>, input: Input, out: Input, i: nat, g: string)
    requires FilledUpTo(env, args, |args|, input, out) && i < |args|
    ensures SelectedAt(args, i, g, out) <==> args[i].group == g && MemberSelected(args[i], FinalOf(env, args[i], input))
  {
    assert Get(out, args[i].name) == Some(FinalOf(env, args[i], input));
  }

  /** Two selected members are two whose final values are selections. */
  lemma {:induction false} TwoSelectedExact(env: Env, args: seq<OperationArg>, input: Input, out: Input)
    requires FilledUpTo(env, args, |args|, input, out)
    ensures (forall g :: g != "" ==> !TwoSelected(args, g, out)) <==>
              forall i, j :: 0 <= i < j < |args| ==> !BothSelected(env, args[i], args[j], input)
  {
    forall i, j | 0 <= i < j < |args|
      ensures BothSelected(env, args[i], args[j], input) <==>
                && args[i].group != ""
                && SelectedAt(args, i, args[i].group, out) && SelectedAt(args, j, args[i].group, out)
    {
      SelectedByFinal(env, args, input, out, i, args[i].group);
      SelectedByFinal(env, args, input, out, j, args[i].group);
    }
    if i, j :| 0 <= i < j < |args| && BothSelected(env, args[i], args[j], input) {
      assert TwoSelected(args, args[i].group, out);
    }
    if g :| g != "" && TwoSelected(args, g, out) {
      var i, j :| 0 <= i < j < |args| && SelectedAt(args, i, g, out) && SelectedAt(args, j, g, out);
      assert BothSelected(env, args[i], args[j], input);
    }
  }

  /** The fill fails exactly when some arg is malformed in the input, and otherwise makes
      every arg final. */
  ghost predicate FillSettles(env: Env, args: seq<OperationArg>, input: Input) {
    var filled := Fill(env, args, input);
    && (filled.Ok? <==> forall a :: a in args ==> StateOf(env, a, input) != Invalid)
    && (filled.Ok? ==> FilledUpTo(env, args, |args|, input, filled.value))
  }

  lemma ApartArgsSettle(env: Env, args: seq<OperationArg>, input: Input)
    requires WellFormed(args)
    ensures FillSettles(env, args, input)
  {
    assert args[0..] == args;
    FillMeaning(env, args, 0, input, input);
    SoundFromExact(env, args, 0, input);
  }

  lemma DefaultsMeaning(env: Env, args: seq<OperationArg>, input: Input)
    requires FillSettles(env, args, input)
    ensures NormalizeDefaults(env, args, input).Ok? <==>
              && (forall a :: a in args ==> StateOf(env, a, input) != Invalid)
              && (forall i, j :: 0 <= i < j < |args| ==> !BothSelected(env, args[i], args[j], input))
    ensures NormalizeDefaults(env, args, input).Ok? ==>
              FilledUpTo(env, args, |args|, input, NormalizeDefaults(env, args, input).value)
  {
    var filled := Fill(env, args, input);
    if filled.Ok? {
      SelectionGateExact(args, filled.value);
      TwoSelectedExact(env, args, input, filled.value);
    }
  }

  function StripRequestState(args: seq<OperationArg>, out: Input): Input {
    if IsArgKey(args, REQUEST_STATE) then out else DropKey(out, REQUEST_STATE)
  }

  lemma NamesAreKeys(args: seq<OperationArg>, k: string)
    ensures k in Names(args) ==> IsArgKey(args, k)
    ensures k in KnownKeys(args) <==> IsArgKey(args, k) || k == AUTH_TOKEN || k == REQUEST_STATE
  {
  }

  /** Once every arg is filled in, stripping the reserved key leaves the normalized map. */
  lemma FilledIsNormalized(env: Env, args: seq<OperationArg>, input: Input, out: Input)
    requires FilledUpTo(env, args, |args|, input, out)
    ensures IsNormalized(env, args, input, StripRequestState(args, out))
  {
    var r := StripRequestState(args, out);
    forall a | a in args ensures Get(r, a.name) == Some(FinalOf(env, a, input)) {
      var i :| 0 <= i < |args| && args[i] == a;
      assert IsArgKey(args, a.name);
    }
    forall k | k !in Names(args)
      ensures Get(r, k) == if IsArgKey(args, k) || k == REQUEST_STATE then None else Get(input, k)
    {
      if IsArgKey(args, k) {
        var a :| a in args && (a.name == k || CamelCase(a.name) == k);
        var i :| 0 <= i < |args| && args[i] == a;
        assert a.name in Names(args);
        assert Get(out, CamelCase(args[i].name)) == None;
      } else {
        assert Elsewhere(args, |args|, k);
        assert Get(out, k) == Get(input, k);
      }
    }
  }

  lemma MissingOrInvalid(env: Env, args: seq<OperationArg>, input: Input)
    requires forall a :: a in args ==> StateOf(env, a, input) != Invalid
    ensures (forall a :: a in args ==> !IsMissing(env, a, input)) <==>
              forall a :: a in args && IsRequired(a) ==> StateOf(env, a, input) == Filled
  {
    forall a | a in args && IsRequired(a) ensures IsMissing(env, a, input) <==> StateOf(env, a, input) != Filled {
    }
  }

  lemma {:induction false} AcceptableStages(env: Env, args: seq<OperationArg>, input: Input)
    requires FillSettles(env, args, input)
    ensures FirstMissing(env, args, input).None? && NormalizeDefaults(env, args, input).Ok?
            <==> Acceptable(env, args, input)
  {
    FirstMissingExact(env, args, input);
    DefaultsMeaning(env, args, input);
    if forall a :: a in args ==> StateOf(env, a, input) != Invalid {
      MissingOrInvalid(env, args, input);
    }
  }

  lemma NormalizeStages(env: Env, args: seq<OperationArg>, input: Input, order: seq<string>)
    ensures Normalize(env, args, input, order).Ok? <==>
              && FirstMissing(env, args, input).None?
              && FirstUnknown(KnownKeys(args), order) == ""
              && NormalizeDefaults(env, args, input).Ok?
    ensures Normalize(env, args, input, order).Ok? ==>
              Normalize(env, args, input, order).value
              == StripRequestState(args, NormalizeDefaults(env, args, input).value)
  {
  }

  lemma {:induction false} SettledMeaning(env: Env, args: seq<OperationArg>, input: Input, order: seq<string>)
    requires FillSettles(env, args, input)
    ensures Normalize(env, args, input, order).Ok? <==>
              Acceptable(env, args, input) && FirstUnknown(KnownKeys(args), order) == ""
    ensures Normalize(env, args, input, order).Ok? ==>
              IsNormalized(env, args, input, Normalize(env, args, input, order).value)
  {
    NormalizeStages(env, args, input, order);
    AcceptableStages(env, args, input);
    if NormalizeDefaults(env, args, input).Ok? {
      DefaultsMeaning(env, args, input);
      FilledIsNormalized(env, args, input, NormalizeDefaults(env, args, input).value);
    }
  }

  /** Acceptance and result, without the loops: given what the key check saw, the input
      is accepted exactly when it is acceptable, and the output is the normalized map. */
  lemma {:induction false} NormalizeMeaning(env: Env, args: seq<OperationArg>, input: Input, order: seq<string>)
    requires WellFormed(args)
    ensures Normalize(env, args, input, order).Ok? <==>
              Acceptable(env, args, input) && FirstUnknown(KnownKeys(args), order) == ""
    ensures Normalize(env, args, input, order).Ok? ==>
              IsNormalized(env, args, input, Normalize(env, args, input, order).value)
  {
    ApartArgsSettle(env, args, input);
    SettledMeaning(env, args, input, order);
  }

  // ---- the errors ----

  lemma UnknownReported(args: seq<OperationArg>, order: seq<string>)
    ensures var key := FirstUnknown(KnownKeys(args), order);
            key != "" ==>
              && key in order && key !in {"auth_token", "request_state"}
              && forall a :: a in args ==> a.name != key && CamelCase(a.name) != key
  {
    FirstUnknownExact(KnownKeys(args), order);
  }

  /** An arg is missing when it is required, has no default, and is absent, null or empty. */
  lemma {:induction false} MissingExactly(env: Env, args: seq<OperationArg>, input: Input)
    ensures FirstMissing(env, args, input).Some? <==>
              exists a :: a in args && a.required && a.defaultText == "" && Blank(a.argType, LookupArg(a, input))
    ensures var m := FirstMissing(env, args, input);
            m.Some? ==>
              && m.value in args && m.value.required && m.value.defaultText == ""
              && Blank(m.value.argType, LookupArg(m.value, input))
  {
    FirstMissingExact(env, args, input);
    forall a | a in args
      ensures IsMissing(env, a, input) <==>
                a.required && a.defaultText == "" && Blank(a.argType, LookupArg(a, input))
    {
      BlankExactly(env, a, LookupArg(a, input));
    }
  }

  lemma {:induction false} FillNamesInvalid(env: Env, args: seq<OperationArg>, i: nat, input: Input, out: Input)
    requires WellFormed(args) && i <= |args| && FilledUpTo(env, args, i, input, out)
    requires Fill(env, args[i..], out).Err?
    ensures exists a ::
              a in args && Fill(env, args[i..], out) == Err(BadValue(a.name)) && StateOf(env, a, input) == Invalid
    decreases |args| - i
  {
    if i < |args| {
      assert args[i..][0] == args[i] && args[i..][1..] == args[i + 1..];
      FillArgExtends(env, args, i, input, out);
      assert args[i] in args;
      if StateOf(env, args[i], input) != Invalid {
        FillNamesInvalid(env, args, i + 1, input, FillArg(env, args[i], out).value);
      }
    }
  }

  /** Each error says what is wrong: a missing arg is required without default and blank, a
      reported key was visited and means nothing, a reported value is malformed, and a
      reported group has two selected members. */
  lemma {:induction false} ErrorsAreTrue(env: Env, args: seq<OperationArg>, input: Input, order: seq<string>)
    requires WellFormed(args) && Normalize(env, args, input, order).Err?
    ensures match Normalize(env, args, input, order).error
            case MissingArgument(name) =>
              exists a :: a in args && a.name == name && a.required && a.defaultText == ""
                          && Blank(a.argType, LookupArg(a, input))
            case UnknownArgument(key) =>
              && key != "" && key in order && key !in {"auth_token", "request_state"}
              && forall a :: a in args ==> a.name != key && CamelCase(a.name) != key
            case BadValue(name) => exists a :: a in args && a.name == name && StateOf(env, a, input) == Invalid
            case Ambiguous(group) =>
              group != "" && exists i, j :: 0 <= i < j < |args| && args[i].group == group
                                            && BothSelected(env, args[i], args[j], input)
  {
    MissingExactly(env, args, input);
    UnknownReported(args, order);
    assert args[0..] == args;
    var filled := Fill(env, args, input);
    if filled.Err? {
      FillNamesInvalid(env, args, 0, input, input);
    } else if AmbiguousGroup(args, GroupOrder(args), filled.value).Some? {
      ApartArgsSettle(env, args, input);
      AmbiguousHasPair(env, args, input, filled.value);
    }
  }

  lemma {:induction false} AmbiguousIsOrdered(args: seq<OperationArg>, order: seq<string>, out: Input)
    ensures var g := AmbiguousGroup(args, order, out);
            g.Some? ==> g.value in order && SelectedInGroup(args, g.value, out) > 1
  {
    if order == [] {
    } else {
      AmbiguousIsOrdered(args, order[1..], out);
    }
  }

  lemma {:induction false} AmbiguousHasPair(env: Env, args: seq<OperationArg>, input: Input, out: Input)
    requires FilledUpTo(env, args, |args|, input, out) && AmbiguousGroup(args, GroupOrder(args), out).Some?
    ensures var g := AmbiguousGroup(args, GroupOrder(args), out).value;
            g != "" && exists i, j :: 0 <= i < j < |args| && args[i].group == g
                                      && BothSelected(env, args[i], args[j], input)
  {
    var g := AmbiguousGroup(args, GroupOrder(args), out).value;
    AmbiguousIsOrdered(args, GroupOrder(args), out);
    ManySelected(args, g, out);
    var i, j :| 0 <= i < j < |args| && SelectedAt(args, i, g, out) && SelectedAt(args, j, g, out);
    SelectedByFinal(env, args, input, out, i, g);
    SelectedByFinal(env, args, input, out, j, g);
    assert BothSelected(env, args[i], args[j], input);
  }

  // ---- which keys are let through ----

  /** A stray key is an input key that no arg has for name or alias and that is not reserved. */
  lemma StrayExactly(args: seq<OperationArg>, input: Input, key: string)
    ensures key in Stray(args, input) <==>
              && key in input && key != "auth_token" && key != "request_state"
              && forall a :: a in args ==> a.name != key && CamelCase(a.name) != key
  {
  }

  /** The two reserved keys: the token passes through to the handler, the request state
      never does, unless an arg is declared under that name or alias. */
  lemma {:induction false} ReservedKeys(env: Env, args: seq<OperationArg>, input: Input, order: seq<string>)
    requires WellFormed(args) && Normalize(env, args, input, order).Ok?
    ensures var out := Normalize(env, args, input, order).value;
            && ((forall a :: a in args ==> a.name != "auth_token" && CamelCase(a.name) != "auth_token") ==>
                  Get(out, "auth_token") == Get(input, "auth_token"))
            && ((forall a :: a in args ==> a.name != "request_state" && CamelCase(a.name) != "request_state") ==>
                  "request_state" !in out)
  {
    NormalizeMeaning(env, args, input, order);
    var out := Normalize(env, args, input, order).value;
    assert "auth_token" != "request_state" by {
      assert "auth_token"[0] != "request_state"[0];
    }
    if forall a :: a in args ==> a.name != "auth_token" && CamelCase(a.name) != "auth_token" {
      assert !IsArgKey(args, "auth_token") && "auth_token" !in Names(args);
    }
    if forall a :: a in args ==> a.name != "request_state" && CamelCase(a.name) != "request_state" {
      assert !IsArgKey(args, "request_state") && "request_state" !in Names(args);
      assert Get(out, "request_state") == None;
    }
  }

  lemma StrayVisited(args: seq<OperationArg>, input: Input, order: seq<string>)
    requires Enumerates(order, input.Keys)
    ensures forall k :: k in Stray(args, input) <==> k in order && k !in KnownKeys(args)
  {
  }

  /** Accepted under every map order: exactly the acceptable inputs whose only
      unrecognized key, if any, is the empty string. The empty key slips through
      because "" also means "none found". */
  lemma AcceptedAlways(env: Env, args: seq<OperationArg>, input: Input)
    requires WellFormed(args)
    ensures (forall order :: Enumerates(order, input.Keys) ==> Normalize(env, args, input, order).Ok?)
            <==> Acceptable(env, args, input) && Stray(args, input) <= {""}
  {
    var known := KnownKeys(args);
    if Acceptable(env, args, input) && Stray(args, input) <= {""} {
      forall order | Enumerates(order, input.Keys) ensures Normalize(env, args, input, order).Ok? {
        StrayVisited(args, input, order);
        FirstUnknownExact(known, order);
        NormalizeMeaning(env, args, input, order);
      }
    } else {
      var order: seq<string>;
      if k :| k in Stray(args, input) && k != "" {
        order := EnumerationStartingWith(input.Keys, k);
        assert FirstUnknown(known, order) == k;
      } else {
        order := EnumerationOf(input.Keys);
      }
      NormalizeMeaning(env, args, input, order);
      assert !Normalize(env, args, input, order).Ok?;
    }
  }

  /** Accepted under some map order: an unrecognized key is forgiven only when "" is
      itself an unrecognized key that may be visited first. */
  lemma {:induction false} AcceptedSometimes(env: Env, args: seq<OperationArg>, input: Input)
    requires WellFormed(args)
    ensures (exists order :: Enumerates(order, input.Keys) && Normalize(env, args, input, order).Ok?)
            <==> Acceptable(env, args, input) && (Stray(args, input) == {} || "" in Stray(args, input))
  {
    var known := KnownKeys(args);
    if Acceptable(env, args, input) && (Stray(args, input) == {} || "" in Stray(args, input)) {
      var order: seq<string>;
      if "" in Stray(args, input) {
        order := EnumerationStartingWith(input.Keys, "");
        assert FirstUnknown(known, order) == "";
      } else {
        order := EnumerationOf(input.Keys);
        StrayVisited(args, input, order);
        FirstUnknownExact(known, order);
      }
      NormalizeMeaning(env, args, input, order);
      assert Enumerates(order, input.Keys) && Normalize(env, args, input, order).Ok?;
    }
    if order :| Enumerates(order, input.Keys) && Normalize(env, args, input, order).Ok? {
      NormalizeMeaning(env, args, input, order);
      StrayVisited(args, input, order);
      FirstUnknownExact(known, order);
    }
  }

  /** The smallest inputs that show it, for an operation without args. */
  lemma EmptyKeySlipsThrough(env: Env, v: Value)
    ensures Normalize(env, [], map["" := v], [""]) == Ok(map["" := v])
    ensures Normalize(env, [], map["" := v, "x" := v], ["", "x"]).Ok?
    ensures Normalize(env, [], map["" := v, "x" := v], ["x", ""]) == Err(UnknownArgument("x"))
  {
    assert DropKey(map["" := v], REQUEST_STATE) == map["" := v];
    assert GroupOrder([]) == [];
  }

  // ---- closed and typed output ----

  /** The keys are the declared names and what passes through, each arg has its Go
      shape, a supplied value is kept and only a missing one is replaced. */
  lemma {:induction false} OutputClosedAndTyped(env: Env, args: seq<OperationArg>, input: Input, order: seq<string>)
    requires WellFormed(args) && Enumerates(order, input.Keys)
    requires Normalize(env, args, input, order).Ok?
    ensures var out := Normalize(env, args, input, order).value;
            && out.Keys == Names(args) + PassedKeys(args, input)
            && PassedKeys(args, input) <= {AUTH_TOKEN} + Stray(args, input)
            && (forall k :: k in PassedKeys(args, input) ==> out[k] == input[k])
            && (forall a :: a in args && CamelCase(a.name) != a.name ==> CamelCase(a.name) !in out)
    ensures var out := Normalize(env, args, input, order).value;
            forall a :: a in args ==>
              && HasShape(a.argType, out[a.name])
              && out[a.name] == (
                   if StateOf(env, a, input) == Filled then ResolveArg(env, a, LookupArg(a, input)).value
                   else if a.defaultText != "" then DefaultValue(env, a)
                   else ZeroShape(a.argType))
  {
    NormalizeMeaning(env, args, input, order);
    var out := Normalize(env, args, input, order).value;
    forall k
      ensures k in out <==> k in Names(args) || k in PassedKeys(args, input)
      ensures k in PassedKeys(args, input) ==> Get(out, k) == Get(input, k) && k in {AUTH_TOKEN} + Stray(args, input)
    {
      NamesAreKeys(args, k);
      if k in Names(args) {
        var a :| a in args && a.name == k;
        assert Get(out, a.name).Some?;
      } else {
        assert Get(out, k) == if IsArgKey(args, k) || k == REQUEST_STATE then None else Get(input, k);
      }
    }
    forall a | a in args
      ensures CamelCase(a.name) != a.name ==> CamelCase(a.name) !in out
      ensures HasShape(a.argType, FinalOf(env, a, input))
    {
      FinalValueHasShape(env, a, LookupArg(a, input));
      if CamelCase(a.name) in Names(args) {
        var b :| b in args && b.name == CamelCase(a.name);
        SameNameSameArg(args, a, b);
      } else {
        assert IsArgKey(args, CamelCase(a.name));
        assert Get(out, CamelCase(a.name)) == None;
      }
    }
  }

  // ---- declaration order ----

  lemma {:induction false} SameArgsAcceptable(env: Env, args: seq<OperationArg>, args': seq<OperationArg>, input: Input)
    requires multiset(args) == multiset(args') && Acceptable(env, args, input)
    ensures Acceptable(env, args', input)
  {
    forall a | a in args' ensures a in args {
      assert a in multiset(args');
    }
    forall i, j | 0 <= i < j < |args'| ensures !BothSelected(env, args'[i], args'[j], input) {
      TwoPlaces(args', i, j);
      var i', j' := PlacesOfTwo(args, args'[i], args'[j]);
      assert if i' < j' then !BothSelected(env, args[i'], args[j'], input)
             else !BothSelected(env, args[j'], args[i'], input);
    }
  }

  /** What acceptance and the described map depend on is which args there are. */
  lemma {:induction false} SameArgsSameMeaning(env: Env, args: seq<OperationArg>, args': seq<OperationArg>,
                                               input: Input)
    requires multiset(args) == multiset(args')
    ensures KnownKeys(args) == KnownKeys(args')
    ensures Acceptable(env, args, input) <==> Acceptable(env, args', input)
    ensures forall out :: IsNormalized(env, args, input, out) <==> IsNormalized(env, args', input, out)
  {
    SameElements(args, args');
    assert Names(args) == Names(args') && Aliases(args) == Aliases(args');
    if Acceptable(env, args, input) {
      SameArgsAcceptable(env, args, args', input);
    }
    if Acceptable(env, args', input) {
      SameArgsAcceptable(env, args', args, input);
    }
    forall out ensures IsNormalized(env, args, input, out) <==> IsNormalized(env, args', input, out) {
      assert forall k :: IsArgKey(args, k) <==> IsArgKey(args', k);
    }
  }

  lemma SameElements(args: seq<OperationArg>, args': seq<OperationArg>)
    requires multiset(args) == multiset(args')
    ensures forall a :: a in args <==> a in args'
  {
    assert forall a :: a in args <==> a in multiset(args);
    assert forall a :: a in args' <==> a in multiset(args');
  }

  /** Lists that repeat no name and have the same members are rearrangements. */
  lemma DistinctSameMembers(args: seq<OperationArg>, args': seq<OperationArg>)
    requires DistinctNames(args) && DistinctNames(args')
    requires forall a :: a in args <==> a in args'
    ensures multiset(args) == multiset(args')
  {
    forall a ensures multiset(args)[a] == multiset(args')[a] {
      OnceAtMost(args, a);
      OnceAtMost(args', a);
    }
  }

  lemma OnceAtMost(args: seq<OperationArg>, a: OperationArg)
    requires DistinctNames(args)
    ensures multiset(args)[a] == if a in args then 1 else 0
  {
    assert a in args <==> a in multiset(args);
    if multiset(args)[a] >= 2 {
      var i, j := PlacesOfTwo(args, a, a);
      assert false;
    }
  }

  /** Declaring the same args in another order changes neither acceptance nor result. */
  lemma {:induction false} DeclarationOrderIrrelevant(env: Env, args: seq<OperationArg>, args': seq<OperationArg>,
                                                      input: Input, order: seq<string>)
    requires WellFormed(args) && WellFormed(args')
    requires forall a :: a in args <==> a in args'
    ensures Normalize(env, args, input, order).Ok? <==> Normalize(env, args', input, order).Ok?
    ensures Normalize(env, args, input, order).Ok? ==>
              Normalize(env, args, input, order) == Normalize(env, args', input, order)
  {
    NormalizeMeaning(env, args, input, order);
    NormalizeMeaning(env, args', input, order);
    WellFormedDistinct(args);
    WellFormedDistinct(args');
    DistinctSameMembers(args, args');
    SameArgsSameMeaning(env, args, args', input);
    if Normalize(env, args, input, order).Ok? {
      var x, y := Normalize(env, args, input, order).value, Normalize(env, args', input, order).value;
      NormalizedUnique(env, args, input, x, y);
    }
  }

  // ---- frontends converge ----

  /** Two inputs with the same extra keys whose values agree arg by arg, up to the
      spelling of the key and of the value. */
  ghost predicate SameRequest(env: Env, args: seq<OperationArg>, x: Input, y: Input) {
    && (forall a :: a in args ==> Converge(a, LookupArg(a, x), LookupArg(a, y)))
    && (forall k :: k in x ==> GoValue(x[k], env.width))
    && (forall k :: k in y ==> GoValue(y[k], env.width))
    && (forall k :: !IsArgKey(args, k) ==> Get(x, k) == Get(y, k))
  }

  lemma {:induction false} SameRequestSameValues(env: Env, args: seq<OperationArg>, x: Input, y: Input, a: OperationArg)
    requires SameRequest(env, args, x, y) && a in args
    ensures StateOf(env, a, x) == Filled <==> StateOf(env, a, y) == Filled
    ensures StateOf(env, a, x) == Invalid <==> StateOf(env, a, y) == Invalid
    ensures FinalOf(env, a, x) == FinalOf(env, a, y)
  {
    ConvergingValuesAgree(env, a, LookupArg(a, x), LookupArg(a, y));
  }

  /** Args that end in the same state and value make an input acceptable alike. */
  lemma {:induction false} SameValuesSameAcceptance(env: Env, args: seq<OperationArg>, x: Input, y: Input)
    requires forall a :: a in args ==> (StateOf(env, a, x) == Filled <==> StateOf(env, a, y) == Filled)
    requires forall a :: a in args ==> (StateOf(env, a, x) == Invalid <==> StateOf(env, a, y) == Invalid)
    requires forall a :: a in args ==> FinalOf(env, a, x) == FinalOf(env, a, y)
    requires Acceptable(env, args, x)
    ensures Acceptable(env, args, y)
  {
    forall i, j | 0 <= i < j < |args| ensures !BothSelected(env, args[i], args[j], y) {
      assert !BothSelected(env, args[i], args[j], x);
    }
  }

  lemma {:induction false} SameRequestSameMeaning(env: Env, args: seq<OperationArg>, x: Input, y: Input)
    requires SameRequest(env, args, x, y)
    ensures Acceptable(env, args, x) <==> Acceptable(env, args, y)
    ensures forall out :: IsNormalized(env, args, x, out) <==> IsNormalized(env, args, y, out)
  {
    forall a | a in args
      ensures StateOf(env, a, x) == Filled <==> StateOf(env, a, y) == Filled
      ensures StateOf(env, a, x) == Invalid <==> StateOf(env, a, y) == Invalid
      ensures FinalOf(env, a, x) == FinalOf(env, a, y)
    {
      SameRequestSameValues(env, args, x, y, a);
    }
    if Acceptable(env, args, x) {
      SameValuesSameAcceptance(env, args, x, y);
    }
    if Acceptable(env, args, y) {
      SameValuesSameAcceptance(env, args, y, x);
    }
  }

  /** Frontends that spell the same request differently get the same map, whatever the map
      orders; and they are accepted alike unless "" is one of several unrecognized keys,
      when the orders alone decide (AcceptedSometimes). */
  lemma {:induction false} FrontendsConverge(env: Env, args: seq<OperationArg>, x: Input, y: Input,
                                             orderX: seq<string>, orderY: seq<string>)
    requires WellFormed(args) && SameRequest(env, args, x, y)
    requires Enumerates(orderX, x.Keys) && Enumerates(orderY, y.Keys)
    ensures Stray(args, x) == Stray(args, y)
    ensures "" !in Stray(args, x) || Stray(args, x) == {""} ==>
              (Normalize(env, args, x, orderX).Ok? <==> Normalize(env, args, y, orderY).Ok?)
    ensures Normalize(env, args, x, orderX).Ok? && Normalize(env, args, y, orderY).Ok? ==>
              Normalize(env, args, x, orderX) == Normalize(env, args, y, orderY)
  {
    NormalizeMeaning(env, args, x, orderX);
    NormalizeMeaning(env, args, y, orderY);
    SameRequestSameMeaning(env, args, x, y);
    forall k | !IsArgKey(args, k) ensures k in x <==> k in y {
      assert Get(x, k) == Get(y, k);
    }
    StraySame(args, x, y);
    StrayVisited(args, x, orderX);
    StrayVisited(args, y, orderY);
    FirstUnknownExact(KnownKeys(args), orderX);
    FirstUnknownExact(KnownKeys(args), orderY);
    if Normalize(env, args, x, orderX).Ok? && Normalize(env, args, y, orderY).Ok? {
      NormalizedUnique(env, args, x, Normalize(env, args, x, orderX).value, Normalize(env, args, y, orderY).value);
    }
  }

  lemma StraySame(args: seq<OperationArg>, x: Input, y: Input)
    requires forall k :: !IsArgKey(args, k) ==> (k in x <==> k in y)
    ensures Stray(args, x) == Stray(args, y)
  {
    forall k ensures k in Stray(args, x) <==> k in Stray(args, y) {
      if k !in KnownKeys(args) {
        assert !IsArgKey(args, k);
      }
    }
  }

  /** Renaming a key to the arg's alias, or adding the alias beside the declared
      name, is still the same request: the declared name wins. */
  lemma KeySpellingIrrelevant(env: Env, args: seq<OperationArg>, a: OperationArg, input: Input, other: Value)
    requires WellFormed(args) && a in args && a.name in input && CamelCase(a.name) != a.name
    requires GoValue(other, env.width) && forall k :: k in input ==> GoValue(input[k], env.width)
    requires CamelCase(a.name) !in input
    ensures SameRequest(env, args, input, DropKey(input, a.name)[CamelCase(a.name) := input[a.name]])
    ensures SameRequest(env, args, input, input[CamelCase(a.name) := other])
  {
    var renamed := DropKey(input, a.name)[CamelCase(a.name) := input[a.name]];
    var both := input[CamelCase(a.name) := other];
    forall b | b in args
      ensures LookupArg(b, input) == LookupArg(b, renamed)
      ensures LookupArg(b, input) == LookupArg(b, both)
    {
      if b != a {
        assert b.name != a.name && b.name != CamelCase(a.name)
            && CamelCase(b.name) != a.name && CamelCase(b.name) != CamelCase(a.name) by {
          ApartMembers(args, a, b);
        }
      }
    }
    forall k | !IsArgKey(args, k) ensures Get(input, k) == Get(renamed, k) && Get(input, k) == Get(both, k) {
      assert k != a.name && k != CamelCase(a.name);
    }
  }

  // ---- idempotence ----

  lemma {:induction false} ArgStableInOutput(env: Env, args: seq<OperationArg>, input: Input, out: Input,
                                             a: OperationArg)
    requires Registrable(env, args) && IsNormalized(env, args, input, out) && a in args
    requires IsRequired(a) ==> StateOf(env, a, input) == Filled
    ensures StateOf(env, a, out) != Invalid
    ensures FinalOf(env, a, out) == FinalOf(env, a, input)
    ensures IsRequired(a) ==> StateOf(env, a, out) == Filled
  {
    var v := FinalOf(env, a, input);
    assert Get(out, a.name) == Some(v);
    assert LookupArg(a, out) == Some(v);
    assert RegistrableArg(env, a);
    FinalValueIsStable(env, a, LookupArg(a, input));
    if IsRequired(a) {
      FilledIsStable(env, a, LookupArg(a, input));
    }
  }

  /** An output is again an acceptable input, and it is its own normal form. */
  lemma {:induction false} OutputAcceptable(env: Env, args: seq<OperationArg>, input: Input, out: Input)
    requires WellFormed(args) && Registrable(env, args)
    requires Acceptable(env, args, input) && IsNormalized(env, args, input, out)
    ensures Acceptable(env, args, out)
    ensures IsNormalized(env, args, out, out)
  {
    forall a | a in args
      ensures StateOf(env, a, out) != Invalid
      ensures FinalOf(env, a, out) == FinalOf(env, a, input)
      ensures IsRequired(a) ==> StateOf(env, a, out) == Filled
    {
      ArgStableInOutput(env, args, input, out, a);
    }
    forall i, j | 0 <= i < j < |args| ensures !BothSelected(env, args[i], args[j], out) {
      assert !BothSelected(env, args[i], args[j], input);
    }
  }

  lemma OutputSameStray(env: Env, args: seq<OperationArg>, input: Input, out: Input)
    requires IsNormalized(env, args, input, out)
    ensures Stray(args, out) == Stray(args, input)
  {
    forall k ensures k in Stray(args, out) <==> k in Stray(args, input) {
      NamesAreKeys(args, k);
      if k !in KnownKeys(args) {
        assert Get(out, k) == Get(input, k);
      }
    }
  }

  /** Normalizing an accepted output again gives it back unchanged, for every map
      order, exactly when the input had no unrecognized key besides "". When it did
      (let through by a lucky order), some order rejects the output. */
  lemma {:induction false} NormalizeIdempotent(env: Env, args: seq<OperationArg>, input: Input, order: seq<string>)
    requires WellFormed(args) && Registrable(env, args) && Enumerates(order, input.Keys)
    requires Normalize(env, args, input, order).Ok?
    ensures var out := Normalize(env, args, input, order).value;
            && ((forall order' :: Enumerates(order', out.Keys) ==> Normalize(env, args, out, order') == Ok(out))
                <==> Stray(args, input) <= {""})
            && (forall order' :: Normalize(env, args, out, order').Ok? ==> Normalize(env, args, out, order') == Ok(out))
  {
    NormalizeMeaning(env, args, input, order);
    var out := Normalize(env, args, input, order).value;
    OutputAcceptable(env, args, input, out);
    OutputSameStray(env, args, input, out);
    forall order' | Normalize(env, args, out, order').Ok?
      ensures Normalize(env, args, out, order') == Ok(out)
    {
      NormalizeMeaning(env, args, out, order');
      NormalizedUnique(env, args, out, Normalize(env, args, out, order').value, out);
    }
    AcceptedAlways(env, args, out);
  }
}
