/** What the rewriting loop does when names and aliases of different args meet, which
    registration does not rule out: what every turn reads, which supplied values survive,
    and when the declaration order matters. */
module CollisionLaws {
  import opened Basics
  import opened Ascii
  import opened Args
  import opened ArgResolution
  import opened Normalizer
  import opened NormalizerLaws

  // ---- what each turn reads ----

  /** What `key` holds after the first `i` turns, and what turn `i` reads, if no turn
      fails: no map is rewritten here, each key is followed on its own. */
  ghost function Held(env: Env, args: seq<OperationArg>, i: nat, key: string, input: Input): Option<Value>
    requires i <= |args|
    decreases i, 0
  {
    if i == 0 then Get(input, key)
    else if args[i - 1].name == key then Some(FinalValue(env, args[i - 1], Read(env, args, i - 1, input)))
    else if CamelCase(args[i - 1].name) == key then None
    else Held(env, args, i - 1, key, input)
  }

  ghost function Read(env: Env, args: seq<OperationArg>, i: nat, input: Input): Option<Value>
    requires i < |args|
    decreases i, 1
  {
    var own, alias := Held(env, args, i, args[i].name, input), CamelCase(args[i].name);
    if own.Some? || alias == args[i].name then own else Held(env, args, i, alias, input)
  }

  lemma {:induction false} FillSnoc(env: Env, before: seq<OperationArg>, a: OperationArg, out: Input)
    ensures Fill(env, before + [a], out) ==
              match Fill(env, before, out)
              case Err(e) => Err(e)
              case Ok(next) => FillArg(env, a, next)
  {
    if before == [] {
      assert before + [a] == [a] && [a][1..] == [];
    } else {
      assert (before + [a])[0] == before[0] && (before + [a])[1..] == before[1..] + [a];
      var first := FillArg(env, before[0], out);
      if first.Ok? {
        FillSnoc(env, before[1..], a, first.value);
      }
    }
  }

  /** Turn `i` reads nothing malformed. */
  ghost predicate TurnSound(env: Env, args: seq<OperationArg>, i: nat, input: Input)
    requires i < |args|
  {
    ResolveArg(env, args[i], Read(env, args, i, input)).state != Invalid
  }

  ghost predicate HoldsAll(env: Env, args: seq<OperationArg>, i: nat, input: Input, out: Input)
    requires i <= |args|
  {
    forall key :: Get(out, key) == Held(env, args, i, key, input)
  }

  lemma OneTurn(env: Env, args: seq<OperationArg>, i: nat, input: Input, out: Input)
    requires i < |args| && HoldsAll(env, args, i, input, out)
    ensures FillArg(env, args[i], out).Ok? <==> TurnSound(env, args, i, input)
    ensures FillArg(env, args[i], out).Ok? ==> HoldsAll(env, args, i + 1, input, FillArg(env, args[i], out).value)
  {
    assert Get(out, args[i].name) == Held(env, args, i, args[i].name, input);
    assert Get(out, CamelCase(args[i].name)) == Held(env, args, i, CamelCase(args[i].name), input);
    assert LookupArg(args[i], out) == Read(env, args, i, input);
    var next := FillArg(env, args[i], out);
    if next.Ok? {
      forall key ensures Get(next.value, key) == Held(env, args, i + 1, key, input) {
        FillArgKeys(env, args[i], out, key);
        assert Get(out, key) == Held(env, args, i, key, input);
      }
    }
  }

  /** The first `i` turns: they fail exactly when one of them reads a malformed value, and
      otherwise leave under each key what the turns say. */
  ghost predicate TurnsDescribed(env: Env, args: seq<OperationArg>, i: nat, input: Input)
    requires i <= |args|
  {
    var out := Fill(env, args[..i], input);
    && (out.Ok? <==> forall j :: 0 <= j < i ==> TurnSound(env, args, j, input))
    && (out.Ok? ==> HoldsAll(env, args, i, input, out.value))
  }

  lemma OneMoreTurn(env: Env, args: seq<OperationArg>, i: nat, input: Input)
    requires i < |args| && TurnsDescribed(env, args, i, input)
    ensures TurnsDescribed(env, args, i + 1, input)
  {
    var before := Fill(env, args[..i], input);
    assert args[..i + 1] == args[..i] + [args[i]];
    FillSnoc(env, args[..i], args[i], input);
    if before.Ok? {
      OneTurn(env, args, i, input, before.value);
    }
  }

  /** The loop turn by turn, for any arg list. */
  lemma {:induction false} TurnByTurn(env: Env, args: seq<OperationArg>, i: nat, input: Input)
    requires i <= |args|
    ensures TurnsDescribed(env, args, i, input)
  {
    if i == 0 {
      assert Fill(env, args[..i], input) == Ok(input);
    } else {
      TurnByTurn(env, args, i - 1, input);
      OneMoreTurn(env, args, i - 1, input);
    }
  }

  /** The output of any arg list on any accepted input, key by key. */
  lemma {:induction false} OutputTurnByTurn(env: Env, args: seq<OperationArg>, input: Input, order: seq<string>,
                                            key: string)
    requires Normalize(env, args, input, order).Ok?
    ensures forall j :: 0 <= j < |args| ==> TurnSound(env, args, j, input)
    ensures Get(Normalize(env, args, input, order).value, key) ==
              if key == REQUEST_STATE && !IsArgKey(args, key) then None else Held(env, args, |args|, key, input)
  {
    NormalizeStages(env, args, input, order);
    assert args[..|args|] == args;
    TurnByTurn(env, args, |args|, input);
  }

  // ---- the last word on a key ----

  predicate Touches(a: OperationArg, key: string) {
    a.name == key || CamelCase(a.name) == key
  }

  /** `key` is the alias, not the name, of one of the first `k` args. */
  predicate AliasedBefore(args: seq<OperationArg>, k: nat, key: string)
    requires k <= |args|
  {
    exists m :: 0 <= m < k && CamelCase(args[m].name) == key && args[m].name != key
  }

  predicate AliasedAfter(args: seq<OperationArg>, k: nat, key: string) {
    exists m :: k < m < |args| && CamelCase(args[m].name) == key && args[m].name != key
  }

  predicate Untouched(args: seq<OperationArg>, k: nat, key: string)
    requires k <= |args|
  {
    forall m :: 0 <= m < k ==> !Touches(args[m], key)
  }

  predicate LastTouch(args: seq<OperationArg>, k: nat, m: nat, key: string)
    requires k <= |args|
  {
    m < k && Touches(args[m], key) && forall l :: m < l < k ==> !Touches(args[l], key)
  }

  lemma {:induction false} HeldUntouched(env: Env, args: seq<OperationArg>, m: nat, k: nat, key: string, input: Input)
    requires m <= k <= |args|
    requires forall l :: m <= l < k ==> !Touches(args[l], key)
    ensures Held(env, args, k, key, input) == Held(env, args, m, key, input)
  {
    if m == k {
    } else {
      HeldUntouched(env, args, m, k - 1, key, input);
    }
  }

  lemma {:induction false} SomeLastTouch(args: seq<OperationArg>, k: nat, key: string)
    requires k <= |args|
    ensures Untouched(args, k, key) || exists m: nat :: LastTouch(args, k, m, key)
  {
    if k == 0 {
    } else if Touches(args[k - 1], key) {
      assert LastTouch(args, k, k - 1, key);
    } else {
      var before := k - 1;
      SomeLastTouch(args, before, key);
      if m: nat :| LastTouch(args, before, m, key) {
        assert LastTouch(args, k, m, key);
      }
    }
  }

  lemma HeldTouched(env: Env, args: seq<OperationArg>, k: nat, m: nat, key: string, input: Input)
    requires k <= |args| && LastTouch(args, k, m, key)
    ensures Held(env, args, k, key, input) ==
              if args[m].name == key then Some(FinalValue(env, args[m], Read(env, args, m, input))) else None
  {
    HeldUntouched(env, args, m + 1, k, key, input);
  }

  /** Whoever touched the key last decides: a declaration leaves its value, an alias nothing. */
  lemma LastTouchDecides(env: Env, args: seq<OperationArg>, k: nat, key: string, input: Input)
    requires k <= |args|
    ensures Untouched(args, k, key) ==> Held(env, args, k, key, input) == Get(input, key)
    ensures forall m: nat :: LastTouch(args, k, m, key) ==>
              Held(env, args, k, key, input) ==
                if args[m].name == key then Some(FinalValue(env, args[m], Read(env, args, m, input))) else None
    ensures Untouched(args, k, key) || exists m: nat :: LastTouch(args, k, m, key)
  {
    if Untouched(args, k, key) {
      HeldUntouched(env, args, 0, k, key, input);
    }
    SomeLastTouch(args, k, key);
    forall m: nat | LastTouch(args, k, m, key)
      ensures Held(env, args, k, key, input) ==
                if args[m].name == key then Some(FinalValue(env, args[m], Read(env, args, m, input))) else None
    {
      HeldTouched(env, args, k, m, key, input);
    }
  }

  // ---- a name declared more than once ----

  /** Nobody in front of arg `k` has its name; nobody behind it has. */
  predicate FirstOfName(args: seq<OperationArg>, k: nat) {
    k < |args| && forall m :: 0 <= m < k ==> args[m].name != args[k].name
  }

  predicate LastOfName(args: seq<OperationArg>, k: nat) {
    k < |args| && forall m :: k < m < |args| ==> args[m].name != args[k].name
  }

  /** Two declarations under which a raw value is read the same way. */
  predicate ReadAlike(a: OperationArg, b: OperationArg) {
    a.argType == b.argType && a.defaultText == b.defaultText && a.choices == b.choices
  }

  /** Registration does not refuse a repeated name. The declarations of this one, if it is
      repeated, agree and passed registration. */
  predicate OneVoice(env: Env, args: seq<OperationArg>, name: string) {
    forall i, j :: 0 <= i < j < |args| && args[i].name == name && args[j].name == name ==>
      ReadAlike(args[i], args[j]) && RegistrableArg(env, args[i]) && RegistrableArg(env, args[j])
  }

  predicate RepeatsAgree(env: Env, args: seq<OperationArg>) {
    forall k :: 0 <= k < |args| ==> OneVoice(env, args, args[k].name)
  }

  lemma DistinctNamesAgree(env: Env, args: seq<OperationArg>)
    requires DistinctNames(args)
    ensures RepeatsAgree(env, args)
  {
  }

  lemma ReadAlikeSame(env: Env, a: OperationArg, b: OperationArg, raw: Option<Value>)
    requires ReadAlike(a, b)
    ensures ResolveArg(env, a, raw) == ResolveArg(env, b, raw)
    ensures FinalValue(env, a, raw) == FinalValue(env, b, raw)
  {
  }

  /** A later declaration of a name takes over what an earlier one has made of a value. */
  lemma RepeatTakesOver(env: Env, a: OperationArg, b: OperationArg, raw: Option<Value>)
    requires ReadAlike(a, b) && RegistrableArg(env, b)
    ensures var v := FinalValue(env, a, raw);
            && ResolveArg(env, b, Some(v)).state != Invalid
            && FinalValue(env, b, Some(v)) == v == FinalValue(env, b, raw)
  {
    ReadAlikeSame(env, a, b, raw);
    FinalValueIsStable(env, b, raw);
  }

  lemma {:induction false} FirstNamed(args: seq<OperationArg>, k: nat) returns (f: nat)
    requires k < |args|
    ensures f <= k && FirstOfName(args, f) && args[f].name == args[k].name
  {
    if FirstOfName(args, k) {
      f := k;
    } else {
      var m: nat :| m < k && args[m].name == args[k].name;
      f := FirstNamed(args, m);
    }
  }

  // ---- what a turn reads, in closed form ----

  /** What a key without hyphen offers in front of arg `k`: the input's value, unless an
      alias has removed it. */
  function Offered(args: seq<OperationArg>, k: nat, name: string, input: Input): Option<Value>
    requires k <= |args|
  {
    if AliasedBefore(args, k, name) then None else Get(input, name)
  }

  /** The last one to touch the key before arg `k` declared it. */
  ghost predicate DeclaredSince(args: seq<OperationArg>, k: nat, name: string)
    requires k <= |args|
  {
    exists m: nat :: LastTouch(args, k, m, name) && args[m].name == name
  }

  /** An arg without hyphen reads what its key offers, or what an earlier declaration of it
      has made of that; either way its turn comes to the same. */
  lemma {:induction false} PlainRead(env: Env, args: seq<OperationArg>, k: nat, input: Input)
    requires k < |args| && CamelCase(args[k].name) == args[k].name && OneVoice(env, args, args[k].name)
    ensures var c, offered := args[k], Offered(args, k, args[k].name, input);
            && Read(env, args, k, input) ==
                 (if DeclaredSince(args, k, c.name) then Some(FinalValue(env, c, offered)) else offered)
            && FinalValue(env, c, Read(env, args, k, input)) == FinalValue(env, c, offered)
            && (DeclaredSince(args, k, c.name) ==> TurnSound(env, args, k, input))
    decreases k
  {
    var name := args[k].name;
    LastTouchDecides(env, args, k, name, input);
    if DeclaredSince(args, k, name) {
      var m: nat :| LastTouch(args, k, m, name) && args[m].name == name;
      PlainRead(env, args, m, input);
      SameOffer(args, m, k, name, input);
      RepeatTakesOver(env, args[m], args[k], Offered(args, m, name, input));
    } else if !Untouched(args, k, name) {
      var m: nat :| LastTouch(args, k, m, name);
      assert AliasedBefore(args, k, name);
    }
  }

  lemma SameOffer(args: seq<OperationArg>, m: nat, k: nat, name: string, input: Input)
    requires k <= |args| && LastTouch(args, k, m, name) && args[m].name == name
    ensures Offered(args, m, name, input) == Offered(args, k, name, input)
  {
    if l :| 0 <= l < k && CamelCase(args[l].name) == name && args[l].name != name {
      assert Touches(args[l], name);
    }
  }

  /** What the first `k` args leave under the alias of a hyphenated one. */
  ghost function LeftUnder(env: Env, args: seq<OperationArg>, k: nat, alias: string, input: Input): Option<Value>
    requires k <= |args|
  {
    if m: nat :| LastTouch(args, k, m, alias) then
      if args[m].name != alias then None
      else Some(FinalValue(env, args[m], Offered(args, m, alias, input)))
    else Get(input, alias)
  }

  lemma HyphenIsNoAlias(name: string, other: string)
    requires CamelCase(name) != name
    ensures CamelCase(other) != name
  {
    CamelCaseFixpoint(name);
  }

  /** A hyphenated arg reads its own key, which nothing can remove, and failing that what
      the args before it left under its alias. */
  lemma {:induction false} HyphenatedRead(env: Env, args: seq<OperationArg>, k: nat, input: Input)
    requires FirstOfName(args, k) && CamelCase(args[k].name) != args[k].name
    requires OneVoice(env, args, CamelCase(args[k].name))
    ensures Read(env, args, k, input) ==
              if args[k].name in input then Get(input, args[k].name)
              else LeftUnder(env, args, k, CamelCase(args[k].name), input)
  {
    var name, alias := args[k].name, CamelCase(args[k].name);
    forall m | 0 <= m < k ensures !Touches(args[m], name) {
      HyphenIsNoAlias(name, args[m].name);
    }
    LastTouchDecides(env, args, k, name, input);
    LastTouchDecides(env, args, k, alias, input);
    CamelCaseFixpoint(name);
    forall m: nat | LastTouch(args, k, m, alias) && args[m].name == alias
      ensures FinalValue(env, args[m], Read(env, args, m, input)) ==
                FinalValue(env, args[m], Offered(args, m, alias, input))
    {
      PlainRead(env, args, m, input);
    }
  }

  /** Every further declaration of a hyphenated name repeats the first one's value. */
  lemma {:induction false} HyphenatedRepeat(env: Env, args: seq<OperationArg>, f: nat, k: nat, input: Input)
    requires FirstOfName(args, f) && f <= k <= |args| && CamelCase(args[f].name) != args[f].name
    requires OneVoice(env, args, args[f].name)
    ensures f < k ==> Held(env, args, k, args[f].name, input) ==
                        Some(FinalValue(env, args[f], Read(env, args, f, input)))
    ensures f < k < |args| && args[k].name == args[f].name ==>
              && FinalValue(env, args[k], Read(env, args, k, input))
                 == FinalValue(env, args[f], Read(env, args, f, input))
              && TurnSound(env, args, k, input)
    decreases k
  {
    if f == k {
    } else {
      HyphenatedRepeat(env, args, f, k - 1, input);
      HyphenIsNoAlias(args[f].name, args[k - 1].name);
      if k < |args| && args[k].name == args[f].name {
        RepeatTakesOver(env, args[f], args[k], Read(env, args, f, input));
      }
    }
  }

  // ---- which supplied values survive ----

  /** An arg without hyphen, at its last declaration: the handler gets what the input gives
      for it exactly when no later alias removes it and no earlier one has taken its value,
      or had none to take that matters. */
  lemma {:induction false} PlainValueSurvives(env: Env, args: seq<OperationArg>, input: Input, order: seq<string>,
                                              k: nat)
    requires LastOfName(args, k) && CamelCase(args[k].name) == args[k].name && OneVoice(env, args, args[k].name)
    requires Normalize(env, args, input, order).Ok?
    ensures var c, out := args[k], Normalize(env, args, input, order).value;
            Get(out, c.name) == Some(FinalOf(env, c, input)) <==>
              && !AliasedAfter(args, k, c.name)
              && (AliasedBefore(args, k, c.name) ==> FinalValue(env, c, None) == FinalOf(env, c, input))
    ensures AliasedAfter(args, k, args[k].name) ==> args[k].name !in Normalize(env, args, input, order).value
  {
    var c := args[k];
    assert IsArgKey(args, c.name);
    OutputTurnByTurn(env, args, input, order, c.name);
    LastTouchDecides(env, args, |args|, c.name, input);
    PlainRead(env, args, k, input);
    if AliasedAfter(args, k, c.name) {
      SomeLastTouch(args, |args|, c.name);
    } else {
      assert LastTouch(args, |args|, k, c.name);
    }
  }

  /** A hyphenated arg, at its first declaration: it is always there, and carries what its
      own key gives, else what the args before it left under its alias. */
  lemma {:induction false} HyphenatedValueSurvives(env: Env, args: seq<OperationArg>, input: Input,
                                                   order: seq<string>, k: nat)
    requires FirstOfName(args, k) && CamelCase(args[k].name) != args[k].name
    requires OneVoice(env, args, args[k].name) && OneVoice(env, args, CamelCase(args[k].name))
    requires Normalize(env, args, input, order).Ok?
    ensures var c, out := args[k], Normalize(env, args, input, order).value;
            var left := LeftUnder(env, args, k, CamelCase(c.name), input);
            && Get(out, c.name) == Some(if c.name in input then FinalOf(env, c, input) else FinalValue(env, c, left))
            && (Get(out, c.name) == Some(FinalOf(env, c, input)) <==>
                  c.name in input || FinalValue(env, c, left) == FinalValue(env, c, Get(input, CamelCase(c.name))))
  {
    var c := args[k];
    assert IsArgKey(args, c.name);
    OutputTurnByTurn(env, args, input, order, c.name);
    HyphenatedRepeat(env, args, k, |args|, input);
    HyphenatedRead(env, args, k, input);
  }

  // ---- when the declaration order matters ----

  /** Two differently named args of one alias: exactly those that are not apart. */
  predicate Collide(a: OperationArg, b: OperationArg) {
    a.name != b.name && CamelCase(a.name) == CamelCase(b.name)
  }

  lemma CollideExact(a: OperationArg, b: OperationArg)
    requires a.name != b.name
    ensures Collide(a, b) <==> !Apart(a, b)
  {
    CamelCaseFixpoint(a.name);
    CamelCaseFixpoint(b.name);
  }

  /** Well-formed args are those with distinct names of which no two collide. */
  lemma ApartExactly(args: seq<OperationArg>)
    ensures WellFormed(args) <==> DistinctNames(args) && forall a, b :: a in args && b in args ==> !Collide(a, b)
  {
    if WellFormed(args) {
      WellFormedDistinct(args);
      forall a, b | a in args && b in args ensures !Collide(a, b) {
        if a != b {
          ApartMembers(args, a, b);
        }
      }
    } else if DistinctNames(args) {
      var i, j :| 0 <= i < j < |args| && !Apart(args[i], args[j]);
      CollideExact(args[i], args[j]);
    }
  }

  /** A hyphenated arg that comes to the same whether it finds its alias or not. */
  predicate AliasMakesNoDifference(env: Env, a: OperationArg, input: Input) {
    && CamelCase(a.name) != a.name
    && (|| a.name in input
        || CamelCase(a.name) !in input
        || (StateOf(env, a, input) != Invalid && FinalOf(env, a, input) == FinalValue(env, a, None)))
  }

  predicate CollisionsHarmless(env: Env, args: seq<OperationArg>, input: Input) {
    forall a, b :: a in args && b in args && Collide(a, b) ==> AliasMakesNoDifference(env, a, input)
  }

  lemma {:induction false} HarmlessPlainTurn(env: Env, args: seq<OperationArg>, k: nat, input: Input)
    requires RepeatsAgree(env, args) && CollisionsHarmless(env, args, input) && k < |args|
    requires CamelCase(args[k].name) == args[k].name
    ensures StateOf(env, args[k], input) != Invalid ==> TurnSound(env, args, k, input)
    ensures FirstOfName(args, k) && TurnSound(env, args, k, input) ==> StateOf(env, args[k], input) != Invalid
    ensures FinalValue(env, args[k], Read(env, args, k, input)) == FinalOf(env, args[k], input)
  {
    var c := args[k];
    PlainRead(env, args, k, input);
    forall m | 0 <= m < k && args[m].name != c.name ensures CamelCase(args[m].name) != c.name {
      assert Collide(c, args[m]) ==> AliasMakesNoDifference(env, c, input);
    }
    assert Offered(args, k, c.name, input) == LookupArg(c, input);
  }

  /** The first declaration of a hyphenated name either finds its alias untouched or can do
      without it. */
  lemma {:induction false} HarmlessHyphenatedTurn(env: Env, args: seq<OperationArg>, k: nat, input: Input)
    requires RepeatsAgree(env, args) && CollisionsHarmless(env, args, input) && FirstOfName(args, k)
    requires CamelCase(args[k].name) != args[k].name
    ensures TurnSound(env, args, k, input) <==> StateOf(env, args[k], input) != Invalid
    ensures FinalValue(env, args[k], Read(env, args, k, input)) == FinalOf(env, args[k], input)
  {
    var c, alias := args[k], CamelCase(args[k].name);
    CamelCaseFixpoint(c.name);
    AliasSpokenOnce(env, args, alias);
    HyphenatedRead(env, args, k, input);
    if m: nat :| LastTouch(args, k, m, alias) {
      CamelCaseFixpoint(args[m].name);
      assert Collide(args[m], c) && Collide(c, args[m]);
      assert AliasMakesNoDifference(env, args[m], input) && AliasMakesNoDifference(env, c, input);
      forall l: nat | LastTouch(args, k, l, alias) ensures l == m {
      }
    }
  }

  lemma AliasSpokenOnce(env: Env, args: seq<OperationArg>, alias: string)
    requires RepeatsAgree(env, args)
    ensures OneVoice(env, args, alias)
  {
    forall i, j | 0 <= i < j < |args| && args[i].name == alias && args[j].name == alias
      ensures ReadAlike(args[i], args[j]) && RegistrableArg(env, args[i]) && RegistrableArg(env, args[j])
    {
      assert OneVoice(env, args, args[i].name);
    }
  }

  /** With harmless collisions every turn comes to what it would on the input as given. */
  lemma {:induction false} HarmlessTurn(env: Env, args: seq<OperationArg>, k: nat, input: Input)
    requires RepeatsAgree(env, args) && CollisionsHarmless(env, args, input) && k < |args|
    ensures StateOf(env, args[k], input) != Invalid ==> TurnSound(env, args, k, input)
    ensures FirstOfName(args, k) && TurnSound(env, args, k, input) ==> StateOf(env, args[k], input) != Invalid
    ensures FinalValue(env, args[k], Read(env, args, k, input)) == FinalOf(env, args[k], input)
  {
    if CamelCase(args[k].name) == args[k].name {
      HarmlessPlainTurn(env, args, k, input);
    } else {
      var f := FirstNamed(args, k);
      HarmlessHyphenatedTurn(env, args, f, input);
      HyphenatedRepeat(env, args, f, k, input);
      if f < k {
        ReadAlikeSame(env, args[f], args[k], LookupArg(args[f], input));
      }
    }
  }

  /** What the loop leaves under an arg's name and under its alias then. */
  lemma {:induction false} HarmlessKeys(env: Env, args: seq<OperationArg>, k: nat, input: Input)
    requires RepeatsAgree(env, args) && CollisionsHarmless(env, args, input) && k < |args|
    ensures Held(env, args, |args|, args[k].name, input) == Some(FinalOf(env, args[k], input))
    ensures CamelCase(args[k].name) != args[k].name ==> Held(env, args, |args|, CamelCase(args[k].name), input) == None
  {
    var c, alias := args[k], CamelCase(args[k].name);
    LastTouchDecides(env, args, |args|, c.name, input);
    assert Touches(args[k], c.name);
    forall m: nat | LastTouch(args, |args|, m, c.name)
      ensures args[m].name == c.name && FinalValue(env, args[m], Read(env, args, m, input)) == FinalOf(env, c, input)
    {
      CamelCaseFixpoint(c.name);
      CamelCaseFixpoint(args[m].name);
      assert !Collide(c, args[m]) || AliasMakesNoDifference(env, c, input);
      HarmlessTurn(env, args, m, input);
      SameNameSameFinal(env, args, m, k, input);
    }
    if alias != c.name {
      LastTouchDecides(env, args, |args|, alias, input);
      forall m: nat | LastTouch(args, |args|, m, alias) ensures args[m].name != alias {
        CamelCaseFixpoint(c.name);
        assert !Collide(args[m], c) || AliasMakesNoDifference(env, args[m], input);
      }
      assert Touches(args[k], alias);
    }
  }

  lemma SameNameSameFinal(env: Env, args: seq<OperationArg>, m: nat, k: nat, input: Input)
    requires RepeatsAgree(env, args) && m < |args| && k < |args|
    ensures args[m].name == args[k].name ==>
              && FinalOf(env, args[m], input) == FinalOf(env, args[k], input)
              && StateOf(env, args[m], input) == StateOf(env, args[k], input)
  {
    if m < k && args[m].name == args[k].name {
      ReadAlikeSame(env, args[m], args[k], LookupArg(args[k], input));
    } else if k < m && args[m].name == args[k].name {
      ReadAlikeSame(env, args[k], args[m], LookupArg(args[k], input));
    }
  }

  lemma {:induction false} HarmlessSound(env: Env, args: seq<OperationArg>, input: Input)
    requires RepeatsAgree(env, args) && CollisionsHarmless(env, args, input)
    ensures (forall k :: 0 <= k < |args| ==> TurnSound(env, args, k, input)) <==>
              forall a :: a in args ==> StateOf(env, a, input) != Invalid
  {
    if forall k :: 0 <= k < |args| ==> TurnSound(env, args, k, input) {
      forall a | a in args ensures StateOf(env, a, input) != Invalid {
        var k: nat :| k < |args| && args[k] == a;
        var f := FirstNamed(args, k);
        HarmlessTurn(env, args, f, input);
        SameNameSameFinal(env, args, f, k, input);
      }
    }
    if forall a :: a in args ==> StateOf(env, a, input) != Invalid {
      forall k | 0 <= k < |args| ensures TurnSound(env, args, k, input) {
        HarmlessTurn(env, args, k, input);
      }
    }
  }

  lemma {:induction false} HarmlessSettles(env: Env, args: seq<OperationArg>, input: Input)
    requires RepeatsAgree(env, args) && CollisionsHarmless(env, args, input)
    ensures FillSettles(env, args, input)
  {
    assert args[..|args|] == args;
    TurnByTurn(env, args, |args|, input);
    HarmlessSound(env, args, input);
    var filled := Fill(env, args, input);
    if filled.Ok? {
      forall k | 0 <= k < |args|
        ensures Get(filled.value, args[k].name) == Some(FinalOf(env, args[k], input))
        ensures CamelCase(args[k].name) != args[k].name ==> Get(filled.value, CamelCase(args[k].name)) == None
      {
        HarmlessKeys(env, args, k, input);
      }
      forall key | Elsewhere(args, |args|, key) ensures Get(filled.value, key) == Get(input, key) {
        assert Untouched(args, |args|, key);
        LastTouchDecides(env, args, |args|, key, input);
      }
    }
  }

  /** The meaning of normalization does not need args apart: declarations of one name that
      agree act as one, and harmless collisions change nothing. */
  lemma HarmlessMeaning(env: Env, args: seq<OperationArg>, input: Input, order: seq<string>)
    requires RepeatsAgree(env, args) && CollisionsHarmless(env, args, input)
    ensures Normalize(env, args, input, order).Ok? <==>
              Acceptable(env, args, input) && FirstUnknown(KnownKeys(args), order) == ""
    ensures Normalize(env, args, input, order).Ok? ==>
              IsNormalized(env, args, input, Normalize(env, args, input, order).value)
  {
    HarmlessSettles(env, args, input);
    SettledMeaning(env, args, input, order);
  }

  /** The same args in another order. */
  ghost predicate Reordered(args: seq<OperationArg>, args': seq<OperationArg>) {
    multiset(args) == multiset(args')
  }

  lemma {:induction false} ReorderedAgree(env: Env, args: seq<OperationArg>, args': seq<OperationArg>)
    requires RepeatsAgree(env, args) && Reordered(args, args')
    ensures RepeatsAgree(env, args')
  {
    forall i, j | 0 <= i < j < |args'| && args'[i].name == args'[j].name
      ensures ReadAlike(args'[i], args'[j]) && RegistrableArg(env, args'[i]) && RegistrableArg(env, args'[j])
    {
      TwoPlaces(args', i, j);
      var i', j' := PlacesOfTwo(args, args'[i], args'[j]);
      assert OneVoice(env, args, args[i'].name);
    }
  }

  lemma {:induction false} HarmlessOrder(env: Env, args: seq<OperationArg>, args': seq<OperationArg>, input: Input,
                                         order: seq<string>)
    requires RepeatsAgree(env, args) && Reordered(args, args') && CollisionsHarmless(env, args, input)
    requires Normalize(env, args, input, order).Ok?
    ensures Normalize(env, args', input, order) == Normalize(env, args, input, order)
  {
    HarmlessMeaning(env, args, input, order);
    SameElements(args, args');
    ReorderedAgree(env, args, args');
    HarmlessMeaning(env, args', input, order);
    SameArgsSameMeaning(env, args, args', input);
    var x, y := Normalize(env, args, input, order).value, Normalize(env, args', input, order).value;
    NormalizedUnique(env, args, input, x, y);
  }

  lemma Without(args: seq<OperationArg>, a: OperationArg) returns (rest: seq<OperationArg>)
    requires a in args
    ensures multiset(rest) + multiset{a} == multiset(args)
    ensures forall b :: b in args && b != a ==> b in rest
  {
    var i :| 0 <= i < |args| && args[i] == a;
    rest := args[..i] + args[i + 1..];
    assert args == args[..i] + [a] + args[i + 1..];
    forall b | b in args && b != a ensures b in rest {
      assert b in multiset(args);
      assert b in multiset(rest);
    }
  }

  /** The orders that tell two colliding args apart: one of them first, or right behind the
      other; and at the end in either order. */
  lemma TellingOrders(args: seq<OperationArg>, a: OperationArg, b: OperationArg)
    returns (others: seq<OperationArg>, rest: seq<OperationArg>)
    requires a in args && b in args && a.name != b.name
    ensures Reordered(args, [a] + others) && Reordered(args, [b, a] + rest)
    ensures Reordered(args, rest + [a, b]) && Reordered(args, rest + [b, a])
  {
    others := Without(args, a);
    rest := Without(others, b);
  }

  /** A result that no order changes is the same for the telling ones. */
  lemma {:induction false} TellingResults<R(!new)>(args: seq<OperationArg>, a: OperationArg, b: OperationArg,
                                                   result: seq<OperationArg> -> R)
    returns (others: seq<OperationArg>, rest: seq<OperationArg>)
    requires a in args && b in args && a.name != b.name
    requires forall args' :: Reordered(args, args') ==> result(args') == result(args)
    ensures Reordered(args, [a] + others) && Reordered(args, [b, a] + rest)
    ensures result(args) == result([a] + others) == result([b, a] + rest)
    ensures result(args) == result(rest + [a, b]) == result(rest + [b, a])
  {
    others, rest := TellingOrders(args, a, b);
  }

  /** Put first, a hyphenated arg finds its alias. */
  lemma {:induction false} FirstFindsAlias(env: Env, args: seq<OperationArg>, input: Input, order: seq<string>)
    requires RepeatsAgree(env, args) && args != [] && CamelCase(args[0].name) != args[0].name
    requires Normalize(env, args, input, order).Ok?
    ensures StateOf(env, args[0], input) != Invalid
    ensures Get(Normalize(env, args, input, order).value, args[0].name) == Some(FinalOf(env, args[0], input))
  {
    OutputTurnByTurn(env, args, input, order, args[0].name);
    AliasSpokenOnce(env, args, CamelCase(args[0].name));
    HyphenatedValueSurvives(env, args, input, order, 0);
    HyphenatedRead(env, args, 0, input);
    assert TurnSound(env, args, 0, input);
    assert forall m: nat :: !LastTouch(args, 0, m, CamelCase(args[0].name));
    assert Read(env, args, 0, input) == LookupArg(args[0], input);
  }

  /** Behind another arg of its alias, it does not. */
  lemma {:induction false} SecondMissesAlias(env: Env, args: seq<OperationArg>, input: Input, order: seq<string>)
    requires RepeatsAgree(env, args) && |args| >= 2 && Collide(args[0], args[1])
    requires CamelCase(args[0].name) != args[0].name && CamelCase(args[1].name) != args[1].name
    requires Normalize(env, args, input, order).Ok? && args[1].name !in input
    ensures Get(Normalize(env, args, input, order).value, args[1].name) == Some(FinalValue(env, args[1], None))
  {
    var alias := CamelCase(args[1].name);
    AliasSpokenOnce(env, args, alias);
    HyphenatedValueSurvives(env, args, input, order, 1);
    CamelCaseFixpoint(args[0].name);
    assert LastTouch(args, 1, 0, alias);
    assert forall m: nat :: LastTouch(args, 1, m, alias) ==> m == 0;
    assert args[0].name != alias;
  }

  lemma {:induction false} LastKeepsKey(env: Env, args: seq<OperationArg>, input: Input, order: seq<string>)
    requires args != [] && Normalize(env, args, input, order).Ok?
    ensures args[|args| - 1].name in Normalize(env, args, input, order).value
  {
    var b := args[|args| - 1];
    OutputTurnByTurn(env, args, input, order, b.name);
    assert IsArgKey(args, b.name);
    assert Get(Normalize(env, args, input, order).value, b.name).Some?;
  }

  lemma {:induction false} LastRemovesAlias(env: Env, args: seq<OperationArg>, input: Input, order: seq<string>,
                                            key: string)
    requires args != [] && Normalize(env, args, input, order).Ok?
    requires CamelCase(args[|args| - 1].name) == key && args[|args| - 1].name != key
    ensures key !in Normalize(env, args, input, order).value
  {
    OutputTurnByTurn(env, args, input, order, key);
    assert Get(Normalize(env, args, input, order).value, key).None?;
  }

  ghost predicate OrderIrrelevant(env: Env, args: seq<OperationArg>, input: Input, order: seq<string>) {
    forall args' :: Reordered(args, args') ==> Normalize(env, args', input, order) == Normalize(env, args, input, order)
  }

  /** With `b` last its key is there; with an arg last that has it for an alias, it is not. */
  lemma {:induction false} LastDiffers(env: Env, rest: seq<OperationArg>, a: OperationArg, b: OperationArg,
                                       input: Input, order: seq<string>)
    requires CamelCase(a.name) == b.name && a.name != b.name
    requires Normalize(env, rest + [a, b], input, order).Ok?
    ensures Normalize(env, rest + [a, b], input, order) != Normalize(env, rest + [b, a], input, order)
  {
    var kept, removed := rest + [a, b], rest + [b, a];
    if Normalize(env, removed, input, order).Ok? {
      LastKeepsKey(env, kept, input, order);
      LastRemovesAlias(env, removed, input, order, b.name);
    }
  }

  /** An alias that is another arg's name always makes the order matter. */
  lemma {:induction false} OrderShowsName(env: Env, args: seq<OperationArg>, input: Input, order: seq<string>,
                                          a: OperationArg, b: OperationArg)
    requires a in args && b in args && Collide(a, b) && CamelCase(b.name) == b.name
    requires Normalize(env, args, input, order).Ok?
    ensures !OrderIrrelevant(env, args, input, order)
  {
    if OrderIrrelevant(env, args, input, order) {
      var _, rest := TellingResults(args, a, b, xs => Normalize(env, xs, input, order));
      LastDiffers(env, rest, a, b, input, order);
    }
  }

  lemma {:induction false} FirstOrSecond(env: Env, first: seq<OperationArg>, second: seq<OperationArg>, input: Input,
                                         order: seq<string>)
    requires RepeatsAgree(env, first) && RepeatsAgree(env, second)
    requires first != [] && |second| >= 2 && first[0] == second[1] && Collide(second[0], second[1])
    requires CamelCase(first[0].name) != first[0].name && CamelCase(second[0].name) != second[0].name
    requires Normalize(env, first, input, order).Ok?
    requires Normalize(env, first, input, order) == Normalize(env, second, input, order)
    ensures AliasMakesNoDifference(env, first[0], input)
  {
    if first[0].name !in input {
      FirstFindsAlias(env, first, input, order);
      SecondMissesAlias(env, second, input, order);
    }
  }

  /** Two hyphenated args of one alias make the order matter unless each can do without it. */
  lemma {:induction false} OrderShowsAlias(env: Env, args: seq<OperationArg>, input: Input, order: seq<string>,
                                           a: OperationArg, b: OperationArg)
    requires RepeatsAgree(env, args) && a in args && b in args && Collide(a, b)
    requires CamelCase(a.name) != a.name && CamelCase(b.name) != b.name
    requires Normalize(env, args, input, order).Ok?
    requires OrderIrrelevant(env, args, input, order)
    ensures AliasMakesNoDifference(env, a, input)
  {
    var others, rest := TellingResults(args, a, b, xs => Normalize(env, xs, input, order));
    ReorderedAgree(env, args, [a] + others);
    ReorderedAgree(env, args, [b, a] + rest);
    FirstOrSecond(env, [a] + others, [b, a] + rest, input, order);
  }

  /** For args whose repeated names agree, if there are any, and an accepted input: every
      order of declaration gives the same map exactly when all args that share an alias are hyphenated, and each of
      them has its own key supplied, or has no use for the alias. */
  lemma {:induction false} DeclarationOrderExactly(env: Env, args: seq<OperationArg>, input: Input, order: seq<string>)
    requires RepeatsAgree(env, args) && Normalize(env, args, input, order).Ok?
    ensures OrderIrrelevant(env, args, input, order) <==> CollisionsHarmless(env, args, input)
  {
    if CollisionsHarmless(env, args, input) {
      forall args' | Reordered(args, args')
        ensures Normalize(env, args', input, order) == Normalize(env, args, input, order)
      {
        HarmlessOrder(env, args, args', input, order);
      }
    } else {
      var a, b :| a in args && b in args && Collide(a, b) && !AliasMakesNoDifference(env, a, input);
      if CamelCase(b.name) == b.name {
        OrderShowsName(env, args, input, order, a, b);
      } else if CamelCase(a.name) == a.name {
        OrderShowsName(env, args, input, order, b, a);
      } else if OrderIrrelevant(env, args, input, order) {
        OrderShowsAlias(env, args, input, order, a, b);
      }
    }
  }

  // ---- which declared keys are there at all ----

  /** The loop's effect on the presence of one key: declaring it writes it, having it for
      an alias removes it. */
  predicate KeyAfter(args: seq<OperationArg>, key: string, present: bool) {
    if args == [] then present
    else KeyAfter(args[1..], key, args[0].name == key || (CamelCase(args[0].name) != key && present))
  }

  lemma {:induction false} FillKeepsKey(env: Env, args: seq<OperationArg>, out: Input, key: string)
    requires Fill(env, args, out).Ok?
    ensures key in Fill(env, args, out).value <==> KeyAfter(args, key, key in out)
  {
    if args == [] {
    } else {
      var next := FillArg(env, args[0], out).value;
      FillArgKeys(env, args[0], out, key);
      assert key in next <==> Get(next, key).Some?;
      FillKeepsKey(env, args[1..], next, key);
    }
  }

  /** Arg `k` declares the key and no later arg has it for an alias. */
  predicate LastWord(args: seq<OperationArg>, k: nat, key: string) {
    k < |args| && args[k].name == key && forall m :: k < m < |args| ==> CamelCase(args[m].name) != key
  }

  lemma {:induction false} KeyAfterExact(args: seq<OperationArg>, key: string, present: bool)
    ensures KeyAfter(args, key, present) <==>
              || (exists k: nat :: LastWord(args, k, key))
              || (present && forall m :: 0 <= m < |args| ==> CamelCase(args[m].name) != key)
  {
    if args == [] {
    } else {
      var rest := args[1..];
      assert forall m :: 0 <= m < |rest| ==> rest[m] == args[m + 1];
      KeyAfterExact(rest, key, args[0].name == key || (CamelCase(args[0].name) != key && present));
      if k: nat :| LastWord(rest, k, key) {
        assert LastWord(args, k + 1, key);
      }
      if k: nat :| k > 0 && LastWord(args, k, key) {
        assert LastWord(rest, k - 1, key);
      }
      if args[0].name == key && forall m :: 0 <= m < |rest| ==> CamelCase(rest[m].name) != key {
        forall m | 0 < m < |args| ensures CamelCase(args[m].name) != key {
          assert args[m] == rest[m - 1];
        }
        assert LastWord(args, 0, key);
      }
      if LastWord(args, 0, key) {
        forall m | 0 <= m < |rest| ensures CamelCase(rest[m].name) != key {
          assert rest[m] == args[m + 1];
        }
      }
    }
  }

  /** For any arg list, well-formed or not, and any accepted input: a declared arg is in
      the handler's map exactly when no arg after its last declaration has its name for
      an alias. */
  lemma {:induction false} DeclaredArgReachesHandler(env: Env, args: seq<OperationArg>, input: Input,
                                                     order: seq<string>, a: OperationArg)
    requires a in args && Normalize(env, args, input, order).Ok?
    ensures a.name in Normalize(env, args, input, order).value <==> exists k: nat :: LastWord(args, k, a.name)
  {
    var filled := Fill(env, args, input).value;
    NormalizeStages(env, args, input, order);
    assert IsArgKey(args, a.name);
    assert a.name in StripRequestState(args, filled) <==> a.name in filled;
    FillKeepsKey(env, args, input, a.name);
    KeyAfterExact(args, a.name, a.name in input);
    DeclaredOrAliased(args, a);
  }

  /** A declared name without a later alias has a last declaration. */
  lemma {:induction false} DeclaredOrAliased(args: seq<OperationArg>, a: OperationArg)
    requires a in args
    ensures (forall m :: 0 <= m < |args| ==> CamelCase(args[m].name) != a.name) ==>
              exists k: nat :: LastWord(args, k, a.name)
  {
    var k :| 0 <= k < |args| && args[k] == a;
    if forall m :: 0 <= m < |args| ==> CamelCase(args[m].name) != a.name {
      assert LastWord(args, k, a.name);
    }
  }

  function StringOption(name: string): OperationArg {
    OperationArg(name, StringArg, false, "", [], false, false, false, "")
  }

  const PLAIN := StringOption("aB")
  const HYPHENATED := StringOption("a-b")

  lemma CollidingAlias()
    ensures CamelCase("aB") == "aB" && CamelCase("a-b") == "aB"
  {
    CamelCaseFixpoint("aB");
    assert "a-b"[1..] == "-b" && "-b"[1..] == "b" && "b"[1..] == "";
  }

  lemma StringStep(env: Env, name: string, input: Input, rest: Input)
    requires rest == if CamelCase(name) != name then DropKey(input, CamelCase(name)) else input
    ensures var raw := LookupArg(StringOption(name), input);
            && (raw.None? ==> FillArg(env, StringOption(name), input) == Ok(rest[name := Str("")]))
            && (raw == Some(Str("x")) ==> FillArg(env, StringOption(name), input) == Ok(rest[name := Str("x")]))
  {
  }

  lemma FillTwo(env: Env, a: OperationArg, b: OperationArg, x: Input, y: Input, z: Input)
    requires FillArg(env, a, x) == Ok(y) && FillArg(env, b, y) == Ok(z)
    ensures Fill(env, [a, b], x) == Ok(z)
  {
    assert [a, b][1..] == [b] && [b][1..] == [];
    assert Fill(env, [b], y) == Ok(z);
  }

  lemma CollidingFills(env: Env)
    ensures Fill(env, [PLAIN, HYPHENATED], map["aB" := Str("x")]) == Ok(map["a-b" := Str("x")])
    ensures Fill(env, [HYPHENATED, PLAIN], map["aB" := Str("x")]) == Ok(map["a-b" := Str("x"), "aB" := Str("")])
  {
    CollidingAlias();
    var input: Input := map["aB" := Str("x")];
    var moved: Input := map["a-b" := Str("x")];
    var both: Input := map["a-b" := Str("x"), "aB" := Str("")];
    assert DropKey(input, "aB") == map[];
    assert input["aB" := Str("x")] == input && moved["aB" := Str("")] == both;
    StringStep(env, "aB", input, input);
    StringStep(env, "a-b", input, map[]);
    StringStep(env, "aB", moved, moved);
    FillTwo(env, PLAIN, HYPHENATED, input, input, moved);
    FillTwo(env, HYPHENATED, PLAIN, input, moved, both);
  }

  /** Two registrable args whose names collide through an alias: the second one's
      alias deletes the first, which the handler then never sees; declared the other
      way round, both are there. */
  lemma AliasCollision(env: Env)
    ensures Registrable(env, [PLAIN, HYPHENATED]) && !WellFormed([PLAIN, HYPHENATED])
    ensures Normalize(env, [PLAIN, HYPHENATED], map["aB" := Str("x")], ["aB"]) == Ok(map["a-b" := Str("x")])
    ensures Normalize(env, [HYPHENATED, PLAIN], map["aB" := Str("x")], ["aB"])
            == Ok(map["a-b" := Str("x"), "aB" := Str("")])
  {
    CollidingAlias();
    CollidingFills(env);
    assert !Apart([PLAIN, HYPHENATED][0], [PLAIN, HYPHENATED][1]);
    assert PLAIN in [PLAIN, HYPHENATED] && PLAIN in [HYPHENATED, PLAIN];
    OptionalArgsNormalize(env, [PLAIN, HYPHENATED], map["aB" := Str("x")], ["aB"], map["a-b" := Str("x")]);
    OptionalArgsNormalize(env, [HYPHENATED, PLAIN], map["aB" := Str("x")], ["aB"],
                          map["a-b" := Str("x"), "aB" := Str("")]);
  }

  /** Optional args without groups: nothing but the fill decides. */
  lemma {:induction false} OptionalArgsNormalize(env: Env, args: seq<OperationArg>, input: Input, order: seq<string>,
                                                 out: Input)
    requires forall a :: a in args ==> !a.required && a.group == ""
    requires forall k :: k in order ==> k in Names(args)
    requires Fill(env, args, input) == Ok(out) && REQUEST_STATE !in out
    ensures Normalize(env, args, input, order) == Ok(out)
  {
    NoGroups(args);
    FirstMissingExact(env, args, input);
    FirstUnknownExact(KnownKeys(args), order);
    assert DropKey(out, REQUEST_STATE) == out;
  }

  lemma NoGroups(args: seq<OperationArg>)
    requires forall a :: a in args ==> a.group == ""
    ensures GroupOrder(args) == []
  {
    if GroupOrder(args) != [] {
      GroupOrderHolds(args, GroupOrder(args)[0]);
    }
  }

  // ---- a name declared under two types ----

  const AS_BOOL := OperationArg("x", BoolArg, false, "", [], false, false, false, "")
  const AS_NULLABLE := OperationArg("x", NullableBoolArg, false, "", [], false, false, false, "")

  /** Registrable args of one name and two types, without any alias involved: in one order the
      second turn takes over the first one's value and changes it, in the other it refuses it. */
  lemma RepeatedNameDisagrees(env: Env)
    ensures Registrable(env, [AS_BOOL, AS_NULLABLE]) && !OneVoice(env, [AS_BOOL, AS_NULLABLE], "x")
    ensures CollisionsHarmless(env, [AS_BOOL, AS_NULLABLE], map["x" := Bool(true)])
    ensures Normalize(env, [AS_BOOL, AS_NULLABLE], map["x" := Bool(true)], ["x"])
            == Ok(map["x" := BoolPtr(Some(true))])
    ensures Normalize(env, [AS_NULLABLE, AS_BOOL], map["x" := Bool(true)], ["x"]) == Err(BadValue("x"))
  {
    var input: Input := map["x" := Bool(true)];
    CamelCaseFixpoint("x");
    assert input["x" := Bool(true)] == input;
    var stored: Input := map["x" := BoolPtr(Some(true))];
    assert input["x" := BoolPtr(Some(true))] == stored;
    assert FillArg(env, AS_BOOL, input) == Ok(input) && FillArg(env, AS_NULLABLE, input) == Ok(stored);
    FillTwo(env, AS_BOOL, AS_NULLABLE, input, input, stored);
    assert AS_BOOL in [AS_BOOL, AS_NULLABLE];
    OptionalArgsNormalize(env, [AS_BOOL, AS_NULLABLE], input, ["x"], stored);
    RejectedBySecond(env, input, stored);
  }

  lemma RejectedBySecond(env: Env, input: Input, stored: Input)
    requires input == map["x" := Bool(true)] && stored == map["x" := BoolPtr(Some(true))]
    requires FillArg(env, AS_NULLABLE, input) == Ok(stored)
    ensures Normalize(env, [AS_NULLABLE, AS_BOOL], input, ["x"]) == Err(BadValue("x"))
  {
    var args := [AS_NULLABLE, AS_BOOL];
    assert args[1..] == [AS_BOOL];
    assert FillArg(env, AS_BOOL, stored) == Err(BadValue("x"));
    assert Fill(env, args, input) == Err(BadValue("x"));
    FirstMissingExact(env, args, input);
    assert AS_BOOL in args;
    FirstUnknownExact(KnownKeys(args), ["x"]);
  }
}
