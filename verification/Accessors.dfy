/** The readers handlers use on a normalized map (accessors.go), and the integer ids
    of catalogops/workspaces.go. */
module Accessors {
  import opened Basics
  import opened Decimals
  import opened Args
  import opened ArgResolution
  import opened ArgLaws
  import opened Normalizer
  import opened NormalizerLaws

  function StrArg(input: Input, key: string, def: string): string {
    match Get(input, key)
    case Some(Str(s)) => if s != "" then s else def
    case _ => def
  }

  function BoolArgOf(input: Input, key: string, def: bool): bool {
    match Get(input, key)
    case Some(Bool(b)) => b
    case _ => def
  }

  function StrFlexibleArg(env: Env, input: Input, key: string, def: string): string {
    match Get(input, key)
    case Some(Str(s)) => if s != "" then s else def
    case Some(Float64(f)) => FormatInt(env.truncateFloat(f))
    case Some(Float32(f)) => FormatInt(env.truncateFloat(f))
    case Some(Num(kind, n)) => if kind in {KInt, KInt64} then FormatInt(n) else def
    case Some(JsonNumber(text)) =>
      var i := JsonAsInt64(text);
      if i.Some? then FormatInt(i.value) else def
    case _ => def
  }

  function IntArgOf(env: Env, input: Input, key: string, def: int): int {
    match Get(input, key)
    case Some(Num(kind, n)) => if kind == KInt then n else if kind == KInt64 then WrapInt(n, env.width) else def
    case Some(Float64(f)) => env.truncateFloat(f)
    case Some(JsonNumber(text)) =>
      var i := JsonAsInt64(text);
      if i.Some? then WrapInt(i.value, env.width) else def
    case Some(Str(s)) =>
      var p := Atoi(s, env.width);
      if p.Number? then p.n else def
    case _ => def
  }

  /** The readers on any map: text only when it is text and not empty, a bool only when it is
      one, and a number from every shape the readers tolerate. */
  lemma ReadersExactly(env: Env, input: Input, key: string, text: string, flag: bool, n: int)
    ensures StrArg(input, key, text) ==
              match Get(input, key)
              case Some(Str(s)) => if |s| == 0 then text else s
              case _ => text
    ensures BoolArgOf(input, key, flag) == if Get(input, key) == Some(Bool(!flag)) then !flag else flag
    ensures match Get(input, key)
            case Some(Num(KInt, m)) => IntArgOf(env, input, key, n) == m
            case Some(Num(KInt64, m)) => IntArgOf(env, input, key, n) == WrapInt(m, env.width)
            case Some(Float64(f)) => IntArgOf(env, input, key, n) == env.truncateFloat(f)
            case Some(JsonNumber(t)) =>
              IntArgOf(env, input, key, n) ==
                if PlainDecimal(t) && FitsInt64(DecimalValue(t)) then WrapInt(DecimalValue(t), env.width) else n
            case Some(Str(t)) =>
              IntArgOf(env, input, key, n) ==
                if PlainDecimal(t) && FitsInt(DecimalValue(t), env.width) then DecimalValue(t) else n
            case _ => IntArgOf(env, input, key, n) == n
    ensures match Get(input, key)
            case Some(Str(s)) => StrFlexibleArg(env, input, key, text) == if |s| == 0 then text else s
            case Some(Num(KInt, m)) => StrFlexibleArg(env, input, key, text) == FormatInt(m)
            case Some(Num(KInt64, m)) => StrFlexibleArg(env, input, key, text) == FormatInt(m)
            case Some(Float64(f)) => StrFlexibleArg(env, input, key, text) == FormatInt(env.truncateFloat(f))
            case Some(Float32(f)) => StrFlexibleArg(env, input, key, text) == FormatInt(env.truncateFloat(f))
            case Some(JsonNumber(t)) =>
              StrFlexibleArg(env, input, key, text) ==
                if PlainDecimal(t) && FitsInt64(DecimalValue(t)) then FormatInt(DecimalValue(t)) else text
            case _ => StrFlexibleArg(env, input, key, text) == text
  {
    match Get(input, key)
    case Some(JsonNumber(t)) => ParseIntExact(t, HALF64);
    case Some(Str(t)) => ParseIntExact(t, Half(env.width));
    case _ =>
  }

  datatype IdError = IdRequired | NotNumeric

  function RequireWorkspaceID(env: Env, input: Input): Result<string, IdError> {
    var id := StrFlexibleArg(env, input, "id", "");
    if id == "" then Err(IdRequired) else Ok(id)
  }

  function WorkspaceIDToInt(env: Env, input: Input, key: string): Result<int, IdError> {
    var s := StrFlexibleArg(env, input, key, "");
    if s == "" then Err(IdRequired)
    else
      match Atoi(s, env.width)
      case Number(n) => Ok(n)
      case _ => Err(NotNumeric)
  }

  /** The id readers: a missing id is reported as such, and the numeric form needs a plain
      decimal that fits int. */
  lemma IDsExactly(env: Env, input: Input, key: string)
    ensures var s := StrFlexibleArg(env, input, "id", "");
            RequireWorkspaceID(env, input) == if |s| == 0 then Err(IdRequired) else Ok(s)
    ensures var s := StrFlexibleArg(env, input, key, "");
            WorkspaceIDToInt(env, input, key) ==
              if |s| == 0 then Err(IdRequired)
              else if PlainDecimal(s) && FitsInt(DecimalValue(s), env.width) then Ok(DecimalValue(s))
              else Err(NotNumeric)
  {
    ParseIntExact(StrFlexibleArg(env, input, key, ""), Half(env.width));
  }

  lemma {:induction false} OutputValue(env: Env, args: seq<OperationArg>, input: Input, order: seq<string>,
                                       a: OperationArg)
    requires WellFormed(args) && a in args
    requires Normalize(env, args, input, order).Ok?
    ensures Get(Normalize(env, args, input, order).value, a.name) == Some(FinalOf(env, a, input))
  {
    NormalizeMeaning(env, args, input, order);
  }

  /** An accepted output, arg by arg and in terms of what was given. What is not blank is what
      the raw value says in the declared type. What is blank is the declared default, and
      without one the zero of the type: a nil pointer, not a pointer to zero, for the
      nullable ones. */
  lemma {:induction false} HandedOnExactly(env: Env, args: seq<OperationArg>, input: Input, order: seq<string>,
                                           a: OperationArg)
    requires WellFormed(args) && a in args && Normalize(env, args, input, order).Ok?
    ensures var out, raw := Normalize(env, args, input, order).value, LookupArg(a, input);
            && a.name in out
            && (!Blank(a.argType, raw) ==> Reads(env, a, raw.value, out[a.name]))
            && (Blank(a.argType, raw) && a.defaultText != "" && RegistrableArg(env, a) ==>
                  ReadsDefault(env, a, out[a.name]))
            && (Blank(a.argType, raw) && a.defaultText == "" ==>
                  match a.argType
                  case StringArg => out[a.name] == Str("")
                  case FlexibleIDArg => out[a.name] == Str("")
                  case RawJSONArg => out[a.name] == Nil
                  case BoolArg => out[a.name] == Bool(false)
                  case NullableBoolArg => out[a.name] == BoolPtr(None)
                  case IntArg => out[a.name] == Num(KInt, 0)
                  case NullableIntArg => out[a.name] == IntPtr(None)
                  case FloatArg => out[a.name] == Float64(Finite(0.0))
                  case DurationArg => out[a.name] == Duration(0)
                  case StringSliceArg => out[a.name] == StrSlice([]))
  {
    var raw := LookupArg(a, input);
    NormalizeMeaning(env, args, input, order);
    OutputValue(env, args, input, order, a);
    BlankExactly(env, a, raw);
    if Blank(a.argType, raw) {
      if a.defaultText != "" && RegistrableArg(env, a) {
        ValidDefaultNeverFallsBack(env, a);
      }
    } else {
      assert ResolveArg(env, a, raw).state == Filled;
      FilledSame(env, a, raw.value);
      FilledExactly(env, a, raw.value, FinalOf(env, a, input));
    }
  }

  lemma FilledSame(env: Env, a: OperationArg, raw: Value)
    requires ResolveArg(env, a, Some(raw)).state == Filled
    ensures ResolveArg(env, a, Some(raw)) == FilledWith(FinalValue(env, a, Some(raw)))
  {
  }

  /** A value is refused exactly when it is not blank and says nothing in the declared type. */
  lemma {:induction false} RefusedExactly(env: Env, a: OperationArg, input: Input)
    ensures StateOf(env, a, input) == Invalid <==>
              && !Blank(a.argType, LookupArg(a, input))
              && forall v :: !Reads(env, a, LookupArg(a, input).value, v)
  {
    var raw := LookupArg(a, input);
    BlankExactly(env, a, raw);
    if !Blank(a.argType, raw) {
      forall v ensures ResolveArg(env, a, raw) == FilledWith(v) <==> Reads(env, a, raw.value, v) {
        FilledExactly(env, a, raw.value, v);
      }
      if StateOf(env, a, input) == Filled {
        FilledSame(env, a, raw.value);
      }
    }
  }

  lemma IntegerIDPrints(env: Env, a: OperationArg, raw: Value)
    requires a.argType == FlexibleIDArg
    requires ResolveArg(env, a, Some(raw)).state == Filled && Denoted(raw).Some?
    ensures FinalValue(env, a, Some(raw)) == Str(FormatInt(Denoted(raw).value))
  {
  }

  lemma PrintedIDReadsBack(env: Env, input: Input, key: string, n: int)
    requires Get(input, key) == Some(Str(FormatInt(n)))
    ensures WorkspaceIDToInt(env, input, key) == if FitsInt(n, env.width) then Ok(n) else Err(NotNumeric)
  {
    assert FormatInt(n) != "";
    var p := Atoi(FormatInt(n), env.width);
    if FitsInt(n, env.width) {
      FormattedIntParses(n, Half(env.width));
    } else if p.Number? {
      PrintedDetermines(n, p.n, env.width);
    }
  }

  /** An integer given for a flexible id is printed by the normalizer and read back by
      the handler as the same integer, exactly when it fits the platform's int. */
  lemma {:induction false} FlexibleIDRoundTrip(env: Env, args: seq<OperationArg>, input: Input, order: seq<string>,
                                               a: OperationArg)
    requires WellFormed(args) && a in args && a.argType == FlexibleIDArg
    requires Normalize(env, args, input, order).Ok?
    requires StateOf(env, a, input) == Filled && LookupArg(a, input).Some? && Denoted(LookupArg(a, input).value).Some?
    ensures var out := Normalize(env, args, input, order).value;
            var n := Denoted(LookupArg(a, input).value).value;
            WorkspaceIDToInt(env, out, a.name) == if FitsInt(n, env.width) then Ok(n) else Err(NotNumeric)
  {
    var raw := LookupArg(a, input).value;
    OutputValue(env, args, input, order, a);
    IntegerIDPrints(env, a, raw);
    PrintedIDReadsBack(env, Normalize(env, args, input, order).value, a.name, Denoted(raw).value);
  }

  /** A required flexible id is there when the handler asks for it. */
  lemma {:induction false} RequiredIDIsPresent(env: Env, args: seq<OperationArg>, input: Input, order: seq<string>,
                                               a: OperationArg)
    requires WellFormed(args) && a in args && a.name == "id" && a.argType == FlexibleIDArg && IsRequired(a)
    requires Normalize(env, args, input, order).Ok?
    ensures RequireWorkspaceID(env, Normalize(env, args, input, order).value).Ok?
    ensures Str(RequireWorkspaceID(env, Normalize(env, args, input, order).value).value) == FinalOf(env, a, input)
  {
    NormalizeMeaning(env, args, input, order);
    OutputValue(env, args, input, order, a);
    FilledIDIsText(env, a, LookupArg(a, input));
  }

  lemma FilledIDIsText(env: Env, a: OperationArg, raw: Option<Value>)
    requires a.argType == FlexibleIDArg && ResolveArg(env, a, raw).state == Filled
    ensures FinalValue(env, a, raw).Str? && FinalValue(env, a, raw).s != ""
  {
  }

  /** Two numbers never print alike, so a text cannot parse to a number it does not print. */
  lemma PrintedDetermines(n: int, m: int, w: IntWidth)
    requires Atoi(FormatInt(n), w) == Number(m)
    ensures n == m
  {
    var bound := Half(w) + (if n < 0 then -n else n) + 1;
    FormattedIntParses(n, bound);
    ParseIntWider(FormatInt(n), Half(w), bound);
  }

  lemma ParseIntWider(s: string, half: int, wider: int)
    requires 0 < half <= wider && ParseInt(s, half).Number?
    ensures ParseInt(s, wider) == ParseInt(s, half)
  {
    var digits := if s[0] == '-' || s[0] == '+' then s[1..] else s;
    ScanWider(0, digits, 2 * half - 1, 2 * wider - 1);
  }

  lemma {:induction false} ScanWider(acc: nat, s: string, max: nat, wider: nat)
    requires max <= wider && ScanUint(acc, s, max).Number?
    ensures ScanUint(acc, s, wider) == ScanUint(acc, s, max)
    decreases s
  {
    if s == "" {
    } else {
      ScanWider(acc * 10 + DigitValue(s[0]), s[1..], max, wider);
    }
  }

  lemma ReadersSeeShape(env: Env, out: Input, key: string, t: ArgType, v: Value)
    requires Get(out, key) == Some(v) && HasShape(t, v)
    ensures t == BoolArg ==> forall d :: Bool(BoolArgOf(out, key, d)) == v
    ensures t == IntArg ==> forall d :: Num(KInt, IntArgOf(env, out, key, d)) == v
    ensures t == StringArg ==> forall d :: Str(StrArg(out, key, d)) == if v == Str("") then Str(d) else v
    ensures t == FlexibleIDArg ==>
              forall d :: Str(StrFlexibleArg(env, out, key, d)) == if v == Str("") then Str(d) else v
  {
  }

  /** Every reader finds the declared shape and returns what is stored; only for the empty
      text do the text readers return the default they were given. */
  lemma {:induction false} ReadersSeeNormalizedValue(env: Env, args: seq<OperationArg>, input: Input,
                                                     order: seq<string>, a: OperationArg)
    requires WellFormed(args) && a in args
    requires Normalize(env, args, input, order).Ok?
    ensures var out, v := Normalize(env, args, input, order).value, FinalOf(env, a, input);
            && (a.argType == BoolArg ==> forall d :: Bool(BoolArgOf(out, a.name, d)) == v)
            && (a.argType == IntArg ==> forall d :: Num(KInt, IntArgOf(env, out, a.name, d)) == v)
            && (a.argType == StringArg ==>
                  forall d :: Str(StrArg(out, a.name, d)) == if v == Str("") then Str(d) else v)
            && (a.argType == FlexibleIDArg ==>
                  forall d :: Str(StrFlexibleArg(env, out, a.name, d)) == if v == Str("") then Str(d) else v)
  {
    OutputValue(env, args, input, order, a);
    FinalValueHasShape(env, a, LookupArg(a, input));
    ReadersSeeShape(env, Normalize(env, args, input, order).value, a.name, a.argType, FinalOf(env, a, input));
  }
}
