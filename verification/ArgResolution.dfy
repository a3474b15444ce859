/** resolveArg and what it leans on (catalog.go): classifying one raw value, coercing
    it to the declared Go shape, declared defaults and zero shapes. */
module ArgResolution {
  import opened Basics
  import opened Ascii
  import opened Decimals
  import opened Args

  datatype ArgState = Absent | Null | Empty | Filled | Invalid

  datatype Resolution = Resolution(value: Value, state: ArgState)

  const INVALID := Resolution(Nil, Invalid)

  function FilledWith(v: Value): Resolution {
    Resolution(v, Filled)
  }

  function FilledOrEmpty(s: string): Resolution {
    Resolution(Str(s), if s == "" then Empty else Filled)
  }

  /** coerceStringSlice on []any: every element must be a string. */
  function Strings(vs: seq<Value>): Option<seq<string>> {
    if vs == [] then Some([])
    else if !vs[0].Str? then None
    else
      match Strings(vs[1..])
      case None => None
      case Some(rest) => Some([vs[0].s] + rest)
  }

  function CoerceStringSlice(raw: Value): Option<seq<string>> {
    match raw
    case StrSlice(ss) => Some(ss)
    case AnySlice(vs) => Strings(vs)
    case _ => None
  }

  /** A float as an int64: only a mathematical integer in [-2^63, 2^63). */
  function FloatAsInt64(f: Float): Option<int> {
    if IsIntegral(f) && FitsInt64(f.r.Floor) then Some(f.r.Floor) else None
  }

  function JsonAsInt64(text: string): Option<int> {
    match ParseInt(text, HALF64)
    case Number(n) => Some(n)
    case _ => None
  }

  function ResolveString(a: OperationArg, raw: Value): Resolution {
    if !raw.Str? then INVALID
    else if raw.s == "" then Resolution(raw, Empty)
    else if a.choices == [] || InChoices(raw.s, a.choices) then FilledWith(raw)
    else INVALID
  }

  predicate InChoices(s: string, choices: seq<string>) {
    exists c :: c in choices && EqualFold(s, c)
  }

  function ResolveFlexibleID(raw: Value): Resolution {
    match raw
    case Str(s) => FilledOrEmpty(s)
    case Num(kind, n) =>
      if kind in {KInt, KInt8, KInt32, KInt64, KUint, KUint64} then FilledWith(Str(FormatInt(n))) else INVALID
    case Float64(f) =>
      var i := FloatAsInt64(f);
      if i.None? then INVALID else FilledWith(Str(FormatInt(i.value)))
    case JsonNumber(text) =>
      var i := JsonAsInt64(text);
      if i.None? then INVALID else FilledWith(Str(FormatInt(i.value)))
    case _ => INVALID
  }

  /** The switch of ArgTypeInt: any accepted shape as an int64. */
  function IntShape(raw: Value): Option<int> {
    match raw
    case Num(kind, n) =>
      if kind in {KInt, KInt8, KInt16, KInt32, KInt64} then Some(n)
      else if kind in {KUint, KUint64} then (if n >= HALF64 then None else Some(n))
      else None
    case JsonNumber(text) => JsonAsInt64(text)
    case Float64(f) => FloatAsInt64(f)
    case _ => None
  }

  function ResolveInt(raw: Value, w: IntWidth): Resolution {
    var i := IntShape(raw);
    if i.None? || WrapInt(i.value, w) != i.value then INVALID
    else FilledWith(Num(KInt, WrapInt(i.value, w)))
  }

  function GuardedIntPtr(i: Option<int>, w: IntWidth): Resolution {
    if i.None? || WrapInt(i.value, w) != i.value then INVALID
    else FilledWith(IntPtr(Some(WrapInt(i.value, w))))
  }

  /** ArgTypeNullableInt: the int64, *int64 and int32 branches convert without a guard. */
  function ResolveNullableInt(raw: Value, w: IntWidth): Resolution {
    match raw
    case IntPtr(_) => FilledWith(raw)
    case Int64Ptr(n) => FilledWith(IntPtr(Some(WrapInt(n, w))))
    case Num(kind, n) =>
      if kind in {KInt, KInt64, KInt32} then FilledWith(IntPtr(Some(WrapInt(n, w))))
      else if kind == KUint64 then GuardedIntPtr(if n >= HALF64 then None else Some(n), w)
      else INVALID
    case JsonNumber(text) => GuardedIntPtr(JsonAsInt64(text), w)
    case Float64(f) => GuardedIntPtr(FloatAsInt64(f), w)
    case _ => INVALID
  }

  function ResolveFloat(env: Env, raw: Value): Resolution {
    match raw
    case Float64(_) => FilledWith(raw)
    case Float32(f) => FilledWith(Float64(f))
    case Num(_, n) => FilledWith(Float64(env.toFloat(n)))
    case JsonNumber(text) =>
      var p := env.parseFloat(text);
      if p.ok then FilledWith(Float64(p.value)) else INVALID
    case _ => INVALID
  }

  function ResolveDuration(env: Env, raw: Value): Resolution {
    match raw
    case Duration(_) => FilledWith(raw)
    case Str(s) =>
      if s == "" then Resolution(Duration(0), Empty)
      else
        var p := env.parseDuration(s);
        if p.ok then FilledWith(Duration(p.ns)) else INVALID
    case _ => INVALID
  }

  function ResolvePresent(env: Env, a: OperationArg, raw: Value): Resolution {
    match a.argType
    case StringSliceArg =>
      (match CoerceStringSlice(raw)
       case None => INVALID
       case Some(ss) => Resolution(StrSlice(ss), if ss == [] then Empty else Filled))
    case StringArg => ResolveString(a, raw)
    case RawJSONArg => if raw.Str? then FilledOrEmpty(raw.s) else FilledWith(raw)
    case FlexibleIDArg => ResolveFlexibleID(raw)
    case BoolArg => if raw.Bool? then FilledWith(raw) else INVALID
    case NullableBoolArg =>
      if raw.Bool? then FilledWith(BoolPtr(Some(raw.b)))
      else if raw.BoolPtr? then FilledWith(raw)
      else INVALID
    case IntArg => ResolveInt(raw, env.width)
    case NullableIntArg => ResolveNullableInt(raw, env.width)
    case FloatArg => ResolveFloat(env, raw)
    case DurationArg => ResolveDuration(env, raw)
  }

  function ResolveArg(env: Env, a: OperationArg, raw: Option<Value>): Resolution {
    match raw
    case None => Resolution(Nil, Absent)
    case Some(v) => if v.Nil? then Resolution(ZeroShape(a.argType), Null) else ResolvePresent(env, a, v)
  }

  function ZeroShape(t: ArgType): Value {
    match t
    case StringSliceArg => StrSlice([])
    case StringArg => Str("")
    case FlexibleIDArg => Str("")
    case RawJSONArg => Nil
    case IntArg => Num(KInt, 0)
    case FloatArg => Float64(Finite(0.0))
    case BoolArg => Bool(false)
    case NullableBoolArg => BoolPtr(None)
    case NullableIntArg => IntPtr(None)
    case DurationArg => Duration(0)
  }

  /** The non-blank trimmed segments of a comma-separated default. */
  function TrimmedSegments(parts: seq<string>): seq<string> {
    if parts == [] then []
    else
      var p := TrimSpace(parts[0]);
      (if p == "" then [] else [p]) + TrimmedSegments(parts[1..])
  }

  function DefaultValue(env: Env, a: OperationArg): Value {
    match a.argType
    case BoolArg => Bool(a.defaultText == "true")
    case NullableBoolArg => BoolPtr(Some(a.defaultText == "true"))
    case IntArg => Num(KInt, Fallback(Atoi(a.defaultText, env.width)))
    case NullableIntArg => IntPtr(Some(Fallback(Atoi(a.defaultText, env.width))))
    case FloatArg => Float64(env.parseFloat(a.defaultText).value)
    case DurationArg => Duration(env.parseDuration(a.defaultText).ns)
    case StringSliceArg => StrSlice(TrimmedSegments(Split(a.defaultText, ',')))
    case RawJSONArg => Str(a.defaultText)
    case StringArg => Str(a.defaultText)
    case FlexibleIDArg => Str(a.defaultText)
  }

  /** validateDefault on a non-empty default. */
  predicate ValidDefault(env: Env, a: OperationArg) {
    match a.argType
    case BoolArg => a.defaultText in {"true", "false"}
    case NullableBoolArg => a.defaultText in {"true", "false"}
    case IntArg => Atoi(a.defaultText, env.width).Number?
    case NullableIntArg => Atoi(a.defaultText, env.width).Number?
    case FloatArg => env.parseFloat(a.defaultText).ok
    case DurationArg => env.parseDuration(a.defaultText).ok
    case _ => true
  }

  /** The checks validateOperation makes on one arg. */
  predicate RegistrableArg(env: Env, a: OperationArg) {
    && !(a.agentOnly && a.required && a.defaultText == "")
    && (a.agentConfirm ==> a.name == "confirm" && a.argType == BoolArg)
    && (a.choices != [] ==> a.argType == StringArg)
    && (a.defaultText != "" && a.choices != [] ==> a.defaultText in a.choices)
    && (a.defaultText != "" ==> ValidDefault(env, a))
  }

  /** What the handler receives for an arg whose raw value is `raw`. */
  function FinalValue(env: Env, a: OperationArg, raw: Option<Value>): Value {
    var r := ResolveArg(env, a, raw);
    if r.state == Filled then r.value
    else if a.defaultText != "" then DefaultValue(env, a)
    else ZeroShape(a.argType)
  }

  /** The Go type a handler may assert for each ArgType; RawJSON promises none. */
  predicate HasShape(t: ArgType, v: Value) {
    match t
    case StringArg => v.Str?
    case FlexibleIDArg => v.Str?
    case BoolArg => v.Bool?
    case NullableBoolArg => v.BoolPtr?
    case IntArg => v.Num? && v.kind == KInt
    case NullableIntArg => v.IntPtr?
    case FloatArg => v.Float64?
    case DurationArg => v.Duration?
    case StringSliceArg => v.StrSlice?
    case RawJSONArg => true
  }

  lemma FinalValueHasShape(env: Env, a: OperationArg, raw: Option<Value>)
    ensures HasShape(a.argType, FinalValue(env, a, raw))
  {
  }

  /** Resolving a coerced value again returns it unchanged. */
  lemma FilledIsStable(env: Env, a: OperationArg, raw: Option<Value>)
    requires ResolveArg(env, a, raw).state == Filled
    ensures var v := ResolveArg(env, a, raw).value;
            !v.Nil? && ResolveArg(env, a, Some(v)) == FilledWith(v)
  {
    if a.argType == FlexibleIDArg {
      var v := ResolveArg(env, a, raw).value;
      assert v.Str? && v.s != "";
    }
  }

  /** A declared default is not Invalid when it comes back as an input, and what it
      then resolves to is the default again. */
  lemma DefaultIsStable(env: Env, a: OperationArg)
    requires RegistrableArg(env, a) && a.defaultText != ""
    ensures ResolveArg(env, a, Some(DefaultValue(env, a))).state != Invalid
    ensures FinalValue(env, a, Some(DefaultValue(env, a))) == DefaultValue(env, a)
  {
    if a.argType == StringArg && a.choices != [] {
      assert EqualFold(a.defaultText, a.defaultText);
      assert InChoices(a.defaultText, a.choices);
    }
  }

  lemma ZeroShapeIsStable(env: Env, a: OperationArg)
    requires a.defaultText == ""
    ensures ResolveArg(env, a, Some(ZeroShape(a.argType))).state != Invalid
    ensures FinalValue(env, a, Some(ZeroShape(a.argType))) == ZeroShape(a.argType)
  {
  }

  /** One arg: whatever the handler was given resolves to itself. */
  lemma FinalValueIsStable(env: Env, a: OperationArg, raw: Option<Value>)
    requires RegistrableArg(env, a)
    ensures var v := FinalValue(env, a, raw);
            && ResolveArg(env, a, Some(v)).state != Invalid
            && FinalValue(env, a, Some(v)) == v
  {
    if ResolveArg(env, a, raw).state == Filled {
      FilledIsStable(env, a, raw);
    } else if a.defaultText != "" {
      DefaultIsStable(env, a);
    } else {
      ZeroShapeIsStable(env, a);
    }
  }
}
