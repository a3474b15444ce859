/** Argument declarations (operation.go) and the untyped values that frontends pass in. */
module Args {
  import opened Basics
  import opened Decimals

  datatype ArgType =
    | StringArg | BoolArg | NullableBoolArg | NullableIntArg | IntArg
    | FloatArg | DurationArg | StringSliceArg | FlexibleIDArg | RawJSONArg

  datatype OperationArg = OperationArg(
    name: string,
    argType: ArgType,
    required: bool,
    defaultText: string,
    choices: seq<string>,
    agentRequired: bool,
    agentConfirm: bool,
    agentOnly: bool,
    group: string)

  /** Go's native integer types; the width of int and uint is the platform's. */
  datatype IntKind = KInt | KInt8 | KInt16 | KInt32 | KInt64 | KUint | KUint8 | KUint16 | KUint32 | KUint64

  datatype Float = Finite(r: real) | PosInf | NegInf | NaN

  /** One `any` value. Pointers are compared by what they point to; `Int64Ptr` is a
      non-nil *int64; `Other` stands for every Go value no branch of the code names. */
  datatype Value =
    | Nil
    | Str(s: string)
    | Bool(b: bool)
    | BoolPtr(pb: Option<bool>)
    | IntPtr(pi: Option<int>)
    | Int64Ptr(pn: int)
    | Num(kind: IntKind, n: int)
    | Float64(f: Float)
    | Float32(f32: Float)
    | JsonNumber(text: string)
    | Duration(ns: int)
    | StrSlice(ss: seq<string>)
    | AnySlice(vs: seq<Value>)
    | Other(tag: int)

  type Input = map<string, Value>

  datatype FloatParse = FloatParse(value: Float, ok: bool)

  datatype DurationParse = DurationParse(ns: int, ok: bool)

  /** The platform: the width of int, and the library calls whose results are taken as given. */
  datatype Env = Env(
    width: IntWidth,
    toFloat: int -> Float,
    parseFloat: string -> FloatParse,
    parseDuration: string -> DurationParse,
    truncateFloat: Float -> int)

  /** The range of values a Go integer type holds. */
  predicate InKind(n: int, kind: IntKind, w: IntWidth) {
    match kind
    case KInt => FitsInt(n, w)
    case KInt8 => -0x80 <= n < 0x80
    case KInt16 => -0x8000 <= n < 0x8000
    case KInt32 => -HALF32 <= n < HALF32
    case KInt64 => FitsInt64(n)
    case KUint => 0 <= n < 2 * Half(w)
    case KUint8 => 0 <= n < 0x100
    case KUint16 => 0 <= n < 0x1_0000
    case KUint32 => 0 <= n < 2 * HALF32
    case KUint64 => 0 <= n < 2 * HALF64
  }

  /** The ranges in figures. */
  lemma KindRanges(n: int, w: IntWidth)
    ensures InKind(n, KInt8, w) <==> -128 <= n <= 127
    ensures InKind(n, KInt16, w) <==> -32_768 <= n <= 32_767
    ensures InKind(n, KInt32, w) <==> FitsInt(n, Int32Bits)
    ensures InKind(n, KInt64, w) <==> FitsInt(n, Int64Bits)
    ensures InKind(n, KInt, w) <==> FitsInt(n, w)
    ensures InKind(n, KUint8, w) <==> 0 <= n <= 255
    ensures InKind(n, KUint16, w) <==> 0 <= n <= 65_535
    ensures InKind(n, KUint32, w) <==> 0 <= n <= 4_294_967_295
    ensures InKind(n, KUint64, w) <==> 0 <= n <= 18_446_744_073_709_551_615
    ensures InKind(n, KUint, w) <==> InKind(n, if w.Int32Bits? then KUint32 else KUint64, w)
  {
  }

  /** `v` can exist in a Go program built for width `w`. */
  predicate GoValue(v: Value, w: IntWidth) {
    match v
    case Num(kind, n) => InKind(n, kind, w)
    case IntPtr(p) => p.None? || FitsInt(p.value, w)
    case Int64Ptr(n) => FitsInt64(n)
    case _ => true
  }

  predicate IsIntegral(f: Float) {
    f.Finite? && f.r == f.r.Floor as real
  }

  function Get(input: Input, key: string): Option<Value> {
    if key in input then Some(input[key]) else None
  }

  /** Go map indexing: a missing key reads as nil. */
  function GetOrNil(input: Input, key: string): Value {
    if key in input then input[key] else Nil
  }

  function DropKey(input: Input, key: string): Input {
    map k | k in input && k != key :: input[k]
  }
}
