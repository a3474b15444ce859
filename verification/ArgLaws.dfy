/** What coercion of one argument promises: integers are exact, and the spellings
    different frontends use for the same value mean the same. */
module ArgLaws {
  import opened Basics
  import opened Ascii
  import opened Decimals
  import opened Args
  import opened ArgResolution

  /** The integer a raw value denotes, read without any platform in mind. */
  function Denoted(raw: Value): Option<int> {
    match raw
    case Num(_, n) => Some(n)
    case Int64Ptr(n) => Some(n)
    case IntPtr(p) => p
    case Float64(f) => if IsIntegral(f) then Some(f.r.Floor) else None
    case JsonNumber(text) => JsonAsInt64(text)
    case _ => None
  }

  /** An int arg takes a float exactly when it is a mathematical integer of the
      platform's int range, and hands on that very integer. */
  lemma FloatToIntExact(f: Float, n: int, w: IntWidth)
    ensures ResolveInt(Float64(f), w) == FilledWith(Num(KInt, n)) <==> f == Finite(n as real) && FitsInt(n, w)
  {
    if f.Finite? {
      assert (n as real).Floor == n;
    }
  }

  /** No accepted shape ever wraps, whatever the width of int. */
  lemma IntNeverWraps(raw: Value, w: IntWidth)
    requires GoValue(raw, w)
    ensures ResolveInt(raw, w).state in {Filled, Invalid}
    ensures ResolveInt(raw, w).state == Filled ==>
              && Denoted(raw).Some?
              && FitsInt(Denoted(raw).value, w)
              && ResolveInt(raw, w).value == Num(KInt, Denoted(raw).value)
    ensures raw.Num? ==>
              (ResolveInt(raw, w).state == Filled <==> raw.kind !in {KUint8, KUint16, KUint32} && FitsInt(raw.n, w))
  {
  }

  /** An int arg takes a JSON number exactly when it is written as a plain decimal that fits,
      not by the integer it denotes. */
  lemma JsonIntExact(text: string, n: int, w: IntWidth)
    ensures ResolveInt(JsonNumber(text), w) == FilledWith(Num(KInt, n)) <==>
              PlainDecimal(text) && DecimalValue(text) == n && FitsInt(n, w)
    ensures ResolveInt(JsonNumber(text), w).state == Filled <==> PlainDecimal(text) && FitsInt(DecimalValue(text), w)
  {
    ParseIntExact(text, HALF64);
  }

  lemma FormRefused(text: string, w: IntWidth)
    requires |text| == 3 && IsDigit(text[0]) && !IsDigit(text[1])
    ensures ResolveInt(JsonNumber(text), w) == INVALID
  {
    assert Unsigned(text) == text && text[1] in text;
    ParseIntExact(text, HALF64);
  }

  /** So a frontend that keeps JSON numbers and one that decodes them to floats part ways on a
      thousand written with an exponent, and on five written with a fraction. */
  lemma JsonFormsDiverge(w: IntWidth)
    ensures ResolveInt(JsonNumber("1e3"), w) == ResolveInt(JsonNumber("5.0"), w) == INVALID
    ensures ResolveInt(Float64(Finite(1000.0)), w) == FilledWith(Num(KInt, 1000))
    ensures ResolveInt(Float64(Finite(5.0)), w) == FilledWith(Num(KInt, 5))
  {
    FormRefused("1e3", w);
    FormRefused("5.0", w);
    FloatToIntExact(Finite(1000.0), 1000, w);
    FloatToIntExact(Finite(5.0), 5, w);
  }

  /** A nullable int hands on the denoted integer exactly when that integer fits;
      its int64 branches accept one that does not fit and wrap it. */
  lemma NullableIntExactWhenItFits(raw: Value, w: IntWidth)
    requires GoValue(raw, w)
    requires ResolveNullableInt(raw, w).state == Filled && Denoted(raw).Some?
    ensures ResolveNullableInt(raw, w).value == IntPtr(Denoted(raw)) <==> FitsInt(Denoted(raw).value, w)
    ensures w.Int64Bits? ==> ResolveNullableInt(raw, w).value == IntPtr(Denoted(raw))
  {
  }

  lemma NullableIntAgreesWithInt(raw: Value, w: IntWidth)
    requires GoValue(raw, w)
    requires ResolveInt(raw, w).state == Filled && ResolveNullableInt(raw, w).state == Filled
    ensures ResolveNullableInt(raw, w).value == IntPtr(Some(ResolveInt(raw, w).value.n))
  {
  }

  /** Five billion through the unguarded branch of a 32-bit build. */
  lemma NullableIntWrapsOn32Bits()
    ensures GoValue(Num(KInt64, 5_000_000_000), Int32Bits)
    ensures ResolveNullableInt(Num(KInt64, 5_000_000_000), Int32Bits) == FilledWith(IntPtr(Some(705_032_704)))
    ensures ResolveInt(Num(KInt64, 5_000_000_000), Int32Bits) == INVALID
  {
    assert WrapInt(5_000_000_000, Int32Bits) == 705_032_704;
  }

  /** Text, booleans and durations reach the handler as they were given; text must be
      one of the declared choices, whatever its case. */
  lemma ScalarsExact(env: Env, a: OperationArg, raw: Value, v: Value)
    requires !raw.Nil?
    ensures a.argType == StringArg ==>
              (ResolveArg(env, a, Some(raw)) == FilledWith(v) <==>
                && v == raw && raw.Str? && raw.s != ""
                && (a.choices == [] || exists c :: c in a.choices && EqualFold(raw.s, c)))
    ensures a.argType == BoolArg ==> (ResolveArg(env, a, Some(raw)) == FilledWith(v) <==> v == raw && raw.Bool?)
    ensures a.argType == NullableBoolArg ==>
              (ResolveArg(env, a, Some(raw)) == FilledWith(v) <==>
                v.BoolPtr? && (v == raw || (v.pb.Some? && raw == Bool(v.pb.value))))
    ensures a.argType == DurationArg ==>
              (ResolveArg(env, a, Some(raw)) == FilledWith(v) <==>
                && v.Duration?
                && (v == raw
                    || (raw.Str? && raw.s != "" && env.parseDuration(raw.s) == DurationParse(v.ns, true))))
    ensures a.argType == RawJSONArg ==> (ResolveArg(env, a, Some(raw)) == FilledWith(v) <==> v == raw && raw != Str(""))
  {
  }

  /** A float arg takes a float of either width as it is, any native integer through the
      platform's conversion, and a JSON number that parses; nothing else. */
  lemma FloatsExact(env: Env, a: OperationArg, raw: Value, v: Value)
    requires a.argType == FloatArg && !raw.Nil?
    ensures ResolveArg(env, a, Some(raw)) == FilledWith(v) <==>
              && v.Float64?
              && (|| raw == v
                  || raw == Float32(v.f)
                  || (raw.Num? && v.f == env.toFloat(raw.n))
                  || (raw.JsonNumber? && env.parseFloat(raw.text) == FloatParse(v.f, true)))
  {
  }

  /** An id is kept when it is text and printed when it is an integer of an accepted type. */
  lemma FlexibleIDExact(env: Env, a: OperationArg, raw: Value, v: Value)
    requires a.argType == FlexibleIDArg && !raw.Nil?
    ensures ResolveArg(env, a, Some(raw)) == FilledWith(v) <==>
              || (raw.Str? && raw.s != "" && v == raw)
              || (Denoted(raw).Some? && v == Str(FormatInt(Denoted(raw).value))
                  && (raw.Float64? || raw.JsonNumber?
                      || (raw.Num? && raw.kind in {KInt, KInt8, KInt32, KInt64, KUint, KUint64}))
                  && (raw.Float64? ==> FitsInt64(Denoted(raw).value)))
  {
  }

  function Trimmed(parts: seq<string>): set<string> {
    set p | p in parts :: TrimSpace(p)
  }

  /** The segments of a list default: trimmed, without the blank ones. */
  lemma {:induction false} SegmentsKept(parts: seq<string>)
    ensures forall p :: p in TrimmedSegments(parts) <==> p != "" && p in Trimmed(parts)
  {
    if parts == [] {
    } else {
      SegmentsKept(parts[1..]);
      assert parts == [parts[0]] + parts[1..];
      assert Trimmed(parts) == {TrimSpace(parts[0])} + Trimmed(parts[1..]);
    }
  }

  /** `v` is what the text of the declared default says. */
  ghost predicate ReadsDefault(env: Env, a: OperationArg, v: Value) {
    match a.argType
    case BoolArg => v.Bool? && a.defaultText == (if v.b then "true" else "false")
    case NullableBoolArg => v.BoolPtr? && v.pb.Some? && a.defaultText == (if v.pb.value then "true" else "false")
    case IntArg => v.Num? && v.kind == KInt && Atoi(a.defaultText, env.width) == Number(v.n)
    case NullableIntArg => v.IntPtr? && v.pi.Some? && Atoi(a.defaultText, env.width) == Number(v.pi.value)
    case FloatArg => v.Float64? && env.parseFloat(a.defaultText) == FloatParse(v.f, true)
    case DurationArg => v.Duration? && env.parseDuration(a.defaultText) == DurationParse(v.ns, true)
    case StringArg => v == Str(a.defaultText) && (a.choices == [] || a.defaultText in a.choices)
    case StringSliceArg =>
      && v == StrSlice(TrimmedSegments(Split(a.defaultText, ',')))
      && forall p :: p in v.ss <==> p != "" && p in Trimmed(Split(a.defaultText, ','))
    case FlexibleIDArg => v == Str(a.defaultText)
    case RawJSONArg => v == Str(a.defaultText)
  }

  /** Registration leaves no default for the silent fallback. */
  lemma ValidDefaultNeverFallsBack(env: Env, a: OperationArg)
    requires RegistrableArg(env, a) && a.defaultText != ""
    ensures ReadsDefault(env, a, DefaultValue(env, a))
  {
    SegmentsKept(Split(a.defaultText, ','));
  }

  lemma {:induction false} TrimmedSegmentsKeep(parts: seq<string>)
    requires forall p :: p in parts ==> p != "" && TrimSpace(p) == p
    ensures TrimmedSegments(parts) == parts
  {
    if parts == [] {
    } else {
      assert parts[0] in parts;
      assert forall p :: p in parts[1..] ==> p in parts;
      TrimmedSegmentsKeep(parts[1..]);
    }
  }

  /** A default is text; what it was printed from is what the handler gets: an int from
      its decimal form, a string slice from its comma-separated form. */
  lemma PrintedDefaultsRead(env: Env, a: OperationArg, n: int, parts: seq<string>)
    requires FitsInt(n, env.width)
    requires parts != [] && forall p :: p in parts ==> p != "" && ',' !in p && TrimSpace(p) == p
    ensures a.defaultText == FormatInt(n) && a.argType == IntArg ==>
              ValidDefault(env, a) && DefaultValue(env, a) == Num(KInt, n)
    ensures a.defaultText == FormatInt(n) && a.argType == NullableIntArg ==>
              ValidDefault(env, a) && DefaultValue(env, a) == IntPtr(Some(n))
    ensures a.defaultText == Join(parts, ',') && a.argType == StringSliceArg ==> DefaultValue(env, a) == StrSlice(parts)
  {
    FormattedIntParses(n, Half(env.width));
    SplitOfJoin(parts, ',');
    TrimmedSegmentsKeep(parts);
  }

  /** Absent, null and explicitly empty. */
  predicate Blank(t: ArgType, x: Option<Value>) {
    || x.None?
    || x.value.Nil?
    || (t in {StringArg, FlexibleIDArg, RawJSONArg, DurationArg} && x.value == Str(""))
    || (t == StringSliceArg && (x.value == StrSlice([]) || x.value == AnySlice([])))
  }

  predicate SpellsStrings(v: Value, ss: seq<string>) {
    || v == StrSlice(ss)
    || (v.AnySlice? && |v.vs| == |ss| && forall i :: 0 <= i < |ss| ==> v.vs[i] == Str(ss[i]))
  }

  /** A native integer, an integral float, or a JSON number written in plain decimals for `n`. */
  predicate SpellsInt(v: Value, n: int) {
    match v
    case Num(kind, m) => m == n && kind !in {KUint8, KUint16, KUint32}
    case Float64(f) => f == Finite(n as real)
    case JsonNumber(text) => PlainDecimal(text) && DecimalValue(text) == n
    case _ => false
  }

  /** Two raw values for the same arg that differ only in how a frontend writes them. */
  ghost predicate Converge(a: OperationArg, x: Option<Value>, y: Option<Value>) {
    || x == y
    || (Blank(a.argType, x) && Blank(a.argType, y))
    || (x.Some? && y.Some? && a.argType == StringSliceArg &&
        exists ss :: SpellsStrings(x.value, ss) && SpellsStrings(y.value, ss))
    || (x.Some? && y.Some? && a.argType == IntArg && SameInt(x.value, y.value))
  }

  ghost predicate SameInt(x: Value, y: Value) {
    exists n :: SpellsInt(x, n) && SpellsInt(y, n)
  }

  lemma {:induction false} StringsOf(vs: seq<Value>, ss: seq<string>)
    requires |vs| == |ss| && forall i :: 0 <= i < |ss| ==> vs[i] == Str(ss[i])
    ensures Strings(vs) == Some(ss)
  {
    if vs == [] {
    } else {
      StringsOf(vs[1..], ss[1..]);
      assert ss == [ss[0]] + ss[1..];
    }
  }

  lemma SpelledStringsCoerce(v: Value, ss: seq<string>)
    requires SpellsStrings(v, ss)
    ensures CoerceStringSlice(v) == Some(ss)
  {
    if v.AnySlice? {
      StringsOf(v.vs, ss);
    }
  }

  lemma SpelledIntsResolve(v: Value, n: int, w: IntWidth)
    requires SpellsInt(v, n)
    requires GoValue(v, w)
    ensures ResolveInt(v, w) == if FitsInt(n, w) then FilledWith(Num(KInt, n)) else INVALID
  {
    if v.Float64? {
      FloatToIntExact(v.f, n, w);
      assert (n as real).Floor == n;
    } else if v.JsonNumber? {
      ParseIntExact(v.text, HALF64);
    }
  }

  // ---- every type at once ----

  /** `n` is what `raw` says where an int type accepts floats and JSON numbers: an integral
      float, or a JSON number in plain decimals. */
  predicate DecodedInt(raw: Value, n: int) {
    || raw == Float64(Finite(n as real))
    || (raw.JsonNumber? && PlainDecimal(raw.text) && DecimalValue(raw.text) == n)
  }

  /** A raw value that is not blank, and the value the handler gets for it. */
  ghost predicate Reads(env: Env, a: OperationArg, raw: Value, v: Value) {
    match a.argType
    case StringArg =>
      && v == raw && raw.Str? && raw.s != ""
      && (a.choices == [] || exists c :: c in a.choices && EqualFold(raw.s, c))
    case BoolArg => v == raw && raw.Bool?
    case NullableBoolArg => v.BoolPtr? && (v == raw || (v.pb.Some? && raw == Bool(v.pb.value)))
    case IntArg =>
      && v.Num? && v.kind == KInt && FitsInt(v.n, env.width)
      && (|| (raw.Num? && raw.n == v.n && raw.kind in {KInt, KInt8, KInt16, KInt32, KInt64})
          || (raw.Num? && raw.n == v.n && raw.kind in {KUint, KUint64} && FitsInt64(raw.n))
          || (DecodedInt(raw, v.n) && FitsInt64(v.n)))
    case NullableIntArg =>
      && v.IntPtr?
      && (|| v == raw
          || (v.pi.Some? &&
              (|| (raw.Int64Ptr? && v.pi.value == WrapInt(raw.pn, env.width))
               || (raw.Num? && raw.kind in {KInt, KInt32, KInt64} && v.pi.value == WrapInt(raw.n, env.width))
               || (raw.Num? && raw.kind == KUint64 && v.pi.value == raw.n
                   && FitsInt(raw.n, env.width) && FitsInt64(raw.n))
               || (DecodedInt(raw, v.pi.value) && FitsInt(v.pi.value, env.width) && FitsInt64(v.pi.value)))))
    case FloatArg =>
      && v.Float64?
      && (|| raw == v
          || raw == Float32(v.f)
          || (raw.Num? && v.f == env.toFloat(raw.n))
          || (raw.JsonNumber? && env.parseFloat(raw.text) == FloatParse(v.f, true)))
    case DurationArg =>
      v.Duration? && (v == raw || (raw.Str? && raw.s != "" && env.parseDuration(raw.s) == DurationParse(v.ns, true)))
    case StringSliceArg => v.StrSlice? && v.ss != [] && SpellsStrings(raw, v.ss)
    case FlexibleIDArg =>
      || (v == raw && raw.Str? && raw.s != "")
      || (raw.Num? && raw.kind in {KInt, KInt8, KInt32, KInt64, KUint, KUint64} && v == Str(FormatInt(raw.n)))
      || exists n :: DecodedInt(raw, n) && FitsInt64(n) && v == Str(FormatInt(n))
    case RawJSONArg => v == raw && raw != Str("") && raw != Nil
  }

  /** The three states that stand for "not given", and nothing else: absent, null, and the
      empty text or list. */
  lemma BlankExactly(env: Env, a: OperationArg, raw: Option<Value>)
    ensures ResolveArg(env, a, raw).state in {Absent, Null, Empty} <==> Blank(a.argType, raw)
    ensures ResolveArg(env, a, raw).state == Absent <==> raw == None
    ensures ResolveArg(env, a, raw).state == Null <==> raw == Some(Nil)
  {
    if a.argType == StringSliceArg && raw.Some? && raw.value.AnySlice? && Strings(raw.value.vs).Some? {
      StringsSpell(raw.value.vs);
    }
  }

  lemma {:induction false} StringsSpell(vs: seq<Value>)
    requires Strings(vs).Some?
    ensures SpellsStrings(AnySlice(vs), Strings(vs).value)
  {
    if vs == [] {
    } else {
      StringsSpell(vs[1..]);
    }
  }

  /** Accepted, and as what: for every type and every raw value. */
  lemma {:induction false} FilledExactly(env: Env, a: OperationArg, raw: Value, v: Value)
    requires !Blank(a.argType, Some(raw))
    ensures ResolveArg(env, a, Some(raw)) == FilledWith(v) <==> Reads(env, a, raw, v)
  {
    match a.argType
    case IntArg => FilledIntExactly(raw, v, env.width);
    case NullableIntArg => FilledNullableIntExactly(raw, v, env.width);
    case FlexibleIDArg => FilledIDExactly(env, a, raw, v);
    case StringSliceArg => FilledListExactly(raw, v);
    case FloatArg => FloatsExact(env, a, raw, v);
    case _ => ScalarsExact(env, a, raw, v);
  }

  lemma DecodedExactly(raw: Value, n: int)
    ensures raw.Float64? ==> (FloatAsInt64(raw.f) == Some(n) <==> DecodedInt(raw, n) && FitsInt64(n))
    ensures raw.JsonNumber? ==> (JsonAsInt64(raw.text) == Some(n) <==> DecodedInt(raw, n) && FitsInt64(n))
  {
    if raw.JsonNumber? {
      ParseIntExact(raw.text, HALF64);
    }
    assert (n as real).Floor == n;
  }

  lemma FilledIntExactly(raw: Value, v: Value, w: IntWidth)
    ensures ResolveInt(raw, w) == FilledWith(v) <==>
              && v.Num? && v.kind == KInt && FitsInt(v.n, w)
              && (|| (raw.Num? && raw.n == v.n && raw.kind in {KInt, KInt8, KInt16, KInt32, KInt64})
                  || (raw.Num? && raw.n == v.n && raw.kind in {KUint, KUint64} && FitsInt64(raw.n))
                  || (DecodedInt(raw, v.n) && FitsInt64(v.n)))
  {
    if v.Num? {
      DecodedExactly(raw, v.n);
    }
  }

  /** A nullable int takes a pointer, int, int32 and int64 as they come, and an uint64, an
      integral float or a plain JSON number that fits. */
  lemma FilledNullableIntExactly(raw: Value, v: Value, w: IntWidth)
    ensures ResolveNullableInt(raw, w) == FilledWith(v) <==>
              && v.IntPtr?
              && (|| v == raw
                  || (v.pi.Some? &&
                      (|| (raw.Int64Ptr? && v.pi.value == WrapInt(raw.pn, w))
                       || (raw.Num? && raw.kind in {KInt, KInt32, KInt64} && v.pi.value == WrapInt(raw.n, w))
                       || (raw.Num? && raw.kind == KUint64 && v.pi.value == raw.n
                           && FitsInt(raw.n, w) && FitsInt64(raw.n))
                       || (DecodedInt(raw, v.pi.value) && FitsInt(v.pi.value, w) && FitsInt64(v.pi.value)))))
  {
    if v.IntPtr? && v.pi.Some? {
      DecodedExactly(raw, v.pi.value);
    }
  }

  lemma FilledIDExactly(env: Env, a: OperationArg, raw: Value, v: Value)
    requires a.argType == FlexibleIDArg && !Blank(a.argType, Some(raw))
    ensures ResolveArg(env, a, Some(raw)) == FilledWith(v) <==> Reads(env, a, raw, v)
  {
    FlexibleIDExact(env, a, raw, v);
    forall n ensures raw.Float64? || raw.JsonNumber? ==>
                       (Denoted(raw) == Some(n) && FitsInt64(n) <==> DecodedInt(raw, n) && FitsInt64(n)) {
      DecodedExactly(raw, n);
      assert (n as real).Floor == n;
    }
    if raw.JsonNumber? {
      ParseIntExact(raw.text, HALF64);
    }
  }

  lemma FilledListExactly(raw: Value, v: Value)
    requires !Blank(StringSliceArg, Some(raw))
    ensures (CoerceStringSlice(raw).Some? && v == StrSlice(CoerceStringSlice(raw).value)) <==>
              v.StrSlice? && v.ss != [] && SpellsStrings(raw, v.ss)
  {
    if CoerceStringSlice(raw).Some? && raw.AnySlice? {
      StringsSpell(raw.vs);
    }
    if v.StrSlice? && SpellsStrings(raw, v.ss) {
      SpelledStringsCoerce(raw, v.ss);
    }
  }

  /** Both spellings are accepted or rejected alike and reach the handler as one value. */
  lemma ConvergingValuesAgree(env: Env, a: OperationArg, x: Option<Value>, y: Option<Value>)
    requires Converge(a, x, y)
    requires x.Some? ==> GoValue(x.value, env.width)
    requires y.Some? ==> GoValue(y.value, env.width)
    ensures ResolveArg(env, a, x).state == Filled <==> ResolveArg(env, a, y).state == Filled
    ensures ResolveArg(env, a, x).state == Invalid <==> ResolveArg(env, a, y).state == Invalid
    ensures FinalValue(env, a, x) == FinalValue(env, a, y)
  {
    if x == y || (Blank(a.argType, x) && Blank(a.argType, y)) {
    } else if a.argType == StringSliceArg {
      var ss :| SpellsStrings(x.value, ss) && SpellsStrings(y.value, ss);
      SpelledStringsCoerce(x.value, ss);
      SpelledStringsCoerce(y.value, ss);
    } else {
      var n :| SpellsInt(x.value, n) && SpellsInt(y.value, n);
      SpelledIntsResolve(x.value, n, env.width);
      SpelledIntsResolve(y.value, n, env.width);
    }
  }

  /** The loop of coerceStringSlice: convert element by element, stop at a non-string. */
  method CoerceAnySlice(vs: seq<Value>) returns (out: Option<seq<string>>)
    ensures out.Some? <==> forall i :: 0 <= i < |vs| ==> vs[i].Str?
    ensures out.Some? ==> SpellsStrings(AnySlice(vs), out.value)
    ensures out == CoerceStringSlice(AnySlice(vs))
  {
    var strings := [];
    for i := 0 to |vs|
      invariant |strings| == i
      invariant forall j :: 0 <= j < i ==> vs[j] == Str(strings[j])
    {
      if !vs[i].Str? {
        NonStringRejected(vs, i);
        return None;
      }
      strings := strings + [vs[i].s];
    }
    StringsOf(vs, strings);
    return Some(strings);
  }

  lemma {:induction false} NonStringRejected(vs: seq<Value>, i: nat)
    requires i < |vs| && !vs[i].Str?
    ensures Strings(vs).None?
  {
    if i > 0 && vs[0].Str? {
      NonStringRejected(vs[1..], i - 1);
    }
  }
}
