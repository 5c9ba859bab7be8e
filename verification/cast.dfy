/** The type-cast layer: the field types the model covers, their values,
    `FromStr` for each (`cast_value`, lib.rs:336-341) and `Default`. */
module Cast {
  import opened Wrappers
  import opened Text
  import opened Optionals

  /** `usize::MAX` on a 64-bit target. */
  const UsizeMax: nat := 18446744073709551615

  /** The declared type of a field. `StringType` and `PathType` stand for
      `String` and `PathBuf`, whose parsers accept every text. */
  datatype FieldType = BoolType | StringType | PathType | UsizeType | OptionalOf(inner: FieldType)

  datatype Value = BoolVal(b: bool) | TextVal(s: string) | UsizeVal(n: nat) | OptVal(o: Optional<Value>)

  /** The errors the crate raises, by kind: a declared default its type
      rejects, a dash token sitting in a required positional slot, and a
      supplied text its type rejects. The crate's error for a rejected
      default is the type's own parse error; the field and text
      `InvalidDefault` carries are the model's, to name the declaration. */
  datatype ArgError =
    | InvalidDefault(field: string, text: string)
    | MissingPositional(field: string, token: string)
    | InvalidValue(raw: string)

  /** `v` is a value of type `t`. */
  predicate HasType(v: Value, t: FieldType) {
    match t
    case BoolType => v.BoolVal?
    case StringType => v.TextVal?
    case PathType => v.TextVal?
    case UsizeType => v.UsizeVal? && v.n <= UsizeMax
    case OptionalOf(inner) => v.OptVal? && (v.o.Present? ==> HasType(v.o.value, inner))
  }

  /** The type as written in the field declaration (`stringify!($cast)`);
      only its leading word matters to the crate. */
  function TypeName(t: FieldType): string {
    match t
    case BoolType => "bool"
    case StringType => "String"
    case PathType => "PathBuf"
    case UsizeType => "usize"
    case OptionalOf(inner) => "Optional<" + TypeName(inner) + ">"
  }

  /** The crate decides optionality from the type's text (lib.rs:217); for
      the modelled types that text test is exactly the `OptionalOf` tag. */
  lemma OptionalTypeName(t: FieldType)
    ensures StartsWith(TypeName(t), "Optional") <==> t.OptionalOf?
  {
    if t.OptionalOf? {
      assert TypeName(t)[..8] == "Optional";
    }
  }

  /** `usize::from_str`: an optional leading '+', then one or more decimal
      digits, at most `usize::MAX`. */
  function ParseUsize(s: string): (r: Option<Value>)
    ensures r.Some? ==> r.value.UsizeVal? && r.value.n <= UsizeMax
    ensures r.Some? ==> |s| > 0 && (IsDigit(s[0]) || s[0] == '+')
  {
    var digits := if |s| > 0 && s[0] == '+' then s[1..] else s;
    if |digits| == 0 || !AllDigits(digits) then None
    else if DigitsValue(digits) <= UsizeMax then Some(UsizeVal(DigitsValue(digits)))
    else None
  }

  /** `<T>::from_str(s)` for each modelled type; `None` is the parse error. */
  function Parse(t: FieldType, s: string): (r: Option<Value>)
    ensures r.Some? ==> HasType(r.value, t)
    decreases t
  {
    match t
    case BoolType =>
      if s == "true" then Some(BoolVal(true))
      else if s == "false" then Some(BoolVal(false))
      else None
    case StringType => Some(TextVal(s))
    case PathType => Some(TextVal(s))
    case UsizeType => ParseUsize(s)
    case OptionalOf(inner) =>
      match FromStr((x: string) => Parse(inner, x), s)
      case Some(o) => Some(OptVal(o))
      case None => None
  }

  /** `bool::from_str` accepts exactly "true" and "false". */
  lemma ParseBool(s: string)
    ensures Parse(BoolType, s).Some? <==> s == "true" || s == "false"
    ensures Parse(BoolType, s) == Some(BoolVal(true)) <==> s == "true"
  {
  }

  /** `Optional<T>::from_str` on values: T's parse first, then the sentinel. */
  lemma ParseOptional(inner: FieldType, s: string)
    ensures Parse(inner, s).Some? ==> Parse(OptionalOf(inner), s) == Some(OptVal(Present(Parse(inner, s).value)))
    ensures Parse(OptionalOf(inner), s) == Some(OptVal(Absent)) <==> Parse(inner, s).None? && s == Sentinel
    ensures Parse(OptionalOf(inner), s).None? <==> Parse(inner, s).None? && s != Sentinel
  {
    var _ := FromStr((x: string) => Parse(inner, x), s);
  }

  /** Formatting a `usize` with `{}` and parsing it back is the identity. */
  lemma UsizeRoundTrip(n: nat)
    requires n <= UsizeMax
    ensures Parse(UsizeType, Decimal(n)) == Some(UsizeVal(n))
  {
    DecimalRoundTrip(n);
  }

  /** `<T>::default()`: false for a flag, the empty text, zero, and the
      absent value for `Optional<T>`. */
  function DefaultOf(t: FieldType): (r: Value)
    ensures HasType(r, t)
    ensures t == BoolType ==> r == BoolVal(false)
    ensures t == StringType || t == PathType ==> r == TextVal("")
    ensures t == UsizeType ==> r == UsizeVal(0)
    ensures t.OptionalOf? ==> r == OptVal(Absent)
  {
    match t
    case BoolType => BoolVal(false)
    case StringType => TextVal("")
    case PathType => TextVal("")
    case UsizeType => UsizeVal(0)
    case OptionalOf(_) => OptVal(Default())
  }

  /** `cast_value::<T>(value)`: the parse, with the raw text in the error. */
  function CastValue(t: FieldType, raw: string): (r: Result<Value, ArgError>)
    ensures r.Success? <==> Parse(t, raw).Some?
    ensures r.Success? ==> HasType(r.value, t) && Some(r.value) == Parse(t, raw)
    ensures r.Failure? ==> r.error == InvalidValue(raw)
  {
    match Parse(t, raw)
    case Some(v) => Success(v)
    case None => Failure(InvalidValue(raw))
  }
}
