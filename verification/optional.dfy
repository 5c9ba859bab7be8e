/** The crate's `Optional<T>` wrapper (lib.rs:99-137): a value that is either
    given (`Optional::Some`, here `Present`) or explicitly absent
    (`Optional::None`, here `Absent`), parsed from text with the literal
    "None" as the absence sentinel. */
module Optionals {
  import opened Wrappers

  /** The text that denotes `Absent` when `T`'s own parser rejects it. */
  const Sentinel: string := "None"

  datatype Optional<+T> = Present(value: T) | Absent

  /** `Optional::<T>::from_str`: `T`'s parse is tried FIRST, so a `T` that
      accepts the text "None" shadows the sentinel. `parse` is `T::from_str`,
      `None` its error. */
  function FromStr<T>(parse: string -> Option<T>, s: string): (r: Option<Optional<T>>)
    ensures parse(s).Some? <==> r.Some? && r.value.Present?
    ensures parse(s).Some? ==> r == Some(Present(parse(s).value))
    ensures r == Some(Absent) <==> parse(s).None? && s == Sentinel
    ensures r.None? <==> parse(s).None? && s != Sentinel
  {
    match parse(s)
    case Some(v) => Some(Present(v))
    case None => if s == Sentinel then Some(Absent) else None
  }

  /** `Optional::<T>::default()`. */
  function Default<T>(): Optional<T> {
    Absent
  }

  /** `Optional::to_option`. */
  function ToOption<T>(o: Optional<T>): Option<T> {
    match o
    case Present(v) => Some(v)
    case Absent => None
  }

  /** The inverse of `to_option`. It is not in the crate; it shows that
      `to_option` loses nothing. */
  function FromOption<T>(o: Option<T>): Optional<T> {
    match o
    case Some(v) => Present(v)
    case None => Absent
  }

  /** `to_option` is a bijection between `Optional<T>` and `Option<T>` that
      sends the default to `None`. */
  lemma ToOptionBijection<T>(o: Optional<T>, p: Option<T>)
    ensures FromOption(ToOption(o)) == o
    ensures ToOption(FromOption(p)) == p
    ensures ToOption(Default<T>()) == None
    ensures ToOption(o).Some? <==> o.Present?
    ensures o.Present? ==> ToOption(o) == Some(o.value)
  {
  }

  /** Parsing the sentinel gives the default exactly when `T` rejects it. */
  lemma SentinelParsesToDefault<T>(parse: string -> Option<T>)
    ensures FromStr(parse, Sentinel) == Some(Default<T>()) <==> parse(Sentinel).None?
  {
  }
}
