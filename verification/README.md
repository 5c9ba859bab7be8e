# argument-handler, modelled in Dafny

A model of the `config_setup!` argument handler (`argument-handler/src/lib.rs`).
The macro turns a declared schema of fields into a configuration type. Each
field has a type, a list of command-line aliases, an optional positional index,
an optional textual default and a description. The model has the pure logic
behind the macro, with the schema as an explicit sequence of `FieldDecl`s:

- `Registry` holds the field registry (`get_arguments`). Each declaration
  becomes an `Argument` with its aliases, its pre-parsed default and its
  derived `optional` flag. The entries go into a map keyed by field name.
- `Cast` holds the type-cast layer: the modelled field types, their values,
  `FromStr` for each type (`cast_value`) and `Default`.
- `Optionals` holds `Optional<T>`: a parse that tries `T` first and falls back
  to the "None" sentinel, its default and `to_option`.
- `Resolve` holds value resolution (`parse_custom`):
  - a positional pass on the raw token index;
  - a keyword pass over dash tokens (a bare alias, or `alias=value` split on
    the first `=`);
  - the precedence of keyword, positional, default and `T::default()`;
  - fail-fast error handling.

  It also holds the single-key scan `get`.
- `Ordering` holds the display order (`sort_arguments_vector`). It is a stable
  sort by the text `<0|1><position or usize::MAX><name>`.
- `Wrap` holds the character-level description wrap, driven by
  `SplitAt::matches`.
- `Help` holds the help text: the usage header, the aligned alias column and
  the wrapped descriptions.
- `Scenario` holds the schema and command line that the crate's test
  (`argument-handler/src/tests.rs`) intends, worked through the model. The
  test's macro invocation itself does not follow the `config_setup!`
  grammar (no `in <module>;`, `;` after the type, no comma before the
  descriptions), so the schema is taken as the test evidently means it.
- `Text` and `Wrappers` hold the string operations and the `Option`/`Result`
  types the rest uses.

Behaviour of the code worth noting:

- A `bool` field without a default is required, not optional. `optional` is
  only "type text starts with `Optional`" or "a default is declared".
- Duplicate names and duplicate positions are not rejected. For a duplicate
  name, the registry insert replaces the earlier entry. Fields with a
  duplicate position both stay, and both read the same argument slot.
- Display order compares strings, so position 10 comes before position 2.
  An unpositioned field sorts by `usize::MAX` = "18446744073709551615". It
  comes before positions 2 to 9, and also before position 1 when field names
  are identifiers: its key continues with '8', and a name starts with a
  letter or '_'. It comes after positions 10 to 17, whose second digit is
  below '8'.
- The wrap never forces a break. With no breakable character after the width
  is reached, a segment grows past the width.
- The usage header has a newline right after the executable name.
- Continuation lines are padded by `indent + longest + offset - 1 + extra`
  spaces, so the indent is included.

## Model

| member | source | states |
|---|---|---|
| Wrap.Matches | argument-handler/src/lib.rs:56-70 | `Any` accepts every character, `Space` only ' ', `None` nothing, `Custom(cs)` exactly the characters in `cs` |
| Wrap.MatchesAny | argument-handler/src/lib.rs:61-68 | the loop over the custom characters returns true iff the character is one of them |
| Optionals.FromStr | argument-handler/src/lib.rs:114-130 | `T`'s parse is tried first, so a successful `T` parse gives `Some(v)` even on "None"; otherwise "None" gives the absent value and any other text is an error |
| Cast.ParseOptional | argument-handler/src/lib.rs:114-130 | the same three-way rule for a field of type `Optional<T>`, over the model's values |
| Cast.ParseBool | argument-handler/src/lib.rs:336-341 | a bool field accepts exactly "true" and "false", and parses to `true` exactly on "true" |
| Cast.UsizeRoundTrip | argument-handler/src/lib.rs:336-341 | parsing the decimal form of any `usize` gives that number back |
| Cast.CastValue | argument-handler/src/lib.rs:336-341 | succeeds iff the type's parse accepts the text; the value then has the field's type; the error carries the raw text |
| Cast.DefaultOf | argument-handler/src/lib.rs:132-137 | `T::default()` has type `T`; it is `false` for a flag, the empty text, zero, and for `Optional<T>` the absent value |
| Cast.Parse | argument-handler/src/lib.rs:114-130 | every text a field type's parse accepts yields a value of that type |
| Optionals.ToOptionBijection | argument-handler/src/lib.rs:106-111 | `to_option` maps a present value to `Some` of it and the absent value, which is `Optional::default()`, to `None`, and loses nothing: it has an inverse |
| Optionals.SentinelParsesToDefault | argument-handler/src/lib.rs:118-137 | parsing "None" gives `Optional::default()` exactly when `T` rejects "None" |
| Cast.OptionalTypeName | argument-handler/src/lib.rs:217 | "the type's text starts with `Optional`" holds exactly for the `Optional<T>` types |
| Registry.MatchesKey | argument-handler/src/lib.rs:151-153 | true iff some alias equals the key |
| Registry.PrettyNameRoundTrip | argument-handler/src/lib.rs:159-161 | for comma-free aliases, splitting the joined alias list at ", " recovers the aliases |
| Registry.MakeArgument | argument-handler/src/lib.rs:196-226 | fails iff a declared default is rejected by its type (the error value is the model's own, see "Left out"); otherwise copies name, aliases, description and position; `optional` holds iff the type is `Optional<T>` or a default is declared; the stored value is present iff a default is declared, and is its parse |
| Registry.GetArguments | argument-handler/src/lib.rs:189-232 | succeeds iff every default parses; the map's keys are exactly the declared names; each entry is filed under its own field name |
| Registry.GetArgumentsFirstError | argument-handler/src/lib.rs:209-212 | a failing build reports the first declaration whose default does not parse |
| Registry.GetArgumentsLastWins | argument-handler/src/lib.rs:228 | the entry under a name is the argument built from the last declaration with that name |
| Registry.LookupByName | argument-handler/src/lib.rs:228 | with distinct names, each declaration's entry is its own argument |
| Registry.EntriesAreValues | argument-handler/src/lib.rs:262-272 | the sequence `help` walks holds exactly the map's values |
| Ordering.Insert | argument-handler/src/lib.rs:234-249 | inserting into a sorted list keeps it sorted by the display key and adds exactly the new entry |
| Ordering.SortForDisplay | argument-handler/src/lib.rs:234-249 | the result is sorted by the display key and is a permutation of the input |
| Ordering.RequiredBeforeOptional | argument-handler/src/lib.rs:239-243 | in display order no required field follows an optional one |
| Ordering.PositionTenBeforeTwo | argument-handler/src/lib.rs:236-247 | between fields of equal optionality, position 10 strictly precedes position 2 |
| Ordering.NoPositionBeforeSmallDigit | argument-handler/src/lib.rs:236-247 | an unpositioned field strictly precedes an equally optional field at positions 2 to 9 |
| Ordering.NoPositionBeforeOne | argument-handler/src/lib.rs:236-247 | an unpositioned field strictly precedes an equally optional field at position 1 whose name starts above '9', as an identifier does |
| Ordering.TeenPositionBeforeNoPosition | argument-handler/src/lib.rs:236-247 | an equally optional field at positions 10 to 17 strictly precedes an unpositioned one |
| Ordering.UsizeMaxPrints | argument-handler/src/lib.rs:236-245 | the text an unpositioned field sorts by is `usize::MAX` printed in decimal |
| Ordering.FirstPositionCharDecides | argument-handler/src/lib.rs:245-247 | between equally optional fields, a smaller first character of the printed position decides the order |
| Ordering.KeyDeterminesName | argument-handler/src/lib.rs:245 | for identifier names, equal display keys mean equal names |
| Ordering.SortedUnique | argument-handler/src/lib.rs:234-249 | two sorted permutations of entries whose keys tell them apart are equal |
| Ordering.DisplayOrderIndependent | argument-handler/src/lib.rs:272-273 | the map's iteration order does not change the display order when names are distinct identifiers |
| Wrap.SplitDescription | argument-handler/src/lib.rs:299-313 | the `desc_split` segments concatenate back to the description |
| Wrap.WrapLossless | argument-handler/src/lib.rs:298-313 | the segments concatenate back to the description; there are none iff the description is empty; every segment is non-empty; every segment after the first starts with a character the split rule accepts |
| Wrap.WrapCountBound | argument-handler/src/lib.rs:301-311 | the number of segments is at most ceil(n / L) for a description of n characters and width L |
| Wrap.ArmingsIsCeiling | argument-handler/src/lib.rs:303-305 | the indices at which the break flag is armed number exactly ceil(n / L) |
| Wrap.WrapNoSplit | argument-handler/src/lib.rs:306-311 | with `SplitAt::None` a non-empty description stays one segment |
| Wrap.WrapUnbroken | argument-handler/src/lib.rs:306-311 | with no breakable character after the first, the description stays one segment |
| Wrap.WrapAnyChunks | argument-handler/src/lib.rs:302-312 | with `SplitAt::Any`, every segment but the last has exactly L characters and the last has 1 to L |
| Help.Longest | argument-handler/src/lib.rs:262-265 | `longest_name` bounds every alias list's byte length, is attained by one of them, and is 0 with no fields |
| Help.Displayed | argument-handler/src/lib.rs:271-273 | the entries `help` prints are sorted by the display key and are a permutation of the registry's values |
| Help.Help | argument-handler/src/lib.rs:257-334 | fails exactly when the registry cannot be built, and otherwise starts with "Usage: <exe>" and a newline |
| Help.FieldBlockLines | argument-handler/src/lib.rs:289-331 | a field's block is its lines, each ended by a newline: the first is the head followed by the first description segment (nothing after the head for an empty description), and every later line is exactly `indent + longest + offset - 1 + extra` spaces followed by the next segment |
| Help.BlockStripsToDescription | argument-handler/src/lib.rs:289-331 | removing the head from the first line, the padding from every later line and the line ends gives the field's description back |
| Help.HelpTextLines | argument-handler/src/lib.rs:257-334 | the whole text is the lines "Usage: <exe>", the usage items, an empty line, then the lines of every field's block in display order |
| Help.HelpUsageLine | argument-handler/src/lib.rs:267-285 | after the header come the required fields' `<...>` items, then the optional fields' `[...]` items, in display order, then a blank line |
| Help.FieldBlockAligned | argument-handler/src/lib.rs:290-296 | a field line is `indent` spaces, the alias list, then spaces up to column `indent + longest + offset` |
| Help.HelpColumnsAligned | argument-handler/src/lib.rs:287-296 | every field's description starts at the same column |
| Resolve.Positional | argument-handler/src/lib.rs:388-399 | no slot or no token leaves the value unset; a dash token fails for a required field, reporting field and token, and is skipped for an optional one; any other token is cast |
| Resolve.HitCharacterization | argument-handler/src/lib.rs:410-417 | an alias takes "true" from a token equal to it, or the text after "alias=" when the alias has no '=' |
| Resolve.CastFold | argument-handler/src/lib.rs:405-419 | casting texts in turn fails at the first rejected text, and otherwise yields the last text's value |
| Resolve.KeywordScan | argument-handler/src/lib.rs:403-420 | the keyword loop, started from a value of the field's type, only ever holds values of that type |
| Resolve.KeywordScanIsFold | argument-handler/src/lib.rs:403-420 | the keyword loop is the cast of all hits in token order and then alias order |
| Resolve.HitsOnlyFromDashes | argument-handler/src/lib.rs:404-406 | every hit comes from a dash token and from an alias that itself starts with '-' |
| Resolve.ResolveField | argument-handler/src/lib.rs:378-434 | a resolved field always has its declared type |
| Resolve.ResolvePrecedence | argument-handler/src/lib.rs:388-432 | the value is the last keyword hit, else the positional token, else the default, else `T::default()`; resolution fails iff a required slot holds a dash token or a cast text is rejected |
| Resolve.FlagAbsent | argument-handler/src/lib.rs:422-432 | a bool flag that no token mentions, with no default and no slot, resolves to `false` |
| Resolve.BareAliasLast | argument-handler/src/lib.rs:410-412 | a bare alias as the last token gives the field its type's parse of "true", so `true` for a bool flag and an error where "true" does not parse |
| Resolve.ResolveAll | argument-handler/src/lib.rs:376-437 | succeeds iff every field resolves, with one value per field in declaration order |
| Resolve.ResolveAllFirstError | argument-handler/src/lib.rs:376-437 | a failure is the error of the first field that fails |
| Resolve.ParseCustom | argument-handler/src/lib.rs:363-440 | a bad default fails the whole call; with good defaults it succeeds iff every field resolves against the tokens after argv[0]; each value has its field's type |
| Resolve.ParseCustomResolved | argument-handler/src/lib.rs:363-440 | when every field resolves, the call returns exactly those values in declaration order |
| Resolve.ParseCustomFirstError | argument-handler/src/lib.rs:363-440 | a failing call reports the first field that cannot be resolved and returns no configuration |
| Resolve.Get | argument-handler/src/lib.rs:343-361 | `get` returns `None` exactly when no token after the executable name mentions the key, as itself or as "key=..." |
| Resolve.GetScan | argument-handler/src/lib.rs:350-360 | the scan finds nothing iff no token mentions the key |
| Resolve.GetFirstMention | argument-handler/src/lib.rs:343-361 | the first mentioning token decides: the bare key gives `Bool(true)` and "key=v" gives `String(v)` |
| Scenario.SampleParse | argument-handler/src/tests.rs:19-59 | the sample command line sets both paths and both flags and leaves the template at its declared default |

## Left out

- The `macro_rules!` expansion is left out: struct and enum generation, `@internal` fields and `@impl` pass-through. The schema is a sequence of `FieldDecl`s and a configuration is a sequence of values in declaration order.
- `std::env::args()` in `get` and `parse` is process I/O. Both take the argument vector as a parameter.
- `show_help` and the `Display` impl are left out as output effects. `show_help` prints `help`'s text (lib.rs:251-255). `Display` writes the configuration struct's `Debug` text, `write!(f, "{:?}", self)` (lib.rs:452-456), which the model does not render.
- `Argument::matches` (alias-list equality) is left out because nothing in the crate calls it.
- Real `FromStr` implementations are modelled only for `bool`, `String`, `PathBuf`, `usize` and `Optional<T>` over them. Other field types are out of scope. Error messages are reduced to the `ArgError` kinds. `MissingPositional` and `InvalidValue` carry what the crate's messages carry.
- Registry.MakeArgument: a rejected default fails with `InvalidDefault(field, text)`. The crate propagates `T::from_str`'s own boxed error (lib.rs:213): `ParseBoolError`, `ParseIntError`, or "Invalid value for Optional." (lib.rs:124). None of these names the field or the text. The field and text are the model's addition, so that the failing declaration can be stated. The crate does not report them.
- Cast.TypeName: only covers the modelled types. `stringify!` of other types is not modelled.
- Help.Help: requires `HelpDefined`. A zero `description_max_length` panics on `i % 0`. In debug builds the `usize` subtraction `indent + longest + offset - 1` panics when the sum is 0 and a continuation line exists. Both panics are kept out by that requires rather than modelled as a third outcome. In release builds the subtraction wraps instead (lib.rs:287, 326): with a zero sum, continuation lines get `extra - 1` spaces, and with `extra` also 0 the `repeat` count is `usize::MAX`, which overflows its capacity and panics. The model does not cover these release-build outcomes.
- Help.Longest: measures alias lists in UTF-8 bytes, like `String::len`, while the `{:<width$}` padding counts characters. The model pads by characters to that byte width. It does not model the overflow of `usize` sums of option widths.
- Ordering.DisplayOrderIndependent: proved for distinct identifier names, which covers every schema the macro accepts. Non-identifier names could tie on the key, and then `HashMap` order would matter. The model walks the map in first-declaration order.
- Ordering.SortForDisplay: compares `char`s, where Rust's `String` order compares UTF-8 bytes. The two orders agree, because UTF-8 preserves code-point order.
- Resolve.ParseCustom: requires distinct field names, because the generated struct cannot have two members with one name. The registry itself still keeps the last entry for a repeated name.
- Positions and usize values in the schema are unbounded naturals. Only parsed `usize` values are bounded by `usize::MAX`.
- `usize` is taken to be 64 bits wide: `UsizeMax` is 18446744073709551615. This fixes both the bound on parsed `usize` values and the text an unpositioned field sorts by. On a 32-bit target `usize::MAX` prints as "4294967295", so an unpositioned field would sort after positions 2 and 3, not before them. `Ordering.UsizeMaxPrints`, `Ordering.NoPositionBeforeSmallDigit`, `Ordering.NoPositionBeforeOne` and `Ordering.TeenPositionBeforeNoPosition` hold for the 64-bit target only.
