/** The schema registry: one `Argument` per declared field
    (`get_arguments`, lib.rs:189-232) and the `Argument` helpers
    (lib.rs:140-162). The macro's field declarations become `FieldDecl`s. */
module Registry {
  import opened Wrappers
  import opened Text
  import opened Cast

  /** One line of the macro's schema:
      `name: ty [= default], [aliases...; position], "description"`. */
  datatype FieldDecl = FieldDecl(
    name: string,
    ty: FieldType,
    default: Option<string>,
    aliases: seq<string>,
    position: Option<nat>,
    description: string)

  /** `Argument<ArgumentType>`; `value` is the pre-parsed default, `None`
      standing for the `ArgumentType::None` marker. */
  datatype Argument = Argument(
    fieldName: string,
    keys: seq<string>,
    description: string,
    optional: bool,
    position: Option<nat>,
    value: Option<Value>)

  /** `Argument::matches_key`: some alias equals `key`. */
  function MatchesKey(keys: seq<string>, key: string): (r: bool)
    ensures r <==> exists i :: 0 <= i < |keys| && keys[i] == key
  {
    if |keys| == 0 then false
    else if keys[0] == key then true
    else
      var rest := MatchesKey(keys[1..], key);
      assert rest <==> exists i :: 1 <= i < |keys| && keys[i] == key by {
        forall i | 1 <= i < |keys| ensures keys[i] == keys[1..][i - 1] { }
      }
      rest
  }

  /** `Argument::pretty_name`: the aliases joined by ", ". */
  function PrettyName(keys: seq<string>): string {
    Join(keys, ", ")
  }

  /** Cuts a pretty name back into aliases at each ", ". Not in the crate: it
      is the inverse that shows the alias column loses nothing. */
  function SplitPrettyName(s: string): seq<string>
    decreases |s|
  {
    match FindChar(s, ',')
    case None => [s]
    case Some(i) =>
      if i + 1 < |s| && s[i + 1] == ' ' then [s[..i]] + SplitPrettyName(s[i + 2..])
      else [s[..i]] + SplitPrettyName(s[i + 1..])
  }

  /** For aliases free of ',' the pretty name determines the aliases. */
  lemma {:induction false} PrettyNameRoundTrip(keys: seq<string>)
    requires |keys| > 0
    requires forall i :: 0 <= i < |keys| ==> ',' !in keys[i]
    ensures SplitPrettyName(PrettyName(keys)) == keys
  {
    if |keys| == 1 {
      assert PrettyName(keys) == keys[0];
    } else {
      var tail := PrettyName(keys[1..]);
      var s := PrettyName(keys);
      assert s == keys[0] + ", " + tail;
      assert s == keys[0] + [','] + (" " + tail);
      SplitOnceOfJoined(keys[0], ',', " " + tail);
      var i := FindChar(s, ',').value;
      assert s[..i] == keys[0];
      assert s[i + 2..] == tail;
      PrettyNameRoundTrip(keys[1..]);
    }
  }

  /** The `Argument` one declaration produces (lib.rs:196-226). A field is
      optional when its type's text starts with "Optional" or it declares a
      default; a default that its type rejects is an error. */
  function MakeArgument(d: FieldDecl): (r: Result<Argument, ArgError>)
    ensures r.Failure? <==> d.default.Some? && Parse(d.ty, d.default.value).None?
    ensures r.Failure? ==> r.error == InvalidDefault(d.name, d.default.value)
    ensures r.Success? ==>
      && r.value.fieldName == d.name
      && r.value.keys == d.aliases
      && r.value.description == d.description
      && r.value.position == d.position
      && (r.value.optional <==> d.ty.OptionalOf? || d.default.Some?)
      && (r.value.value.Some? <==> d.default.Some?)
      && (r.value.value.Some? ==> HasType(r.value.value.value, d.ty) && r.value.value == Parse(d.ty, d.default.value))
  {
    var actualDefault :-
      match d.default
      case Some(text) =>
        (match Parse(d.ty, text)
         case Some(v) => Success(Some(v))
         case None => Failure(InvalidDefault(d.name, text)))
      case None => Success(None);
    OptionalTypeName(d.ty);
    var optional := StartsWith(TypeName(d.ty), "Optional") || d.default.Some?;
    Success(Argument(d.name, d.aliases, d.description, optional, d.position, actualDefault))
  }

  /** No later declaration reuses the name of declaration `i`. */
  predicate LastWithName(decls: seq<FieldDecl>, i: nat)
    requires i < |decls|
  {
    forall j :: i < j < |decls| ==> decls[j].name != decls[i].name
  }

  predicate AllDefaultsParse(decls: seq<FieldDecl>) {
    forall i :: 0 <= i < |decls| ==> MakeArgument(decls[i]).Success?
  }

  /** `get_arguments`: every declaration inserted into a map keyed by field
      name, in declaration order, so a later insert replaces an earlier one;
      the first default that fails to parse aborts the build. */
  function GetArguments(decls: seq<FieldDecl>): (r: Result<map<string, Argument>, ArgError>)
    ensures r.Success? <==> AllDefaultsParse(decls)
    ensures r.Success? ==> r.value.Keys == Names(decls)
    ensures r.Success? ==> forall n :: n in r.value ==> r.value[n].fieldName == n
  {
    if |decls| == 0 then Success(map[])
    else
      var n := |decls| - 1;
      var reg :- GetArguments(decls[..n]);
      var arg :- MakeArgument(decls[n]);
      NamesSnoc(decls);
      Success(reg[decls[n].name := arg])
  }

  function Names(decls: seq<FieldDecl>): set<string> {
    set i | 0 <= i < |decls| :: decls[i].name
  }

  lemma NamesSnoc(decls: seq<FieldDecl>)
    requires |decls| > 0
    ensures Names(decls) == Names(decls[..|decls| - 1]) + {decls[|decls| - 1].name}
  {
    var n := |decls| - 1;
    forall x | x in Names(decls) ensures x in Names(decls[..n]) + {decls[n].name} {
      var i :| 0 <= i < |decls| && decls[i].name == x;
      if i < n {
        assert decls[..n][i].name == x;
      }
    }
    forall x | x in Names(decls[..n]) ensures x in Names(decls) {
      var i :| 0 <= i < n && decls[..n][i].name == x;
      assert decls[i].name == x;
    }
  }

  /** The build reports the error of the FIRST declaration whose default does
      not parse. */
  lemma {:induction false} GetArgumentsFirstError(decls: seq<FieldDecl>)
    requires GetArguments(decls).Failure?
    ensures exists i :: (0 <= i < |decls|
      && MakeArgument(decls[i]).Failure? && GetArguments(decls).error == MakeArgument(decls[i]).error
      && (forall j :: 0 <= j < i ==> MakeArgument(decls[j]).Success?))
  {
    var n := |decls| - 1;
    var prefix := decls[..n];
    if GetArguments(prefix).Failure? {
      GetArgumentsFirstError(prefix);
      var i :| 0 <= i < |prefix|
        && MakeArgument(prefix[i]).Failure? && GetArguments(prefix).error == MakeArgument(prefix[i]).error
        && (forall j :: 0 <= j < i ==> MakeArgument(prefix[j]).Success?);
      assert forall j :: 0 <= j <= i ==> prefix[j] == decls[j];
    } else {
      assert forall j :: 0 <= j < n ==> MakeArgument(prefix[j]).Success?;
      assert forall j :: 0 <= j < n ==> prefix[j] == decls[j];
    }
  }

  /** A field name maps to the `Argument` of the LAST declaration with that
      name, as `HashMap::insert` replaces. */
  lemma {:induction false} GetArgumentsLastWins(decls: seq<FieldDecl>, i: nat)
    requires i < |decls| && LastWithName(decls, i)
    requires GetArguments(decls).Success?
    ensures decls[i].name in GetArguments(decls).value
    ensures GetArguments(decls).value[decls[i].name] == MakeArgument(decls[i]).value
  {
    var n := |decls| - 1;
    if i < n {
      var prefix := decls[..n];
      LastWithNamePrefix(decls, i);
      GetArgumentsLastWins(prefix, i);
      assert decls[n].name != decls[i].name;
    }
  }

  lemma LastWithNamePrefix(decls: seq<FieldDecl>, i: nat)
    requires i + 1 < |decls| && LastWithName(decls, i)
    ensures decls[..|decls| - 1][i] == decls[i] && LastWithName(decls[..|decls| - 1], i)
  {
    var prefix := decls[..|decls| - 1];
    forall j | i < j < |prefix| ensures prefix[j].name != prefix[i].name {
      assert prefix[j] == decls[j];
    }
  }

  /** Field names are distinct: the crate generates one struct member per
      field, so a repeated name cannot be declared. */
  predicate DistinctFields(decls: seq<FieldDecl>) {
    forall j, k :: 0 <= j < k < |decls| ==> decls[j].name != decls[k].name
  }

  /** With distinct field names every declaration is found under its name. */
  lemma LookupByName(decls: seq<FieldDecl>, i: nat)
    requires i < |decls| && DistinctFields(decls)
    requires GetArguments(decls).Success?
    ensures decls[i].name in GetArguments(decls).value
    ensures GetArguments(decls).value[decls[i].name] == MakeArgument(decls[i]).value
  {
    GetArgumentsLastWins(decls, i);
  }

  /** The declared field names, each once, in order of first declaration. */
  function DistinctNames(decls: seq<FieldDecl>): (r: seq<string>)
    ensures forall j, k :: 0 <= j < k < |r| ==> r[j] != r[k]
    ensures forall n :: n in r <==> n in Names(decls)
  {
    if |decls| == 0 then []
    else
      var n := |decls| - 1;
      var rest := DistinctNames(decls[..n]);
      NamesSnoc(decls);
      if decls[n].name in rest then rest else rest + [decls[n].name]
  }

  /** The registry map's entries, each once; the order stands for the
      `HashMap`'s unspecified iteration order. */
  function Entries(decls: seq<FieldDecl>, reg: map<string, Argument>): (r: seq<Argument>)
    requires Names(decls) <= reg.Keys
    ensures |r| == |DistinctNames(decls)|
    ensures forall k :: 0 <= k < |r| ==> r[k] == reg[DistinctNames(decls)[k]]
  {
    var names := DistinctNames(decls);
    seq(|names|, k requires 0 <= k < |names| => reg[names[k]])
  }

  /** The entries are exactly the map's values when the map holds just the
      declared names. */
  lemma EntriesAreValues(decls: seq<FieldDecl>, reg: map<string, Argument>)
    requires reg.Keys == Names(decls)
    ensures forall v :: v in reg.Values <==> v in Entries(decls, reg)
  {
    var es := Entries(decls, reg);
    var names := DistinctNames(decls);
    forall v | v in reg.Values ensures v in es {
      var n :| n in reg && reg[n] == v;
      var k :| 0 <= k < |names| && names[k] == n;
      assert es[k] == v;
    }
  }
}
