/** Value resolution: `parse_custom` (lib.rs:363-440), which fills every
    field of the configuration from the command-line tokens, and the
    single-key lookup `get` (lib.rs:343-361). The process arguments are a
    parameter: `args` is the whole argument vector, `args[0]` the executable. */
module Resolve {
  import opened Wrappers
  import opened Text
  import opened Cast
  import opened Registry

  /** `token.starts_with("-")`: the tokens the keyword pass looks at. */
  predicate IsDash(t: string) {
    StartsWith(t, "-")
  }

  /** The tokens after the executable name (`args.into_iter().skip(1)`). */
  function Tail(args: seq<string>): (r: seq<string>)
    ensures |args| > 0 ==> args == [args[0]] + r
    ensures |args| == 0 ==> r == []
  {
    if |args| == 0 then [] else args[1..]
  }

  // ---------------------------------------------------------------------
  // Positional pass

  /** The positional pass for one field (lib.rs:388-399). With no declared
      position, or no token at that index, nothing is set. A dash token in
      the slot is an error for a required field and is skipped for an
      optional one; any other token is cast to the field's type. */
  function Positional(d: FieldDecl, optional: bool, cli: seq<string>): (r: Result<Option<Value>, ArgError>)
    ensures d.position.None? || d.position.value >= |cli| ==> r == Success(None)
    ensures d.position.Some? && d.position.value < |cli| && IsDash(cli[d.position.value]) ==>
      && (r.Failure? <==> !optional)
      && (r.Failure? ==> r.error == MissingPositional(d.name, cli[d.position.value]))
      && (r.Success? ==> r.value == None)
    ensures d.position.Some? && d.position.value < |cli| && !IsDash(cli[d.position.value]) ==>
      && (r.Success? <==> Parse(d.ty, cli[d.position.value]).Some?)
      && (r.Success? ==> r.value == Parse(d.ty, cli[d.position.value]))
      && (r.Failure? ==> r.error == InvalidValue(cli[d.position.value]))
    ensures r.Success? && r.value.Some? ==> HasType(r.value.value, d.ty)
  {
    match d.position
    case None => Success(None)
    case Some(p) =>
      if p >= |cli| then Success(None)
      else if IsDash(cli[p]) then
        if !optional then Failure(MissingPositional(d.name, cli[p])) else Success(None)
      else
        var v :- CastValue(d.ty, cli[p]);
        Success(Some(v))
  }

  // ---------------------------------------------------------------------
  // Keyword pass, as the crate runs it

  /** One alias tested against one dash token (lib.rs:410-418): an exact
      match casts the text "true", whatever the field's type; otherwise the
      token is split at its first '=' and a key equal to the alias casts the
      text after it. Any other token leaves the value as it was. */
  function AliasStep(ty: FieldType, alias: string, t: string, acc: Option<Value>): (r: Result<Option<Value>, ArgError>)
    ensures (acc.Some? ==> HasType(acc.value, ty)) ==> (r.Success? && r.value.Some? ==> HasType(r.value.value, ty))
  {
    if t == alias then
      var v :- CastValue(ty, "true");
      Success(Some(v))
    else
      match SplitOnce(t, '=')
      case Some((k, v)) =>
        if k == alias then
          var x :- CastValue(ty, v);
          Success(Some(x))
        else Success(acc)
      case None => Success(acc)
  }

  /** All aliases of the field, in declared order, against one token. */
  function AliasesStep(ty: FieldType, aliases: seq<string>, t: string, acc: Option<Value>): (r: Result<Option<Value>, ArgError>)
    ensures (acc.Some? ==> HasType(acc.value, ty)) ==> (r.Success? && r.value.Some? ==> HasType(r.value.value, ty))
    decreases |aliases|
  {
    if |aliases| == 0 then Success(acc)
    else
      var acc' :- AliasStep(ty, aliases[0], t, acc);
      AliasesStep(ty, aliases[1..], t, acc')
  }

  /** The keyword loop (lib.rs:403-420): every token in order, tokens that
      do not start with '-' skipped; the first failing cast aborts. */
  function KeywordScan(ty: FieldType, aliases: seq<string>, cli: seq<string>, acc: Option<Value>): (r: Result<Option<Value>, ArgError>)
    ensures (acc.Some? ==> HasType(acc.value, ty)) ==> (r.Success? && r.value.Some? ==> HasType(r.value.value, ty))
    decreases |cli|
  {
    if |cli| == 0 then Success(acc)
    else
      var acc' :- if IsDash(cli[0]) then AliasesStep(ty, aliases, cli[0], acc) else Success(acc);
      KeywordScan(ty, aliases, cli[1..], acc')
  }

  // ---------------------------------------------------------------------
  // Keyword pass, as a specification

  /** The text that alias `a` takes from token `t`, if `t` mentions it:
      "true" for the bare alias, the text after `a=` otherwise. */
  function Hit(a: string, t: string): Option<string> {
    if t == a then Some("true")
    else match SplitOnce(t, '=')
      case Some((k, v)) => if k == a then Some(v) else None
      case None => None
  }

  /** `Hit` without reference to splitting: the bare alias, or the alias
      (which then holds no '=') followed by '=' and the value. */
  lemma HitCharacterization(a: string, t: string, x: string)
    ensures Hit(a, t) == Some(x) <==> (t == a && x == "true") || (t != a && '=' !in a && t == a + "=" + x)
  {
    if t != a && '=' !in a && t == a + "=" + x {
      SplitOnceOfJoined(a, '=', x);
    }
  }

  /** The texts one token hands to the field, one per matching alias. */
  function TokenHits(aliases: seq<string>, t: string): seq<string>
    decreases |aliases|
  {
    if |aliases| == 0 then []
    else
      var rest := TokenHits(aliases[1..], t);
      match Hit(aliases[0], t)
      case Some(x) => [x] + rest
      case None => rest
  }

  /** All texts the keyword pass will cast, in order: the hits of every dash
      token. */
  function Hits(aliases: seq<string>, cli: seq<string>): seq<string>
    decreases |cli|
  {
    if |cli| == 0 then []
    else (if IsDash(cli[0]) then TokenHits(aliases, cli[0]) else []) + Hits(aliases, cli[1..])
  }

  /** Casting a list of texts in order, each cast replacing the last; the
      first failing cast is the error. */
  function CastFold(ty: FieldType, raws: seq<string>, acc: Option<Value>): (r: Result<Option<Value>, ArgError>)
    ensures r.Failure? <==> exists i :: 0 <= i < |raws| && Parse(ty, raws[i]).None?
    ensures r.Failure? ==> exists i :: (0 <= i < |raws| && Parse(ty, raws[i]).None?
      && (forall j :: 0 <= j < i ==> Parse(ty, raws[j]).Some?)
      && r.error == InvalidValue(raws[i]))
    ensures r.Success? ==> r.value == if |raws| == 0 then acc else Parse(ty, raws[|raws| - 1])
    decreases |raws|
  {
    if |raws| == 0 then Success(acc)
    else
      match Parse(ty, raws[0])
      case None => Failure(InvalidValue(raws[0]))
      case Some(v) =>
        var r := CastFold(ty, raws[1..], Some(v));
        assert forall i :: 1 <= i < |raws| ==> raws[i] == raws[1..][i - 1];
        if r.Failure? then
          var i :| 0 <= i < |raws[1..]| && Parse(ty, raws[1..][i]).None?
            && (forall j :: 0 <= j < i ==> Parse(ty, raws[1..][j]).Some?)
            && r.error == InvalidValue(raws[1..][i]);
          assert Parse(ty, raws[i + 1]).None?;
          r
        else r
  }

  /** Casting two lists in a row is casting their concatenation. */
  lemma {:induction false} CastFoldAppend(ty: FieldType, a: seq<string>, b: seq<string>, acc: Option<Value>)
    ensures CastFold(ty, a + b, acc) ==
      match CastFold(ty, a, acc)
      case Failure(e) => Failure(e)
      case Success(x) => CastFold(ty, b, x)
    decreases |a|
  {
    if |a| == 0 {
      assert a + b == b;
    } else {
      assert (a + b)[0] == a[0];
      assert (a + b)[1..] == a[1..] + b;
      match Parse(ty, a[0])
      case None =>
      case Some(v) => CastFoldAppend(ty, a[1..], b, Some(v));
    }
  }

  /** One alias against one token casts exactly that alias's hit. */
  lemma AliasStepIsHit(ty: FieldType, a: string, t: string, acc: Option<Value>)
    ensures AliasStep(ty, a, t, acc) == CastFold(ty, if Hit(a, t).Some? then [Hit(a, t).value] else [], acc)
  {
    if Hit(a, t).Some? {
      var x := Hit(a, t).value;
      assert CastFold(ty, [x], acc) == if Parse(ty, x).Some? then Success(Parse(ty, x)) else Failure(InvalidValue(x));
    }
  }

  lemma {:induction false} AliasesStepIsFold(ty: FieldType, aliases: seq<string>, t: string, acc: Option<Value>)
    ensures AliasesStep(ty, aliases, t, acc) == CastFold(ty, TokenHits(aliases, t), acc)
    decreases |aliases|
  {
    if |aliases| > 0 {
      var step := AliasStep(ty, aliases[0], t, acc);
      if step.Success? {
        AliasesStepIsFold(ty, aliases[1..], t, step.value);
      }
      AliasesFoldStep(ty, aliases, t, acc);
    }
  }

  /** The inductive step of `AliasesStepIsFold`. */
  lemma AliasesFoldStep(ty: FieldType, aliases: seq<string>, t: string, acc: Option<Value>)
    requires |aliases| > 0
    requires var step := AliasStep(ty, aliases[0], t, acc);
      step.Success? ==> AliasesStep(ty, aliases[1..], t, step.value) == CastFold(ty, TokenHits(aliases[1..], t), step.value)
    ensures AliasesStep(ty, aliases, t, acc) == CastFold(ty, TokenHits(aliases, t), acc)
  {
    var first := if Hit(aliases[0], t).Some? then [Hit(aliases[0], t).value] else [];
    var rest := TokenHits(aliases[1..], t);
    assert TokenHits(aliases, t) == first + rest;
    AliasStepIsHit(ty, aliases[0], t, acc);
    CastFoldAppend(ty, first, rest, acc);
    var step := AliasStep(ty, aliases[0], t, acc);
    if step.Success? {
      assert AliasesStep(ty, aliases, t, acc) == AliasesStep(ty, aliases[1..], t, step.value);
    } else {
      assert AliasesStep(ty, aliases, t, acc) == Failure(step.error);
    }
  }

  /** The keyword pass casts exactly the hits, in token order and then alias
      order: it fails at the first hit its type rejects, and otherwise
      yields the last hit's value, or the value it started from when no
      token mentions an alias. */
  lemma {:induction false} KeywordScanIsFold(ty: FieldType, aliases: seq<string>, cli: seq<string>, acc: Option<Value>)
    ensures KeywordScan(ty, aliases, cli, acc) == CastFold(ty, Hits(aliases, cli), acc)
    decreases |cli|
  {
    if |cli| > 0 {
      var first := if IsDash(cli[0]) then TokenHits(aliases, cli[0]) else [];
      CastFoldAppend(ty, first, Hits(aliases, cli[1..]), acc);
      if IsDash(cli[0]) {
        AliasesStepIsFold(ty, aliases, cli[0], acc);
      }
      match CastFold(ty, first, acc)
      case Failure(_) =>
      case Success(x) => KeywordScanIsFold(ty, aliases, cli[1..], x);
    }
  }

  /** Tokens that do not start with '-' never contribute to the keyword
      pass, and neither do aliases that do not start with '-' (such as the
      bare field names used for positional fields). */
  lemma {:induction false} HitsOnlyFromDashes(aliases: seq<string>, cli: seq<string>)
    ensures forall x :: x in Hits(aliases, cli) ==>
      exists i, k :: 0 <= i < |cli| && 0 <= k < |aliases| && IsDash(cli[i]) && IsDash(aliases[k]) && Hit(aliases[k], cli[i]) == Some(x)
    decreases |cli|
  {
    if |cli| > 0 {
      HitsOnlyFromDashes(aliases, cli[1..]);
      var first := if IsDash(cli[0]) then TokenHits(aliases, cli[0]) else [];
      forall x | x in Hits(aliases, cli)
        ensures exists i, k :: 0 <= i < |cli| && 0 <= k < |aliases| && IsDash(cli[i]) && IsDash(aliases[k]) && Hit(aliases[k], cli[i]) == Some(x)
      {
        if x in first {
          var k := TokenHitsFrom(aliases, cli[0], x);
          DashHitAlias(aliases[k], cli[0], x);
          assert IsDash(cli[0]) && Hit(aliases[k], cli[0]) == Some(x);
        } else {
          assert x in Hits(aliases, cli[1..]);
          var i, k :| 0 <= i < |cli[1..]| && 0 <= k < |aliases| && IsDash(cli[1..][i]) && IsDash(aliases[k]) && Hit(aliases[k], cli[1..][i]) == Some(x);
          assert cli[i + 1] == cli[1..][i];
        }
      }
    }
  }

  /** Every text in `TokenHits` comes from some alias. */
  lemma {:induction false} TokenHitsFrom(aliases: seq<string>, t: string, x: string) returns (k: nat)
    requires x in TokenHits(aliases, t)
    ensures k < |aliases| && Hit(aliases[k], t) == Some(x)
    decreases |aliases|
  {
    var rest := TokenHits(aliases[1..], t);
    if Hit(aliases[0], t) == Some(x) {
      k := 0;
    } else {
      assert x in rest;
      var k' := TokenHitsFrom(aliases[1..], t, x);
      k := k' + 1;
    }
  }

  /** A dash token only ever matches an alias that starts with '-'. */
  lemma DashHitAlias(a: string, t: string, x: string)
    requires IsDash(t) && Hit(a, t) == Some(x)
    ensures IsDash(a)
  {
    HitCharacterization(a, t, x);
    if t != a {
      assert t == a + "=" + x;
      if |a| > 0 {
        assert t[0] == a[0];
      }
    }
  }

  // ---------------------------------------------------------------------
  // One field, and the whole configuration

  /** The value of one field (lib.rs:378-434): the positional pass, then the
      keyword pass on top of it, then the registry's pre-parsed default,
      then `T::default()`. `arg` is the registry entry for the field's name. */
  function ResolveField(d: FieldDecl, arg: Argument, cli: seq<string>): (r: Result<Value, ArgError>)
    requires arg.value.Some? ==> HasType(arg.value.value, d.ty)
    ensures r.Success? ==> HasType(r.value, d.ty)
  {
    var pos :- Positional(d, arg.optional, cli);
    var kw :- KeywordScan(d.ty, d.aliases, cli, pos);
    KeywordScanIsFold(d.ty, d.aliases, cli, pos);
    if kw.Some? then Success(kw.value)
    else if arg.value.Some? then Success(arg.value.value)
    else Success(DefaultOf(d.ty))
  }

  /** The token in the field's positional slot, if it is one the positional
      pass casts. */
  function PositionalText(d: FieldDecl, cli: seq<string>): Option<string> {
    if d.position.Some? && d.position.value < |cli| && !IsDash(cli[d.position.value])
    then Some(cli[d.position.value]) else None
  }

  /** Resolution precedence: the last keyword hit, else the positional
      token, else the declared default, else `T::default()`; and the
      resolution fails exactly when the slot holds a dash token for a
      required field, or when one of the texts it casts is rejected. */
  lemma ResolvePrecedence(d: FieldDecl, cli: seq<string>)
    requires MakeArgument(d).Success?
    ensures var r := ResolveField(d, MakeArgument(d).value, cli);
      var hits := Hits(d.aliases, cli);
      var slot := PositionalText(d, cli);
      var required := !(d.ty.OptionalOf? || d.default.Some?);
      && (r.Failure? <==>
           || (d.position.Some? && d.position.value < |cli| && IsDash(cli[d.position.value]) && required)
           || (slot.Some? && Parse(d.ty, slot.value).None?)
           || (exists i :: 0 <= i < |hits| && Parse(d.ty, hits[i]).None?))
      && (r.Success? ==>
           r.value == if |hits| > 0 then Parse(d.ty, hits[|hits| - 1]).value
             else if slot.Some? then Parse(d.ty, slot.value).value
             else if d.default.Some? then Parse(d.ty, d.default.value).value
             else DefaultOf(d.ty))
  {
    var arg := MakeArgument(d).value;
    var pos := Positional(d, arg.optional, cli);
    if pos.Success? {
      KeywordScanIsFold(d.ty, d.aliases, cli, pos.value);
    }
  }

  /** A bool flag whose aliases no token mentions, with no default and no
      positional slot, resolves to `false`. */
  lemma FlagAbsent(d: FieldDecl, cli: seq<string>)
    requires d.ty == BoolType && d.default.None? && d.position.None?
    requires forall i, k :: 0 <= i < |cli| && 0 <= k < |d.aliases| ==> Hit(d.aliases[k], cli[i]).None?
    ensures ResolveField(d, MakeArgument(d).value, cli) == Success(BoolVal(false))
  {
    ResolvePrecedence(d, cli);
    NoHits(d.aliases, cli);
  }

  lemma {:induction false} NoHits(aliases: seq<string>, cli: seq<string>)
    requires forall i, k :: 0 <= i < |cli| && 0 <= k < |aliases| ==> Hit(aliases[k], cli[i]).None?
    ensures Hits(aliases, cli) == []
    decreases |cli|
  {
    if |cli| > 0 {
      NoTokenHits(aliases, cli[0]);
      NoHits(aliases, cli[1..]);
    }
  }

  lemma {:induction false} NoTokenHits(aliases: seq<string>, t: string)
    requires forall k :: 0 <= k < |aliases| ==> Hit(aliases[k], t).None?
    ensures TokenHits(aliases, t) == []
    decreases |aliases|
  {
    if |aliases| > 0 {
      NoTokenHits(aliases[1..], t);
    }
  }

  /** When the last token is a bare dash alias of the field, the field gets
      what its type makes of the text "true" — whatever that type is: `true`
      for a bool flag, the string "true" for a text field, an error for a
      number. */
  lemma BareAliasLast(d: FieldDecl, cli: seq<string>)
    requires MakeArgument(d).Success?
    requires |cli| > 0 && cli[|cli| - 1] in d.aliases
    requires IsDash(cli[|cli| - 1]) && '=' !in cli[|cli| - 1]
    ensures var r := ResolveField(d, MakeArgument(d).value, cli);
      && (r.Success? ==> Some(r.value) == Parse(d.ty, "true"))
      && (Parse(d.ty, "true").None? ==> r.Failure?)
      && (d.ty == BoolType && r.Success? ==> r.value == BoolVal(true))
  {
    var t := cli[|cli| - 1];
    var k :| 0 <= k < |d.aliases| && d.aliases[k] == t;
    LastTokenHits(d.aliases, cli);
    BareTokenHits(d.aliases, t, k);
    var th := TokenHits(d.aliases, t);
    var h := Hits(d.aliases, cli);
    assert h[|h| - 1] == th[|th| - 1];
    assert th[|th| - 1] in th;
    ResolvePrecedence(d, cli);
  }

  /** The hits of the last token end the list of hits. */
  lemma LastTokenHits(aliases: seq<string>, cli: seq<string>)
    requires |cli| > 0 && IsDash(cli[|cli| - 1])
    ensures var th := TokenHits(aliases, cli[|cli| - 1]);
      var h := Hits(aliases, cli);
      |th| <= |h| && h[|h| - |th|..] == th
  {
    HitsSnoc(aliases, cli);
    var th := TokenHits(aliases, cli[|cli| - 1]);
    var pre := Hits(aliases, cli[..|cli| - 1]);
    assert (pre + th)[|pre|..] == th;
  }

  /** The hits of a token list are those of all but its last token, then
      those of the last. */
  lemma {:induction false} HitsSnoc(aliases: seq<string>, cli: seq<string>)
    requires |cli| > 0
    ensures Hits(aliases, cli) == Hits(aliases, cli[..|cli| - 1])
      + (if IsDash(cli[|cli| - 1]) then TokenHits(aliases, cli[|cli| - 1]) else [])
    decreases |cli|
  {
    var n := |cli|;
    var first := if IsDash(cli[0]) then TokenHits(aliases, cli[0]) else [];
    var last := if IsDash(cli[n - 1]) then TokenHits(aliases, cli[n - 1]) else [];
    if n == 1 {
      assert cli[..0] == [];
      assert Hits(aliases, cli[1..]) == [];
    } else {
      HitsSnoc(aliases, cli[1..]);
      assert cli[1..][..n - 2] == cli[..n - 1][1..];
      assert cli[1..][n - 2] == cli[n - 1];
      assert Hits(aliases, cli[..n - 1]) == first + Hits(aliases, cli[1..][..n - 2]);
    }
  }

  /** A bare alias token without '=' hands "true" to every alias it
      matches, and to no other. */
  lemma {:induction false} BareTokenHits(aliases: seq<string>, t: string, k: nat)
    requires k < |aliases| && aliases[k] == t && '=' !in t
    ensures |TokenHits(aliases, t)| > 0
    ensures forall x :: x in TokenHits(aliases, t) ==> x == "true"
    decreases |aliases|
  {
    assert SplitOnce(t, '=').None?;
    if k > 0 {
      BareTokenHits(aliases[1..], t, k - 1);
    } else {
      OnlyTrue(aliases[1..], t);
    }
  }

  lemma {:induction false} OnlyTrue(aliases: seq<string>, t: string)
    requires '=' !in t
    ensures forall x :: x in TokenHits(aliases, t) ==> x == "true"
    decreases |aliases|
  {
    assert SplitOnce(t, '=').None?;
    if |aliases| > 0 {
      OnlyTrue(aliases[1..], t);
    }
  }

  /** The fields in declaration order, each from its registry entry; the
      first field that fails aborts the whole configuration. */
  function ResolveAll(decls: seq<FieldDecl>, reg: map<string, Argument>, cli: seq<string>): (r: Result<seq<Value>, ArgError>)
    requires forall i :: 0 <= i < |decls| ==> decls[i].name in reg
    requires forall i :: 0 <= i < |decls| ==> var a := reg[decls[i].name];
      a.value.Some? ==> HasType(a.value.value, decls[i].ty)
    ensures r.Success? <==> forall i :: 0 <= i < |decls| ==> ResolveField(decls[i], reg[decls[i].name], cli).Success?
    ensures r.Success? ==> |r.value| == |decls|
    ensures r.Success? ==>
      forall i :: 0 <= i < |decls| ==> r.value[i] == ResolveField(decls[i], reg[decls[i].name], cli).value
    decreases |decls|
  {
    if |decls| == 0 then Success([])
    else
      var n := |decls| - 1;
      var init :- ResolveAll(decls[..n], reg, cli);
      var last :- ResolveField(decls[n], reg[decls[n].name], cli);
      Success(init + [last])
  }

  /** The first field that fails decides the error. */
  lemma {:induction false} ResolveAllFirstError(decls: seq<FieldDecl>, reg: map<string, Argument>, cli: seq<string>)
    requires forall i :: 0 <= i < |decls| ==> decls[i].name in reg
    requires forall i :: 0 <= i < |decls| ==> var a := reg[decls[i].name];
      a.value.Some? ==> HasType(a.value.value, decls[i].ty)
    requires ResolveAll(decls, reg, cli).Failure?
    ensures exists i :: (0 <= i < |decls|
      && (forall j :: 0 <= j < i ==> ResolveField(decls[j], reg[decls[j].name], cli).Success?)
      && ResolveField(decls[i], reg[decls[i].name], cli) == Failure(ResolveAll(decls, reg, cli).error))
    decreases |decls|
  {
    var n := |decls| - 1;
    var init := decls[..n];
    if ResolveAll(init, reg, cli).Failure? {
      ResolveAllFirstError(init, reg, cli);
      var i :| 0 <= i < |init|
        && (forall j :: 0 <= j < i ==> ResolveField(init[j], reg[init[j].name], cli).Success?)
        && ResolveField(init[i], reg[init[i].name], cli) == Failure(ResolveAll(init, reg, cli).error);
      assert init[i] == decls[i];
      assert forall j :: 0 <= j < i ==> init[j] == decls[j];
    } else {
      assert forall j :: 0 <= j < n ==> init[j] == decls[j];
    }
  }

  /** `parse_custom`: drop the executable name, build the registry, then
      resolve every field. A bad default fails before any token is looked
      at; otherwise each field is resolved from its own declaration, and
      the result holds one value of the declared type per field. */
  function ParseCustom(decls: seq<FieldDecl>, args: seq<string>): (r: Result<seq<Value>, ArgError>)
    requires DistinctFields(decls)
    ensures !AllDefaultsParse(decls) ==> r == Failure(GetArguments(decls).error)
    ensures r.Success? ==> |r.value| == |decls|
    ensures r.Success? ==> forall i :: 0 <= i < |decls| ==>
      HasType(r.value[i], decls[i].ty) && Success(r.value[i]) == ResolveField(decls[i], MakeArgument(decls[i]).value, Tail(args))
    ensures AllDefaultsParse(decls) ==>
      (r.Success? <==> forall i :: 0 <= i < |decls| ==> ResolveField(decls[i], MakeArgument(decls[i]).value, Tail(args)).Success?)
  {
    var cli := Tail(args);
    var reg :- GetArguments(decls);
    forall i | 0 <= i < |decls|
      ensures decls[i].name in reg && reg[decls[i].name] == MakeArgument(decls[i]).value
    {
      LookupByName(decls, i);
    }
    ResolveAll(decls, reg, cli)
  }

  /** When every field resolves, `parse_custom` returns exactly the
      resolved values, in declaration order. */
  lemma ParseCustomResolved(decls: seq<FieldDecl>, args: seq<string>, vals: seq<Value>)
    requires DistinctFields(decls) && AllDefaultsParse(decls) && |vals| == |decls|
    requires forall i :: 0 <= i < |decls| ==>
      ResolveField(decls[i], MakeArgument(decls[i]).value, Tail(args)) == Success(vals[i])
    ensures ParseCustom(decls, args) == Success(vals)
  {
    var cli := Tail(args);
    forall i | 0 <= i < |decls| ensures ResolveField(decls[i], MakeArgument(decls[i]).value, cli).Success? {
      assert ResolveField(decls[i], MakeArgument(decls[i]).value, cli) == Success(vals[i]);
    }
    var r := ParseCustom(decls, args);
    assert r.Success?;
    assert |r.value| == |vals|;
    forall i | 0 <= i < |vals| ensures r.value[i] == vals[i] {
      assert Success(r.value[i]) == ResolveField(decls[i], MakeArgument(decls[i]).value, cli);
    }
    assert r.value == vals;
  }

  /** Fail-fast: a failing `parse_custom` reports the first bad default if
      there is one, and otherwise the error of the first field that cannot
      be resolved; no partial configuration is returned. */
  lemma ParseCustomFirstError(decls: seq<FieldDecl>, args: seq<string>)
    requires DistinctFields(decls) && AllDefaultsParse(decls)
    requires ParseCustom(decls, args).Failure?
    ensures exists i :: (0 <= i < |decls|
      && (forall j :: 0 <= j < i ==> ResolveField(decls[j], MakeArgument(decls[j]).value, Tail(args)).Success?)
      && ResolveField(decls[i], MakeArgument(decls[i]).value, Tail(args)) == Failure(ParseCustom(decls, args).error))
  {
    var reg := GetArguments(decls).value;
    forall i | 0 <= i < |decls|
      ensures decls[i].name in reg && reg[decls[i].name] == MakeArgument(decls[i]).value
    {
      LookupByName(decls, i);
    }
    ResolveAllFirstError(decls, reg, Tail(args));
  }

  // ---------------------------------------------------------------------
  // Single-key lookup

  /** `CLIValue`: the outcome of `get`. */
  datatype CliValue = CliString(s: string) | CliBool(b: bool) | CliNone

  /** Token `t` names `key`: it is the key itself, or the key (holding no
      '=') followed by '=' and a value. */
  predicate Mentions(key: string, t: string) {
    t == key || ('=' !in key && StartsWith(t, key + "="))
  }

  /** The scan of `get` over the tokens after the executable name: the
      first token that mentions the key decides. */
  function GetScan(key: string, toks: seq<string>): (r: CliValue)
    ensures r.CliNone? <==> forall i :: 0 <= i < |toks| ==> !Mentions(key, toks[i])
    decreases |toks|
  {
    if |toks| == 0 then CliNone
    else if toks[0] == key then CliBool(true)
    else match SplitOnce(toks[0], '=')
      case Some((k, v)) =>
        if k == key then CliString(v)
        else
          assert !Mentions(key, toks[0]) by { SplitMention(key, toks[0]); }
          assert forall i :: 1 <= i < |toks| ==> toks[i] == toks[1..][i - 1];
          GetScan(key, toks[1..])
      case None =>
        assert !Mentions(key, toks[0]) by { SplitMention(key, toks[0]); }
        assert forall i :: 1 <= i < |toks| ==> toks[i] == toks[1..][i - 1];
        GetScan(key, toks[1..])
  }

  /** For a token other than the key itself, `Mentions` is exactly "the
      text before the first '=' is the key". */
  lemma SplitMention(key: string, t: string)
    requires t != key
    ensures Mentions(key, t) <==> SplitOnce(t, '=').Some? && SplitOnce(t, '=').value.0 == key
  {
    if Mentions(key, t) {
      var v := t[|key| + 1..];
      assert t == key + "=" + v;
      SplitOnceOfJoined(key, '=', v);
    }
  }

  /** `get(key)` over the argument vector `args`. */
  function Get(key: string, args: seq<string>): (r: CliValue)
    ensures r.CliNone? <==> forall i :: 1 <= i < |args| ==> !Mentions(key, args[i])
  {
    var toks := Tail(args);
    GetFirstMention(key, toks);
    assert forall i :: 1 <= i < |args| ==> args[i] == toks[i - 1];
    GetScan(key, toks)
  }

  /** What `get` returns, against the independent `Mentions`: `None` when no
      token after the executable mentions the key; otherwise the first such
      token decides, giving `Bool(true)` for the bare key and the text after
      "key=" for an assignment. The executable name itself never counts. */
  lemma {:induction false} GetFirstMention(key: string, toks: seq<string>)
    ensures GetScan(key, toks).CliNone? <==> forall i :: 0 <= i < |toks| ==> !Mentions(key, toks[i])
    ensures !GetScan(key, toks).CliNone? ==> exists i :: (0 <= i < |toks| && Mentions(key, toks[i])
      && (forall j :: 0 <= j < i ==> !Mentions(key, toks[j]))
      && GetScan(key, toks) == if toks[i] == key then CliBool(true) else CliString(toks[i][|key| + 1..]))
    decreases |toks|
  {
    if |toks| > 0 {
      if toks[0] == key {
        assert Mentions(key, toks[0]);
      } else {
        SplitMention(key, toks[0]);
        if Mentions(key, toks[0]) {
          var v := toks[0][|key| + 1..];
          assert toks[0] == key + "=" + v;
          SplitOnceOfJoined(key, '=', v);
        } else {
          GetFirstMention(key, toks[1..]);
          if !GetScan(key, toks[1..]).CliNone? {
            var i :| 0 <= i < |toks[1..]| && Mentions(key, toks[1..][i])
              && (forall j :: 0 <= j < i ==> !Mentions(key, toks[1..][j]))
              && GetScan(key, toks[1..]) == if toks[1..][i] == key then CliBool(true) else CliString(toks[1..][i][|key| + 1..]);
            assert forall j :: 1 <= j < i + 1 ==> toks[j] == toks[1..][j - 1];
            assert toks[i + 1] == toks[1..][i];
          }
        }
      }
    }
  }
}
