/** The configuration the crate's test intends (tests.rs:19-23; its macro
    invocation does not follow the `config_setup!` grammar) and its sample command
    line (tests.rs:48-55), worked through the model. */
module Scenario {
  import opened Wrappers
  import opened Optionals
  import opened Cast
  import opened Registry
  import opened Resolve

  const InputFile := FieldDecl("input_file", PathType, None, ["input_file"], Some(0), "")
  const OutputFile := FieldDecl("output_file", OptionalOf(PathType), None, ["output"], Some(1),
    "Saves to this file. Defaults to `out.txt` in the input file's parent directory.")
  const Verbose := FieldDecl("verbose", BoolType, None, ["-V", "--verbose"], None, "Enables verbose logging.")
  const HelpFlag := FieldDecl("help", BoolType, None, ["-h", "--help"], None, "Shows this help message.")
  const Template := FieldDecl("template", OptionalOf(StringType), Some("default_template_string"),
    ["-t", "--template"], None, "The template to use.")

  const Fields := [InputFile, OutputFile, Verbose, HelpFlag, Template]

  const Args := ["appname.exec", "/dev/null/input_file", "/dev/null/output_file", "-V", "-h"]

  const Cli := ["/dev/null/input_file", "/dev/null/output_file", "-V", "-h"]

  /** The expected configuration. */
  const Expected := [
    TextVal("/dev/null/input_file"),
    OptVal(Present(TextVal("/dev/null/output_file"))),
    BoolVal(true),
    BoolVal(true),
    OptVal(Present(TextVal("default_template_string")))]

  /** Command lines shaped like the sample: two path tokens that do not start
      with a dash, then the two flags. */
  predicate SampleShape(cli: seq<string>) {
    |cli| == 4 && !IsDash(cli[0]) && !IsDash(cli[1]) && cli[2] == "-V" && cli[3] == "-h"
  }

  lemma CliShape()
    ensures SampleShape(Cli)
  {
    assert Cli[0][0] == '/' && Cli[1][0] == '/';
  }

  /** Of the tokens of such a command line only the two flags reach the
      keyword pass. */
  lemma SampleHits(aliases: seq<string>, cli: seq<string>)
    requires SampleShape(cli)
    ensures Hits(aliases, cli) == TokenHits(aliases, "-V") + TokenHits(aliases, "-h")
  {
    var c2 := cli[1..][1..];
    assert c2[0] == "-V" && c2[1..][0] == "-h" && c2[1..][1..] == [];
    assert IsDash(c2[0]) && IsDash(c2[1..][0]);
    assert Hits(aliases, c2[1..]) == TokenHits(aliases, "-h") + [];
    assert Hits(aliases, c2) == TokenHits(aliases, "-V") + TokenHits(aliases, "-h");
    assert Hits(aliases, cli[1..]) == [] + Hits(aliases, c2);
  }

  /** A flag token without '=' hands "true" to its own alias only. */
  lemma FlagHit(a: string, t: string)
    requires '=' !in t
    ensures Hit(a, t) == if a == t then Some("true") else None
  {
  }

  lemma FlagHits(aliases: seq<string>, t: string, k: nat)
    requires '=' !in t && (k < |aliases| ==> aliases[k] == t)
    requires forall j :: 0 <= j < |aliases| && j != k ==> aliases[j] != t
    ensures TokenHits(aliases, t) == if k < |aliases| then ["true"] else []
    decreases |aliases|
  {
    if |aliases| > 0 {
      FlagHit(aliases[0], t);
      if k == 0 {
        FlagHits(aliases[1..], t, |aliases|);
      } else {
        FlagHits(aliases[1..], t, k - 1);
      }
    }
  }

  /** Aliases naming neither sample flag collect no hits. */
  lemma Unmentioned(aliases: seq<string>, cli: seq<string>)
    requires SampleShape(cli)
    requires forall j :: 0 <= j < |aliases| ==> aliases[j] != "-V" && aliases[j] != "-h"
    ensures Hits(aliases, cli) == []
  {
    SampleHits(aliases, cli);
    FlagHits(aliases, "-V", |aliases|);
    FlagHits(aliases, "-h", |aliases|);
  }

  /** A field no keyword mentions takes the token in its slot. */
  lemma FromSlot(d: FieldDecl, cli: seq<string>, v: Value)
    requires MakeArgument(d).Success? && Hits(d.aliases, cli) == []
    requires PositionalText(d, cli).Some? && Parse(d.ty, PositionalText(d, cli).value) == Some(v)
    ensures ResolveField(d, MakeArgument(d).value, cli) == Success(v)
  {
    ResolvePrecedence(d, cli);
  }

  /** A field without a slot takes its last keyword hit. */
  lemma FromLastHit(d: FieldDecl, cli: seq<string>, v: Value)
    requires MakeArgument(d).Success? && d.position.None?
    requires var h := Hits(d.aliases, cli);
      |h| > 0 && (forall x :: x in h ==> Parse(d.ty, x).Some?) && Parse(d.ty, h[|h| - 1]) == Some(v)
    ensures ResolveField(d, MakeArgument(d).value, cli) == Success(v)
  {
    var h := Hits(d.aliases, cli);
    assert forall i :: 0 <= i < |h| ==> h[i] in h;
    ResolvePrecedence(d, cli);
  }

  /** A field without a slot that no keyword mentions takes its default. */
  lemma FromDefault(d: FieldDecl, cli: seq<string>, v: Value)
    requires MakeArgument(d).Success? && d.position.None? && Hits(d.aliases, cli) == []
    requires d.default.Some? && Parse(d.ty, d.default.value) == Some(v)
    ensures ResolveField(d, MakeArgument(d).value, cli) == Success(v)
  {
    ResolvePrecedence(d, cli);
  }

  /** A bool flag without slot or default that exactly one token names is set. */
  lemma FlagSet(d: FieldDecl, cli: seq<string>)
    requires d.ty == BoolType && d.default.None? && d.position.None?
    requires Hits(d.aliases, cli) == ["true"]
    ensures MakeArgument(d).Success?
    ensures ResolveField(d, MakeArgument(d).value, cli) == Success(BoolVal(true))
  {
    assert Parse(BoolType, "true") == Some(BoolVal(true));
    FromLastHit(d, cli, BoolVal(true));
  }

  lemma InputFileValue(cli: seq<string>)
    requires SampleShape(cli)
    ensures MakeArgument(InputFile).Success?
    ensures ResolveField(InputFile, MakeArgument(InputFile).value, cli) == Success(TextVal(cli[0]))
  {
    Unmentioned(InputFile.aliases, cli);
    FromSlot(InputFile, cli, TextVal(cli[0]));
  }

  lemma OutputFileValue(cli: seq<string>)
    requires SampleShape(cli)
    ensures MakeArgument(OutputFile).Success?
    ensures ResolveField(OutputFile, MakeArgument(OutputFile).value, cli) == Success(OptVal(Present(TextVal(cli[1]))))
  {
    Unmentioned(OutputFile.aliases, cli);
    ParseOptional(PathType, cli[1]);
    FromSlot(OutputFile, cli, OptVal(Present(TextVal(cli[1]))));
  }

  lemma VerboseValue(cli: seq<string>)
    requires SampleShape(cli)
    ensures MakeArgument(Verbose).Success?
    ensures ResolveField(Verbose, MakeArgument(Verbose).value, cli) == Success(BoolVal(true))
  {
    var al := Verbose.aliases;
    SampleHits(al, cli);
    FlagHits(al, "-V", 0);
    FlagHits(al, "-h", 2);
    FlagSet(Verbose, cli);
  }

  lemma HelpFlagValue(cli: seq<string>)
    requires SampleShape(cli)
    ensures MakeArgument(HelpFlag).Success?
    ensures ResolveField(HelpFlag, MakeArgument(HelpFlag).value, cli) == Success(BoolVal(true))
  {
    var al := HelpFlag.aliases;
    SampleHits(al, cli);
    FlagHits(al, "-V", 2);
    FlagHits(al, "-h", 0);
    FlagSet(HelpFlag, cli);
  }

  lemma TemplateValue(cli: seq<string>)
    requires SampleShape(cli)
    ensures MakeArgument(Template).Success?
    ensures ResolveField(Template, MakeArgument(Template).value, cli) == Success(OptVal(Present(TextVal("default_template_string"))))
  {
    Unmentioned(Template.aliases, cli);
    ParseOptional(StringType, "default_template_string");
    FromDefault(Template, cli, OptVal(Present(TextVal("default_template_string"))));
  }

  lemma FieldValue(i: nat)
    requires i < |Fields|
    ensures MakeArgument(Fields[i]).Success?
    ensures ResolveField(Fields[i], MakeArgument(Fields[i]).value, Cli) == Success(Expected[i])
  {
    CliShape();
    if i == 0 {
      InputFileValue(Cli);
    } else if i == 1 {
      OutputFileValue(Cli);
    } else if i == 2 {
      VerboseValue(Cli);
    } else if i == 3 {
      HelpFlagValue(Cli);
    } else {
      TemplateValue(Cli);
    }
  }

  /** Every sample field resolves to its expected value. */
  lemma SampleFields()
    ensures AllDefaultsParse(Fields)
    ensures forall i :: 0 <= i < |Fields| ==>
      MakeArgument(Fields[i]).Success? && ResolveField(Fields[i], MakeArgument(Fields[i]).value, Cli) == Success(Expected[i])
  {
    forall i | 0 <= i < |Fields|
      ensures MakeArgument(Fields[i]).Success?
      ensures ResolveField(Fields[i], MakeArgument(Fields[i]).value, Cli) == Success(Expected[i])
    {
      FieldValue(i);
    }
  }

  /** The sample command line fills the two positional paths, sets both
      flags, and leaves the template at its declared default. */
  lemma SampleParse()
    ensures ParseCustom(Fields, Args) == Success(Expected)
  {
    assert Tail(Args) == Cli;
    assert DistinctFields(Fields);
    SampleFields();
    ParseCustomResolved(Fields, Args, Expected);
  }
}
