/** The help formatter (`help`, lib.rs:257-334) with its options
    (`HelpOptions`, lib.rs:73-91). The text is: "Usage: <exe>", a newline,
    one bracketed alias list per field in display order, a blank line, then
    one block per field: the indented alias list padded to a common column,
    the first description segment, and each further segment on its own line
    behind a fixed padding. */
module Help {
  import opened Wrappers
  import opened Text
  import opened Cast
  import opened Registry
  import opened Ordering
  import opened Wrap

  datatype HelpOptions = HelpOptions(
    descriptionOffset: nat,
    descriptionMaxLength: nat,
    splitAt: SplitAt,
    newlineExtraPadding: nat,
    indentLength: nat)

  /** `HelpOptions::default()`. */
  const DefaultOptions := HelpOptions(8, 50, Space, 2, 4)

  /** `options.unwrap_or(HelpOptions::default())`. */
  function OptionsOrDefault(options: Option<HelpOptions>): HelpOptions {
    if options.Some? then options.value else DefaultOptions
  }

  /** `longest_name`: the widest alias list, in UTF-8 bytes, 0 when there
      are no fields. */
  function Longest(es: seq<Argument>): (r: nat)
    ensures forall k :: 0 <= k < |es| ==> Utf8Len(PrettyName(es[k].keys)) <= r
    ensures |es| == 0 ==> r == 0
    ensures |es| > 0 ==> exists k :: 0 <= k < |es| && Utf8Len(PrettyName(es[k].keys)) == r
  {
    if |es| == 0 then 0
    else
      var rest := Longest(es[1..]);
      var here := Utf8Len(PrettyName(es[0].keys));
      assert forall k :: 1 <= k < |es| ==> es[k] == es[1..][k - 1];
      if here >= rest then here else rest
  }

  /** One usage item: `<aliases>` for a required field, `[aliases]` for an
      optional one, each after a space. */
  function UsageItem(a: Argument): string {
    if a.optional then " [" + PrettyName(a.keys) + "]" else " <" + PrettyName(a.keys) + ">"
  }

  function UsageList(s: seq<Argument>): string {
    if |s| == 0 then "" else UsageItem(s[0]) + UsageList(s[1..])
  }

  lemma {:induction false} UsageListAppend(s: seq<Argument>, t: seq<Argument>)
    ensures UsageList(s + t) == UsageList(s) + UsageList(t)
  {
    if |s| > 0 {
      assert (s + t)[0] == s[0];
      assert (s + t)[1..] == s[1..] + t;
      UsageListAppend(s[1..], t);
      var x := UsageItem(s[0]);
      assert UsageList(s + t) == x + UsageList(s[1..] + t);
      assert x + (UsageList(s[1..]) + UsageList(t)) == (x + UsageList(s[1..])) + UsageList(t);
    } else {
      assert s + t == t;
    }
  }

  /** The continuation lines of a wrapped description. */
  function Continuations(segs: seq<string>, pad: nat): string {
    if |segs| == 0 then "" else Spaces(pad) + segs[0] + "\n" + Continuations(segs[1..], pad)
  }

  /** The source computes the continuation padding as
      `indent + longest + offset - 1` in `usize`, which underflows when that
      sum is 0 and a continuation line exists; a zero width makes `i % 0`
      panic on the first character. */
  predicate BlockDefined(a: Argument, o: HelpOptions, longest: nat) {
    && WrapDefined(a.description, o.descriptionMaxLength)
    && (o.indentLength + longest + o.descriptionOffset > 0
        || |SplitDescription(a.description, o.descriptionMaxLength, o.splitAt)| <= 1)
  }

  /** The indent and the padded alias list in front of a description. */
  function Head(a: Argument, o: HelpOptions, longest: nat): string {
    Spaces(o.indentLength) + PadRight(PrettyName(a.keys), longest + o.descriptionOffset)
  }

  /** The padding of continuation lines, `(indent + longest + offset - 1)
      + extra`; negative exactly where the `usize` subtraction underflows. */
  function ContinuationPad(o: HelpOptions, longest: nat): int {
    o.indentLength + longest + o.descriptionOffset - 1 + o.newlineExtraPadding
  }

  /** A head followed by wrapped segments: the first segment on the head's
      line (a bare newline when there is none), every further segment on a
      line of its own behind `pad` spaces. */
  function BlockText(head: string, segs: seq<string>, pad: int): string
    requires |segs| > 1 ==> pad >= 0
  {
    var first := if |segs| == 0 then "\n" else segs[0] + "\n";
    var rest := if |segs| <= 1 then "" else Continuations(segs[1..], pad);
    head + first + rest
  }

  /** One field's lines (lib.rs:290-330). */
  function FieldBlock(a: Argument, o: HelpOptions, longest: nat): string
    requires BlockDefined(a, o, longest)
  {
    BlockText(Head(a, o, longest), SplitDescription(a.description, o.descriptionMaxLength, o.splitAt),
      ContinuationPad(o, longest))
  }

  function Blocks(s: seq<Argument>, o: HelpOptions, longest: nat): string
    requires forall k :: 0 <= k < |s| ==> BlockDefined(s[k], o, longest)
  {
    if |s| == 0 then "" else FieldBlock(s[0], o, longest) + Blocks(s[1..], o, longest)
  }

  /** The cases in which `help` runs without panicking, once the registry
      builds. */
  predicate HelpDefined(decls: seq<FieldDecl>, options: Option<HelpOptions>) {
    GetArguments(decls).Success? ==>
      var es := Entries(decls, GetArguments(decls).value);
      forall k :: 0 <= k < |es| ==> BlockDefined(es[k], OptionsOrDefault(options), Longest(es))
  }

  /** The display-ordered entries `help` walks. */
  function Displayed(decls: seq<FieldDecl>): (r: seq<Argument>)
    requires AllDefaultsParse(decls)
    ensures Sorted(r)
    ensures multiset(r) == multiset(Entries(decls, GetArguments(decls).value))
  {
    SortForDisplay(Entries(decls, GetArguments(decls).value))
  }

  /** Sorting keeps every entry's block well defined. */
  lemma SortedBlocksDefined(es: seq<Argument>, sorted: seq<Argument>, o: HelpOptions, longest: nat)
    requires multiset(sorted) == multiset(es)
    requires forall k :: 0 <= k < |es| ==> BlockDefined(es[k], o, longest)
    ensures forall k :: 0 <= k < |sorted| ==> BlockDefined(sorted[k], o, longest)
  {
    forall k | 0 <= k < |sorted| ensures BlockDefined(sorted[k], o, longest) {
      assert sorted[k] in multiset(es);
    }
  }

  /** The whole text for display-ordered entries. */
  function HelpText(exe: string, sorted: seq<Argument>, o: HelpOptions, longest: nat): (r: string)
    requires forall k :: 0 <= k < |sorted| ==> BlockDefined(sorted[k], o, longest)
    ensures StartsWith(r, "Usage: " + exe + "\n")
  {
    var header := "Usage: " + exe + "\n";
    var text := header + UsageList(sorted) + "\n\n" + Blocks(sorted, o, longest);
    assert text[..|header|] == header;
    text
  }

  /** `help`: fails exactly when the registry cannot be built. */
  function Help(exe: string, decls: seq<FieldDecl>, options: Option<HelpOptions>): (r: Result<string, ArgError>)
    requires HelpDefined(decls, options)
    ensures r.Failure? <==> !AllDefaultsParse(decls)
    ensures r.Success? ==> StartsWith(r.value, "Usage: " + exe + "\n")
  {
    var o := OptionsOrDefault(options);
    var reg :- GetArguments(decls);
    var es := Entries(decls, reg);
    var longest := Longest(es);
    var sorted := SortForDisplay(es);
    SortedBlocksDefined(es, sorted, o, longest);
    Success(HelpText(exe, sorted, o, longest))
  }

  /** When no required item follows an optional one, as in display order,
      the usage line is all `<...>` items followed by all `[...]` items. */
  lemma UsageRequiredFirst(s: seq<Argument>)
    requires forall i, j :: 0 <= i < j < |s| && s[i].optional ==> s[j].optional
    ensures var k := FirstOptional(s);
      && (forall i :: k <= i < |s| ==> s[i].optional)
      && UsageList(s) == UsageList(s[..k]) + UsageList(s[k..])
  {
    var k := FirstOptional(s);
    forall i | k <= i < |s| ensures s[i].optional {
      if i > k {
        assert s[k].optional;
      }
    }
    UsageSplit(s, k);
  }

  lemma UsageSplit(s: seq<Argument>, k: nat)
    requires k <= |s|
    ensures UsageList(s) == UsageList(s[..k]) + UsageList(s[k..])
  {
    assert s == s[..k] + s[k..];
    UsageListAppend(s[..k], s[k..]);
  }

  /** Index of the first optional entry, |s| if there is none. */
  function FirstOptional(s: seq<Argument>): (k: nat)
    ensures k <= |s|
    ensures forall i :: 0 <= i < k ==> !s[i].optional
    ensures k < |s| ==> s[k].optional
  {
    if |s| == 0 || s[0].optional then 0
    else 1 + FirstOptional(s[1..])
  }

  /** The alias column: each field line starts with `indent` spaces and its
      alias list, padded with spaces so that the description begins at the
      same column `indent + longest + offset` on every line. */
  lemma FieldBlockAligned(a: Argument, o: HelpOptions, longest: nat)
    requires BlockDefined(a, o, longest)
    requires Utf8Len(PrettyName(a.keys)) <= longest
    ensures var h := Head(a, o, longest);
      && |h| == o.indentLength + longest + o.descriptionOffset
      && (forall i :: 0 <= i < o.indentLength ==> h[i] == ' ')
      && h[o.indentLength..o.indentLength + |PrettyName(a.keys)|] == PrettyName(a.keys)
      && (forall i :: o.indentLength + |PrettyName(a.keys)| <= i < |h| ==> h[i] == ' ')
      && StartsWith(FieldBlock(a, o, longest), h)
  {
    HeadLayout(PrettyName(a.keys), o.indentLength, longest + o.descriptionOffset);
    HeadStartsBlock(a, o, longest);
  }

  /** `indent` spaces, then `p` padded to `width`, for `p` no wider. */
  lemma HeadLayout(p: string, indent: nat, width: nat)
    requires |p| <= width
    ensures var h := Spaces(indent) + PadRight(p, width);
      && |h| == indent + width
      && (forall i :: 0 <= i < indent ==> h[i] == ' ')
      && h[indent..indent + |p|] == p
      && (forall i :: indent + |p| <= i < |h| ==> h[i] == ' ')
  {
    var pad := PadRight(p, width);
    var h := Spaces(indent) + pad;
    assert h[indent..] == pad;
    assert h[indent..indent + |p|] == pad[..|p|];
    forall i | indent + |p| <= i < |h| ensures h[i] == ' ' {
      assert h[i] == pad[i - indent];
    }
  }

  lemma HeadStartsBlock(a: Argument, o: HelpOptions, longest: nat)
    requires BlockDefined(a, o, longest)
    ensures StartsWith(FieldBlock(a, o, longest), Head(a, o, longest))
  {
    var h := Head(a, o, longest);
    var b := FieldBlock(a, o, longest);
    assert b[..|h|] == h;
  }

  /** Every field of the help text is laid out against the same column. */
  lemma HelpColumnsAligned(decls: seq<FieldDecl>, options: Option<HelpOptions>)
    requires HelpDefined(decls, options) && AllDefaultsParse(decls)
    ensures var es := Entries(decls, GetArguments(decls).value);
      var o := OptionsOrDefault(options);
      forall k :: 0 <= k < |es| ==>
        |Head(es[k], o, Longest(es))| == o.indentLength + Longest(es) + o.descriptionOffset
  {
    var es := Entries(decls, GetArguments(decls).value);
    var o := OptionsOrDefault(options);
    forall k | 0 <= k < |es|
      ensures |Head(es[k], o, Longest(es))| == o.indentLength + Longest(es) + o.descriptionOffset
    {
      FieldBlockAligned(es[k], o, Longest(es));
    }
  }

  /** The help text starts with the usage line: "Usage: <exe>", a newline,
      then the required fields' `<...>` items and the optional fields'
      `[...]` items in display order, then a blank line. */
  lemma HelpUsageLine(exe: string, decls: seq<FieldDecl>, options: Option<HelpOptions>)
    requires HelpDefined(decls, options) && AllDefaultsParse(decls)
    ensures var d := Displayed(decls);
      var k := FirstOptional(d);
      && (forall i :: k <= i < |d| ==> d[i].optional)
      && StartsWith(Help(exe, decls, options).value,
           "Usage: " + exe + "\n" + UsageList(d[..k]) + UsageList(d[k..]) + "\n\n")
  {
    var d := Displayed(decls);
    HelpIsText(exe, decls, options);
    var es := Entries(decls, GetArguments(decls).value);
    HelpTextStart(exe, d, OptionsOrDefault(options), Longest(es));
    RequiredBeforeOptional(d);
    UsageRequiredFirst(d);
    var k := FirstOptional(d);
    PrefixRegroup(Help(exe, decls, options).value, "Usage: " + exe + "\n",
      UsageList(d), UsageList(d[..k]), UsageList(d[k..]));
  }

  lemma PrefixRegroup(t: string, a: string, u: string, b: string, c: string)
    requires u == b + c
    requires StartsWith(t, a + u + "\n\n")
    ensures StartsWith(t, a + b + c + "\n\n")
  {
    assert a + u + "\n\n" == a + b + c + "\n\n";
  }

  lemma HelpIsText(exe: string, decls: seq<FieldDecl>, options: Option<HelpOptions>)
    requires HelpDefined(decls, options) && AllDefaultsParse(decls)
    ensures var es := Entries(decls, GetArguments(decls).value);
      var o := OptionsOrDefault(options);
      && (forall k :: 0 <= k < |Displayed(decls)| ==> BlockDefined(Displayed(decls)[k], o, Longest(es)))
      && Help(exe, decls, options) == Success(HelpText(exe, Displayed(decls), o, Longest(es)))
  {
    var es := Entries(decls, GetArguments(decls).value);
    SortedBlocksDefined(es, Displayed(decls), OptionsOrDefault(options), Longest(es));
  }

  lemma HelpTextStart(exe: string, d: seq<Argument>, o: HelpOptions, longest: nat)
    requires forall k :: 0 <= k < |d| ==> BlockDefined(d[k], o, longest)
    ensures StartsWith(HelpText(exe, d, o, longest), "Usage: " + exe + "\n" + UsageList(d) + "\n\n")
  {
    var prefix := "Usage: " + exe + "\n" + UsageList(d) + "\n\n";
    var text := HelpText(exe, d, o, longest);
    assert text == prefix + Blocks(d, o, longest);
    assert text[..|prefix|] == prefix;
  }

  // ---------------------------------------------------------------------
  // The field blocks as lines

  /** Each segment behind `pad` spaces, one line per segment. */
  function PadLines(segs: seq<string>, pad: nat): (r: seq<string>)
    ensures |r| == |segs|
    ensures forall k :: 0 <= k < |segs| ==> r[k] == Spaces(pad) + segs[k]
  {
    seq(|segs|, k requires 0 <= k < |segs| => Spaces(pad) + segs[k])
  }

  lemma {:induction false} ContinuationsAreLines(segs: seq<string>, pad: nat)
    ensures Continuations(segs, pad) == Unlines(PadLines(segs, pad))
  {
    if |segs| > 0 {
      assert PadLines(segs, pad)[1..] == PadLines(segs[1..], pad);
      ContinuationsAreLines(segs[1..], pad);
    }
  }

  /** The lines of a head followed by wrapped segments. */
  function LayoutLines(head: string, segs: seq<string>, pad: int): seq<string>
    requires |segs| > 1 ==> pad >= 0
  {
    [head + (if |segs| == 0 then "" else segs[0])] + (if |segs| <= 1 then [] else PadLines(segs[1..], pad))
  }

  lemma LayoutIsLines(head: string, segs: seq<string>, pad: int)
    requires |segs| > 1 ==> pad >= 0
    ensures var ls := LayoutLines(head, segs, pad);
      && BlockText(head, segs, pad) == Unlines(ls)
      && |ls| == (if |segs| == 0 then 1 else |segs|)
      && ls[0] == head + (if |segs| == 0 then "" else segs[0])
      && (forall k :: 1 <= k < |ls| ==> ls[k] == Spaces(pad) + segs[k])
  {
    var first := if |segs| == 0 then "" else segs[0];
    var ls := LayoutLines(head, segs, pad);
    if |segs| <= 1 {
      assert ls == [head + first];
      assert BlockText(head, segs, pad) == head + first + "\n";
    } else {
      var tail := PadLines(segs[1..], pad);
      assert ls == [head + first] + tail;
      ContinuationsAreLines(segs[1..], pad);
      UnlinesAppend([head + first], tail);
      assert Unlines([head + first]) == head + first + "\n";
      forall k | 1 <= k < |ls| ensures ls[k] == Spaces(pad) + segs[k] {
        assert ls[k] == tail[k - 1];
      }
    }
  }

  /** The lines a field's block is made of. */
  function BlockLines(a: Argument, o: HelpOptions, longest: nat): seq<string>
    requires BlockDefined(a, o, longest)
  {
    LayoutLines(Head(a, o, longest), SplitDescription(a.description, o.descriptionMaxLength, o.splitAt),
      ContinuationPad(o, longest))
  }

  /** A field's block is its lines, each ended by a newline: one line for an
      empty or one-segment description, one line per segment otherwise; the
      first starts with the head and carries the first segment, every later
      line is exactly the continuation padding followed by its segment. */
  lemma FieldBlockLines(a: Argument, o: HelpOptions, longest: nat)
    requires BlockDefined(a, o, longest)
    ensures var segs := SplitDescription(a.description, o.descriptionMaxLength, o.splitAt);
      var ls := BlockLines(a, o, longest);
      && FieldBlock(a, o, longest) == Unlines(ls)
      && |ls| == (if |segs| == 0 then 1 else |segs|)
      && ls[0] == Head(a, o, longest) + (if |segs| == 0 then "" else segs[0])
      && (|ls| > 1 ==> ContinuationPad(o, longest) >= 0)
      && (forall k :: 1 <= k < |ls| ==> ls[k] == Spaces(ContinuationPad(o, longest)) + segs[k])
  {
    var segs := SplitDescription(a.description, o.descriptionMaxLength, o.splitAt);
    LayoutIsLines(Head(a, o, longest), segs, ContinuationPad(o, longest));
  }

  /** Undoing the layout: the first line without the head, then every later
      line without the padding. */
  function StripBlock(ls: seq<string>, headLen: nat, pad: int): string
    requires |ls| > 0 && headLen <= |ls[0]|
    requires |ls| > 1 ==> pad >= 0
    requires forall k :: 1 <= k < |ls| ==> pad <= |ls[k]|
  {
    ls[0][headLen..] + Concat(seq(|ls| - 1, k requires 0 <= k < |ls| - 1 => ls[k + 1][pad..]))
  }

  lemma StripLayout(head: string, segs: seq<string>, pad: int)
    requires |segs| > 1 ==> pad >= 0
    ensures var ls := LayoutLines(head, segs, pad);
      && |ls| > 0 && |head| <= |ls[0]|
      && (forall k :: 1 <= k < |ls| ==> pad <= |ls[k]|)
      && StripBlock(ls, |head|, pad) == Concat(segs)
  {
    var ls := LayoutLines(head, segs, pad);
    LayoutIsLines(head, segs, pad);
    assert ls[0][|head|..] == if |segs| == 0 then "" else segs[0];
    var stripped := seq(|ls| - 1, k requires 0 <= k < |ls| - 1 => ls[k + 1][pad..]);
    if |segs| == 0 {
      assert stripped == [];
    } else {
      assert stripped == segs[1..] by {
        forall k | 0 <= k < |ls| - 1 ensures stripped[k] == segs[k + 1] {
          assert ls[k + 1] == Spaces(pad) + segs[k + 1];
        }
      }
      assert Concat(segs) == segs[0] + Concat(segs[1..]);
    }
  }

  /** Removing the head, the continuation padding and the line ends from a
      field's block gives its description back: the wrap loses nothing. */
  lemma BlockStripsToDescription(a: Argument, o: HelpOptions, longest: nat)
    requires BlockDefined(a, o, longest)
    ensures var ls := BlockLines(a, o, longest);
      var hl := |Head(a, o, longest)|;
      var pad := ContinuationPad(o, longest);
      && |ls| > 0 && hl <= |ls[0]| && (|ls| > 1 ==> pad >= 0)
      && (forall k :: 1 <= k < |ls| ==> pad <= |ls[k]|)
      && StripBlock(ls, hl, pad) == a.description
  {
    var segs := SplitDescription(a.description, o.descriptionMaxLength, o.splitAt);
    FieldBlockLines(a, o, longest);
    StripLayout(Head(a, o, longest), segs, ContinuationPad(o, longest));
    WrapLossless(a.description, o.descriptionMaxLength, o.splitAt);
  }

  /** The lines of every entry's block, entry by entry. */
  function PerField(d: seq<Argument>, o: HelpOptions, longest: nat): (r: seq<seq<string>>)
    requires forall k :: 0 <= k < |d| ==> BlockDefined(d[k], o, longest)
    ensures |r| == |d|
    ensures forall k :: 0 <= k < |d| ==> r[k] == BlockLines(d[k], o, longest)
  {
    seq(|d|, k requires 0 <= k < |d| => BlockLines(d[k], o, longest))
  }

  lemma {:induction false} BlocksAreLines(d: seq<Argument>, o: HelpOptions, longest: nat)
    requires forall k :: 0 <= k < |d| ==> BlockDefined(d[k], o, longest)
    ensures Blocks(d, o, longest) == Unlines(Flatten(PerField(d, o, longest)))
  {
    if |d| > 0 {
      var groups := PerField(d, o, longest);
      assert groups[1..] == PerField(d[1..], o, longest);
      BlocksAreLines(d[1..], o, longest);
      FieldBlockLines(d[0], o, longest);
      UnlinesAppend(groups[0], Flatten(groups[1..]));
    }
  }

  /** The whole help text, line by line: "Usage: <exe>", the usage items, a
      blank line, then the block of every field in display order, each
      block as `FieldBlockLines` lays it out. */
  lemma HelpTextLines(exe: string, decls: seq<FieldDecl>, options: Option<HelpOptions>)
    requires HelpDefined(decls, options) && AllDefaultsParse(decls)
    ensures var d := Displayed(decls);
      var o := OptionsOrDefault(options);
      var longest := Longest(Entries(decls, GetArguments(decls).value));
      && (forall k :: 0 <= k < |d| ==> BlockDefined(d[k], o, longest))
      && Help(exe, decls, options).value
           == Unlines(["Usage: " + exe, UsageList(d), ""] + Flatten(PerField(d, o, longest)))
  {
    var d := Displayed(decls);
    var o := OptionsOrDefault(options);
    var longest := Longest(Entries(decls, GetArguments(decls).value));
    HelpIsText(exe, decls, options);
    BlocksAreLines(d, o, longest);
    HeaderLines(exe, UsageList(d), Flatten(PerField(d, o, longest)));
  }

  lemma HeaderLines(exe: string, usage: string, rest: seq<string>)
    ensures Unlines(["Usage: " + exe, usage, ""] + rest)
      == "Usage: " + exe + "\n" + usage + "\n\n" + Unlines(rest)
  {
    var x := "Usage: " + exe;
    var header := [x, usage, ""];
    UnlinesAppend(header, rest);
    assert header[1..] == [usage, ""] && header[1..][1..] == [""];
    assert Unlines([""]) == "\n";
    assert Unlines([usage, ""]) == usage + "\n" + "\n";
    assert Unlines(header) == x + "\n" + (usage + "\n" + "\n");
  }
}
