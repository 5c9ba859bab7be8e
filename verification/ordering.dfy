/** Display order of the registry (`sort_arguments_vector`, lib.rs:234-249):
    a stable sort by the TEXT "<0|1><position><name>", where the flag is 1
    for optional fields and a missing position prints as `usize::MAX`. The
    comparison is textual, so position 10 sorts before position 2. */
module Ordering {
  import opened Wrappers
  import opened Text
  import opened Cast
  import opened Registry

  /** `usize::MAX` as `{}` prints it on a 64-bit target (see
      `UsizeMaxPrints`). */
  const UsizeMaxText: string := "18446744073709551615"

  /** The position as `{}` prints it, `usize::MAX` when there is none. */
  function PositionText(a: Argument): string {
    if a.position.Some? then Decimal(a.position.value) else UsizeMaxText
  }

  /** The string the comparator builds for one entry. */
  function SortKey(a: Argument): string {
    Flag(a) + PositionText(a) + a.fieldName
  }

  predicate KeyLe(a: Argument, b: Argument) {
    LexLe(SortKey(a), SortKey(b))
  }

  predicate Sorted(s: seq<Argument>) {
    forall i, j :: 0 <= i < j < |s| ==> KeyLe(s[i], s[j])
  }

  /** Places `x` before the first entry whose key is not below it, so `x`
      stays ahead of entries with an equal key (the sort is stable). */
  function Insert(x: Argument, s: seq<Argument>): (r: seq<Argument>)
    requires Sorted(s)
    ensures Sorted(r)
    ensures multiset(r) == multiset(s) + multiset{x}
  {
    if |s| == 0 then [x]
    else if KeyLe(x, s[0]) then
      InsertFront(x, s);
      [x] + s
    else
      SortedTail(s);
      var rest := Insert(x, s[1..]);
      InsertBehind(x, s, rest);
      [s[0]] + rest
  }

  lemma InsertFront(x: Argument, s: seq<Argument>)
    requires Sorted(s) && |s| > 0 && KeyLe(x, s[0])
    ensures Sorted([x] + s)
  {
    forall j | 0 <= j < |s| ensures KeyLe(x, s[j]) {
      if j > 0 { LexLeTransitive(SortKey(x), SortKey(s[0]), SortKey(s[j])); }
    }
    SortedCons(x, s);
  }

  lemma InsertBehind(x: Argument, s: seq<Argument>, rest: seq<Argument>)
    requires Sorted(s) && |s| > 0 && !KeyLe(x, s[0])
    requires Sorted(rest) && multiset(rest) == multiset(s[1..]) + multiset{x}
    ensures Sorted([s[0]] + rest)
    ensures multiset([s[0]] + rest) == multiset(s) + multiset{x}
  {
    LexLeTotal(SortKey(x), SortKey(s[0]));
    forall j | 0 <= j < |rest| ensures KeyLe(s[0], rest[j]) {
      assert rest[j] in multiset(rest);
      if rest[j] != x {
        HeadBelow(s, rest[j]);
      }
    }
    SortedCons(s[0], rest);
    assert s == [s[0]] + s[1..];
    assert multiset([s[0]] + rest) == multiset{s[0]} + multiset(rest);
  }

  /** The head of a sorted list is below everything in its tail. */
  lemma HeadBelow(s: seq<Argument>, y: Argument)
    requires Sorted(s) && |s| > 0 && y in multiset(s[1..])
    ensures KeyLe(s[0], y)
  {
    var k :| 0 <= k < |s[1..]| && s[1..][k] == y;
    assert s[k + 1] == y;
  }

  lemma SortedCons(h: Argument, t: seq<Argument>)
    requires Sorted(t)
    requires forall j :: 0 <= j < |t| ==> KeyLe(h, t[j])
    ensures Sorted([h] + t)
  {
    ConsChain(h, t, KeyLe);
  }

  /** The list shape of `SortedCons`, for any relation: stated once over
      an abstract `le` so the proof does not look inside the key. */
  lemma ConsChain<T>(h: T, t: seq<T>, le: (T, T) -> bool)
    requires forall i, j :: 0 <= i < j < |t| ==> le(t[i], t[j])
    requires forall j :: 0 <= j < |t| ==> le(h, t[j])
    ensures forall i, j :: 0 <= i < j < |[h] + t| ==> le(([h] + t)[i], ([h] + t)[j])
  {
    var r := [h] + t;
    forall i, j | 0 <= i < j < |r| ensures le(r[i], r[j]) {
      assert r[j] == t[j - 1];
      if i > 0 {
        assert r[i] == t[i - 1];
      }
    }
  }

  /** `sort_by` with the key comparator: a sorted permutation. */
  function SortForDisplay(s: seq<Argument>): (r: seq<Argument>)
    ensures Sorted(r)
    ensures multiset(r) == multiset(s)
    ensures |r| == |s|
  {
    if |s| == 0 then []
    else
      assert s == [s[0]] + s[1..];
      Insert(s[0], SortForDisplay(s[1..]))
  }

  /** In display order every required field precedes every optional one. */
  lemma RequiredBeforeOptional(s: seq<Argument>)
    requires Sorted(s)
    ensures forall i, j :: 0 <= i < j < |s| && s[i].optional ==> s[j].optional
  {
    forall i, j | 0 <= i < j < |s| && s[i].optional ensures s[j].optional {
      assert KeyLe(s[i], s[j]);
      assert SortKey(s[i])[0] == '1';
      assert SortKey(s[j])[0] == if s[j].optional then '1' else '0';
    }
  }

  /** Two fields of equal optionality: the one at position 10 is listed
      before the one at position 2, whatever their names. */
  lemma PositionTenBeforeTwo(a: Argument, b: Argument)
    requires a.optional == b.optional
    requires a.position == Some(10) && b.position == Some(2)
    ensures KeyLe(a, b) && !KeyLe(b, a)
  {
    assert PositionText(a) == "10";
    assert PositionText(b) == "2";
    FirstPositionCharDecides(a, b);
  }

  /** A field without a position prints `usize::MAX`, which begins with "1",
      so it is listed before fields of equal optionality at positions 2..9. */
  lemma NoPositionBeforeSmallDigit(a: Argument, b: Argument, p: nat)
    requires a.optional == b.optional
    requires a.position.None? && b.position == Some(p) && 2 <= p <= 9
    ensures KeyLe(a, b) && !KeyLe(b, a)
  {
    UnpositionedLeadsWithOne(a);
    SmallPositionLeads(b, p);
    FirstPositionCharDecides(a, b);
  }

  /** Positions 2..9 print as a single digit above '1'. */
  lemma SmallPositionLeads(b: Argument, p: nat)
    requires b.position == Some(p) && 2 <= p <= 9
    ensures PositionText(b)[0] > '1'
  {
  }

  /** Between fields of equal optionality the first character of the
      printed position decides when the two differ. */
  lemma FirstPositionCharDecides(a: Argument, b: Argument)
    requires a.optional == b.optional
    requires PositionText(a)[0] < PositionText(b)[0]
    ensures KeyLe(a, b) && !KeyLe(b, a)
  {
    var ka := PositionText(a) + a.fieldName;
    var kb := PositionText(b) + b.fieldName;
    LexLeFirstChar(ka, kb);
    SortKeySplit(a);
    SortKeySplit(b);
    LexLeCommonPrefix(Flag(a), ka, kb);
    LexLeCommonPrefix(Flag(a), kb, ka);
  }

  lemma LexLeFirstChar(x: string, y: string)
    requires |x| > 0 && |y| > 0 && x[0] < y[0]
    ensures LexLe(x, y) && !LexLe(y, x)
  {
  }

  function Flag(a: Argument): string {
    if a.optional then "1" else "0"
  }

  lemma SortKeySplit(a: Argument)
    ensures SortKey(a) == Flag(a) + (PositionText(a) + a.fieldName)
  {
  }

  lemma UnpositionedLeadsWithOne(a: Argument)
    requires a.position.None?
    ensures PositionText(a)[0] == '1'
  {
  }

  function Pow10(e: nat): nat {
    if e == 0 then 1 else 10 * Pow10(e - 1)
  }

  /** Printing `hi` followed by the exactly `e` digits of `lo` prints
      `hi * 10^e + lo`. */
  lemma DecimalConcat(hi: nat, lo: nat, e: nat)
    requires hi >= 1 && e >= 1 && Pow10(e - 1) <= lo < Pow10(e)
    ensures Decimal(hi * Pow10(e) + lo) == Decimal(hi) + Decimal(lo)
  {
    DecimalJoin(hi, lo, e, hi * Pow10(e) + lo);
  }

  lemma {:induction false} DecimalJoin(hi: nat, lo: nat, e: nat, n: nat)
    requires hi >= 1 && e >= 1 && Pow10(e - 1) <= lo < Pow10(e)
    requires n == hi * Pow10(e) + lo
    ensures Decimal(n) == Decimal(hi) + Decimal(lo)
  {
    var p := Pow10(e - 1);
    assert Pow10(e) == 10 * p;
    ShiftDigit(hi, lo, p);
    var m := n / 10;
    var d := [DigitChar(lo % 10)];
    DecimalStep(n);
    assert Decimal(n) == Decimal(m) + d;
    if e == 1 {
      assert m == hi;
      assert Decimal(lo) == d;
    } else {
      ShiftBounds(lo, Pow10(e - 2));
      DecimalJoin(hi, lo / 10, e - 1, m);
      DecimalStep(lo);
      AppendAssoc(Decimal(hi), Decimal(lo / 10), d);
    }
  }

  lemma AppendAssoc(x: string, y: string, z: string)
    ensures (x + y) + z == x + (y + z)
  {
  }

  lemma DecimalStep(n: nat)
    requires n >= 10
    ensures Decimal(n) == Decimal(n / 10) + [DigitChar(n % 10)]
  {
  }

  lemma ShiftDigit(hi: nat, lo: nat, p: nat)
    ensures (hi * (10 * p) + lo) / 10 == hi * p + lo / 10
    ensures (hi * (10 * p) + lo) % 10 == lo % 10
    ensures hi >= 1 && p >= 1 ==> hi * (10 * p) + lo >= 10
  {
    assert hi * (10 * p) == (hi * p) * 10;
  }

  lemma ShiftBounds(lo: nat, q: nat)
    requires 10 * q <= lo < 10 * (10 * q)
    ensures q <= lo / 10 < 10 * q
  {
  }

  /** `UsizeMaxText` is what `{}` prints for `usize::MAX`. */
  lemma UsizeMaxPrints()
    ensures Decimal(UsizeMax) == UsizeMaxText
  {
    UsizeMaxHalves();
    PrintsHigh();
    PrintsLow();
    MaxTextHalves();
  }

  lemma UsizeMaxHalves()
    ensures Decimal(UsizeMax) == Decimal(1844674407) + Decimal(3709551615)
  {
    assert Pow10(10) == 10000000000;
    DecimalConcat(1844674407, 3709551615, 10);
  }

  lemma MaxTextHalves()
    ensures UsizeMaxText == "1844674407" + "3709551615"
  {
  }

  lemma PrintsHigh()
    ensures Decimal(1844674407) == "1844674407"
  {
    assert Pow10(5) == 100000;
    DecimalConcat(18446, 74407, 5);
    assert Decimal(18446) == "18446";
    assert Decimal(74407) == "74407";
  }

  lemma PrintsLow()
    ensures Decimal(3709551615) == "3709551615"
  {
    assert Pow10(5) == 100000;
    DecimalConcat(37095, 51615, 5);
    assert Decimal(37095) == "37095";
    assert Decimal(51615) == "51615";
  }

  /** For a name that starts, as every Rust identifier does, with a
      character above '9' (a letter or '_'), an unpositioned field also
      precedes an equally optional field at position 1: the keys read
      "1844..." and "1<name>", and '8' is below the name's first character. */
  lemma NoPositionBeforeOne(a: Argument, b: Argument)
    requires a.optional == b.optional
    requires a.position.None? && b.position == Some(1)
    requires |b.fieldName| > 0 && b.fieldName[0] > '9'
    ensures KeyLe(a, b) && !KeyLe(b, a)
  {
    PositionOneText(b);
    var ka := PositionText(a) + a.fieldName;
    var kb := PositionText(b) + b.fieldName;
    assert ka[0] == '1' == kb[0];
    assert ka[1] == '8' && kb[1] == b.fieldName[0];
    SecondPositionCharDecides(a, b);
  }

  lemma PositionOneText(b: Argument)
    requires b.position == Some(1)
    ensures PositionText(b) == "1"
  {
    assert Decimal(1) == [DigitChar(1)];
  }

  /** Positions 10 to 17 print as "10" to "17", and so precede an
      unpositioned field of equal optionality, whose "18..." differs first
      in the second digit. */
  lemma TeenPositionBeforeNoPosition(a: Argument, b: Argument, p: nat)
    requires a.optional == b.optional
    requires a.position.None? && b.position == Some(p) && 10 <= p <= 17
    ensures KeyLe(b, a) && !KeyLe(a, b)
  {
    TeenText(b, p);
    var ka := PositionText(a) + a.fieldName;
    var kb := PositionText(b) + b.fieldName;
    assert ka[0] == '1' == kb[0];
    assert ka[1] == '8' && kb[1] == DigitChar(p - 10);
    SecondPositionCharDecides(b, a);
  }

  lemma TeenText(b: Argument, p: nat)
    requires b.position == Some(p) && 10 <= p <= 17
    ensures PositionText(b) == ['1', DigitChar(p - 10)]
  {
    DecimalStep(p);
    assert Decimal(p / 10) == "1";
  }

  /** Between fields of equal optionality whose printed position and name
      agree in the first character, the second character decides. */
  lemma SecondPositionCharDecides(a: Argument, b: Argument)
    requires a.optional == b.optional
    requires |PositionText(a) + a.fieldName| >= 2 && |PositionText(b) + b.fieldName| >= 2
    requires (PositionText(a) + a.fieldName)[0] == (PositionText(b) + b.fieldName)[0]
    requires (PositionText(a) + a.fieldName)[1] < (PositionText(b) + b.fieldName)[1]
    ensures KeyLe(a, b) && !KeyLe(b, a)
  {
    var ka := PositionText(a) + a.fieldName;
    var kb := PositionText(b) + b.fieldName;
    SecondCharDecides(ka, kb);
    SortKeySplit(a);
    SortKeySplit(b);
    LexLeCommonPrefix(Flag(a), ka, kb);
    LexLeCommonPrefix(Flag(a), kb, ka);
  }

  lemma SecondCharDecides(x: string, y: string)
    requires |x| >= 2 && |y| >= 2 && x[0] == y[0] && x[1] < y[1]
    ensures LexLe(x, y) && !LexLe(y, x)
  {
    LexLeFirstChar(x[1..], y[1..]);
    assert x == [x[0]] + x[1..] && y == [x[0]] + y[1..];
    LexLeCommonPrefix([x[0]], x[1..], y[1..]);
    LexLeCommonPrefix([x[0]], y[1..], x[1..]);
  }

  /** A Rust field name: non-empty and not starting with a digit. */
  predicate IsIdentifier(name: string) {
    |name| > 0 && !IsDigit(name[0])
  }

  /** The printed position is a maximal run of digits, so for identifier
      names the sort key determines the name. */
  lemma KeyDeterminesName(a: Argument, b: Argument)
    requires IsIdentifier(a.fieldName) && IsIdentifier(b.fieldName)
    requires SortKey(a) == SortKey(b)
    ensures a.fieldName == b.fieldName
  {
    SortKeySplit(a);
    SortKeySplit(b);
    assert SortKey(a)[1..] == PositionText(a) + a.fieldName;
    assert SortKey(b)[1..] == PositionText(b) + b.fieldName;
    DigitRunDetermined(PositionText(a), a.fieldName, PositionText(b), b.fieldName);
  }

  lemma DigitRunDetermined(d1: string, n1: string, d2: string, n2: string)
    requires AllDigits(d1) && AllDigits(d2)
    requires IsIdentifier(n1) && IsIdentifier(n2)
    requires d1 + n1 == d2 + n2
    ensures n1 == n2
  {
    var k := d1 + n1;
    if |d1| < |d2| {
      DigitAt(d2, n2, |d1|);
      assert false;
    } else if |d2| < |d1| {
      DigitAt(d1, n1, |d2|);
      assert false;
    }
    assert n1 == k[|d1|..] == n2;
  }

  /** Entries with equal keys are equal. */
  predicate KeysDistinguish(s: seq<Argument>) {
    forall i, j :: 0 <= i < |s| && 0 <= j < |s| && SortKey(s[i]) == SortKey(s[j]) ==> s[i] == s[j]
  }

  lemma {:induction false} SortedUnique(s: seq<Argument>, t: seq<Argument>)
    requires Sorted(s) && Sorted(t) && multiset(s) == multiset(t)
    requires KeysDistinguish(s)
    ensures s == t
  {
    if |s| > 0 {
      SortedTails(s, t);
      SortedUnique(s[1..], t[1..]);
      ConsEqual(s, t);
    } else {
      assert |t| == |multiset(t)| == 0;
    }
  }

  lemma ConsEqual(s: seq<Argument>, t: seq<Argument>)
    requires |s| > 0 && |t| > 0 && s[0] == t[0] && s[1..] == t[1..]
    ensures s == t
  {
    assert s == [s[0]] + s[1..];
    assert t == [t[0]] + t[1..];
  }

  lemma SortedTails(s: seq<Argument>, t: seq<Argument>)
    requires Sorted(s) && Sorted(t) && multiset(s) == multiset(t)
    requires KeysDistinguish(s) && |s| > 0
    ensures |t| > 0 && s[0] == t[0]
    ensures Sorted(s[1..]) && Sorted(t[1..]) && KeysDistinguish(s[1..])
    ensures multiset(s[1..]) == multiset(t[1..])
  {
    SortedHeadsEqual(s, t);
    TailMultiset(s);
    TailMultiset(t);
    SortedTail(s);
    SortedTail(t);
    KeysDistinguishTail(s);
    assert multiset(s[1..]) == multiset(s) - multiset{s[0]};
    assert multiset(t[1..]) == multiset(t) - multiset{t[0]};
  }

  lemma DigitAt(d: string, n: string, i: nat)
    requires AllDigits(d) && i < |d|
    ensures IsDigit((d + n)[i])
  {
  }

  lemma TailMultiset(s: seq<Argument>)
    requires |s| > 0
    ensures multiset(s) == multiset{s[0]} + multiset(s[1..])
  {
    assert s == [s[0]] + s[1..];
  }

  lemma SortedTail(s: seq<Argument>)
    requires Sorted(s) && |s| > 0
    ensures Sorted(s[1..])
  {
    forall i, j | 0 <= i < j < |s[1..]| ensures KeyLe(s[1..][i], s[1..][j]) {
      assert s[1..][i] == s[i + 1] && s[1..][j] == s[j + 1];
    }
  }

  lemma SortedHeadsEqual(s: seq<Argument>, t: seq<Argument>)
    requires Sorted(s) && Sorted(t) && multiset(s) == multiset(t)
    requires KeysDistinguish(s) && |s| > 0
    ensures |t| > 0 && s[0] == t[0]
  {
    assert s[0] in multiset(t);
    assert t[0] in multiset(s);
    var k :| 0 <= k < |t| && t[k] == s[0];
    var l :| 0 <= l < |s| && s[l] == t[0];
    LexLeTotal(SortKey(s[0]), SortKey(s[0]));
    assert KeyLe(t[0], s[0]) by { if k > 0 { assert KeyLe(t[0], t[k]); } }
    assert KeyLe(s[0], t[0]) by { if l > 0 { assert KeyLe(s[0], s[l]); } }
    LexLeAntisymmetric(SortKey(s[0]), SortKey(t[0]));
    assert s[l] == t[0];
  }

  lemma KeysDistinguishTail(s: seq<Argument>)
    requires KeysDistinguish(s) && |s| > 0
    ensures KeysDistinguish(s[1..])
  {
    forall i, j | 0 <= i < |s[1..]| && 0 <= j < |s[1..]| && SortKey(s[1..][i]) == SortKey(s[1..][j])
      ensures s[1..][i] == s[1..][j]
    {
      assert s[1..][i] == s[i + 1] && s[1..][j] == s[j + 1];
    }
  }

  /** The map's iteration order does not matter: any two orderings of the
      same entries with distinct identifier names display identically. */
  lemma DisplayOrderIndependent(u: seq<Argument>, v: seq<Argument>)
    requires multiset(u) == multiset(v)
    requires forall i :: 0 <= i < |u| ==> IsIdentifier(u[i].fieldName)
    requires forall i, j :: 0 <= i < |u| && 0 <= j < |u| && u[i].fieldName == u[j].fieldName ==> u[i] == u[j]
    ensures SortForDisplay(u) == SortForDisplay(v)
  {
    var su := SortForDisplay(u);
    var sv := SortForDisplay(v);
    forall i | 0 <= i < |su| ensures su[i] in multiset(u) && IsIdentifier(su[i].fieldName) {
      assert su[i] in multiset(su);
      var k :| 0 <= k < |u| && u[k] == su[i];
    }
    assert KeysDistinguish(su) by {
      forall i, j | 0 <= i < |su| && 0 <= j < |su| && SortKey(su[i]) == SortKey(su[j])
        ensures su[i] == su[j]
      {
        KeyDeterminesName(su[i], su[j]);
        var k :| 0 <= k < |u| && u[k] == su[i];
        var l :| 0 <= l < |u| && u[l] == su[j];
      }
    }
    SortedUnique(su, sv);
  }
}
