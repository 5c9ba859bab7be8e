/** The character-level word-wrap of the help formatter (lib.rs:298-313)
    and the `SplitAt` policy that drives it (lib.rs:47-71). Walking the
    description, a break is "armed" whenever the character index is a
    multiple of the width, and the next character the policy accepts starts a
    new segment; the first character always starts one. */
module Wrap {
  import opened Text

  /** Where a wrapped description may break: `AnyChar` is the crate's
      `SplitAt::Any`, `Space` its `SplitAt::Space`, `NoSplit` its
      `SplitAt::None` and `Custom` its `SplitAt::Custom`. */
  datatype SplitAt = AnyChar | Space | NoSplit | Custom(chars: seq<char>)

  /** The loop over a custom character list in `SplitAt::matches`. */
  function MatchesAny(chars: seq<char>, c: char): (r: bool)
    ensures r <==> c in chars
  {
    if |chars| == 0 then false
    else if chars[0] == c then true
    else
      assert chars == [chars[0]] + chars[1..];
      MatchesAny(chars[1..], c)
  }

  /** `SplitAt::matches`. */
  function Matches(split: SplitAt, c: char): (r: bool)
    ensures split.AnyChar? ==> r
    ensures split.Space? ==> (r <==> c == ' ')
    ensures split.NoSplit? ==> !r
    ensures split.Custom? ==> (r <==> c in split.chars)
  {
    match split
    case AnyChar => true
    case Space => c == ' '
    case NoSplit => false
    case Custom(chars) => MatchesAny(chars, c)
  }

  /** The loop's variables after some characters: the segments so far and
      the `too_long` flag. */
  datatype WrapState = WrapState(segs: seq<string>, tooLong: bool)

  /** One iteration of the loop, for the character `c` at index `i`. */
  function Step(st: WrapState, i: nat, c: char, width: nat, split: SplitAt): (r: WrapState)
    requires width > 0
    requires i == 0 || |st.segs| > 0
    ensures |r.segs| > 0
  {
    var armed := st.tooLong || i % width == 0;
    if (armed && Matches(split, c)) || i == 0 then WrapState(st.segs + [[c]], false)
    else
      var last := |st.segs| - 1;
      WrapState(st.segs[..last] + [st.segs[last] + [c]], armed)
  }

  /** The loop's state after the first `n` characters. */
  function WrapPrefix(desc: string, n: nat, width: nat, split: SplitAt): (st: WrapState)
    requires n <= |desc| && width > 0
    ensures |st.segs| == 0 <==> n == 0
  {
    if n == 0 then WrapState([], false)
    else Step(WrapPrefix(desc, n - 1, width, split), n - 1, desc[n - 1], width, split)
  }

  /** `i % width` panics for a zero width once there is a character. */
  predicate WrapDefined(desc: string, width: nat) {
    width > 0 || |desc| == 0
  }

  /** `desc_split`: the segments of the description. */
  function SplitDescription(desc: string, width: nat, split: SplitAt): (r: seq<string>)
    requires WrapDefined(desc, width)
    ensures Concat(r) == desc
  {
    if |desc| == 0 then []
    else
      PrefixLossless(desc, |desc|, width, split);
      assert desc[..|desc|] == desc;
      WrapPrefix(desc, |desc|, width, split).segs
  }

  /** One step appends its character to the concatenation. */
  lemma StepLossless(st: WrapState, i: nat, c: char, width: nat, split: SplitAt)
    requires width > 0 && (i == 0 || |st.segs| > 0)
    ensures Concat(Step(st, i, c, width, split).segs) == Concat(st.segs) + [c]
  {
    var r := Step(st, i, c, width, split);
    if r.segs == st.segs + [[c]] {
      ConcatAppend(st.segs, [c]);
    } else {
      var last := |st.segs| - 1;
      assert st.segs == st.segs[..last] + [st.segs[last]];
      ConcatAppend(st.segs[..last], st.segs[last]);
      ConcatAppend(st.segs[..last], st.segs[last] + [c]);
    }
  }

  lemma TakeSnoc(s: string, n: nat)
    requires 0 < n <= |s|
    ensures s[..n] == s[..n - 1] + [s[n - 1]]
  {
  }

  lemma PrefixLosslessStep(desc: string, n: nat, width: nat, split: SplitAt)
    requires 0 < n <= |desc| && width > 0
    requires Concat(WrapPrefix(desc, n - 1, width, split).segs) == desc[..n - 1]
    ensures Concat(WrapPrefix(desc, n, width, split).segs) == desc[..n]
  {
    StepLossless(WrapPrefix(desc, n - 1, width, split), n - 1, desc[n - 1], width, split);
    TakeSnoc(desc, n);
  }

  /** The segments concatenate to the prefix read so far. */
  lemma {:induction false} PrefixLossless(desc: string, n: nat, width: nat, split: SplitAt)
    requires n <= |desc| && width > 0
    ensures Concat(WrapPrefix(desc, n, width, split).segs) == desc[..n]
  {
    if n > 0 {
      PrefixLossless(desc, n - 1, width, split);
      PrefixLosslessStep(desc, n, width, split);
    }
  }

  /** Segment `k` is non-empty and, unless it is the first, starts with a
      character the policy accepts. */
  predicate SegmentOk(segs: seq<string>, k: nat, split: SplitAt)
    requires k < |segs|
  {
    |segs[k]| > 0 && (k >= 1 ==> Matches(split, segs[k][0]))
  }

  predicate SegmentsWellShaped(segs: seq<string>, split: SplitAt) {
    forall k :: 0 <= k < |segs| ==> SegmentOk(segs, k, split)
  }

  /** A step keeps the segments non-empty and their heads acceptable. */
  lemma StepShape(st: WrapState, i: nat, c: char, width: nat, split: SplitAt)
    requires width > 0 && (i == 0 <==> |st.segs| == 0)
    requires SegmentsWellShaped(st.segs, split)
    ensures SegmentsWellShaped(Step(st, i, c, width, split).segs, split)
  {
    var r := Step(st, i, c, width, split);
    if r.segs == st.segs + [[c]] {
      forall k | 0 <= k < |r.segs| ensures SegmentOk(r.segs, k, split) {
        if k < |st.segs| {
          assert SegmentOk(st.segs, k, split);
          assert r.segs[k] == st.segs[k];
        }
      }
    } else {
      var last := |st.segs| - 1;
      forall k | 0 <= k < |r.segs| ensures SegmentOk(r.segs, k, split) {
        if k < last {
          assert SegmentOk(st.segs, k, split);
          assert r.segs[k] == st.segs[k];
        } else {
          assert SegmentOk(st.segs, last, split);
          assert r.segs[k] == st.segs[last] + [c];
        }
      }
    }
  }

  lemma {:induction false} PrefixSegmentShape(desc: string, n: nat, width: nat, split: SplitAt)
    requires n <= |desc| && width > 0
    ensures SegmentsWellShaped(WrapPrefix(desc, n, width, split).segs, split)
  {
    if n > 0 {
      PrefixSegmentShape(desc, n - 1, width, split);
      StepShape(WrapPrefix(desc, n - 1, width, split), n - 1, desc[n - 1], width, split);
    }
  }

  /** Word-wrapping loses nothing: the segments concatenate back to the
      description; there are none exactly when the description is empty;
      none is empty; and each segment after the first begins with a
      character the policy accepts. */
  lemma WrapLossless(desc: string, width: nat, split: SplitAt)
    requires WrapDefined(desc, width)
    ensures Concat(SplitDescription(desc, width, split)) == desc
    ensures |SplitDescription(desc, width, split)| == 0 <==> |desc| == 0
    ensures forall k :: 0 <= k < |SplitDescription(desc, width, split)| ==>
      |SplitDescription(desc, width, split)[k]| > 0
    ensures forall k :: 1 <= k < |SplitDescription(desc, width, split)| ==>
      Matches(split, SplitDescription(desc, width, split)[k][0])
  {
    if |desc| > 0 {
      PrefixLossless(desc, |desc|, width, split);
      PrefixSegmentShape(desc, |desc|, width, split);
      var segs := SplitDescription(desc, width, split);
      forall k | 0 <= k < |segs| ensures |segs[k]| > 0 && (k >= 1 ==> Matches(split, segs[k][0])) {
        assert SegmentOk(segs, k, split);
      }
      assert desc[..|desc|] == desc;
    }
  }

  /** Number of indices below `n` at which the break is armed. */
  function Armings(n: nat, width: nat): nat
    requires width > 0
  {
    if n == 0 then 0 else Armings(n - 1, width) + (if (n - 1) % width == 0 then 1 else 0)
  }

  /** Each segment after the first consumes one arming, and the first is
      started at index 0, itself a multiple of the width. */
  lemma {:induction false} PrefixCount(desc: string, n: nat, width: nat, split: SplitAt)
    requires n <= |desc| && width > 0
    ensures |WrapPrefix(desc, n, width, split).segs| + (if WrapPrefix(desc, n, width, split).tooLong then 1 else 0)
      <= Armings(n, width)
  {
    if n > 0 {
      PrefixCount(desc, n - 1, width, split);
    }
  }

  lemma {:induction false} MulLe(x: nat, y: nat, w: nat)
    requires x <= y
    ensures x * w <= y * w
  {
    if x < y {
      MulLe(x, y - 1, w);
      assert (y - 1) * w + w == y * w;
    }
  }

  lemma MulSucc(x: nat, w: nat)
    ensures (x + 1) * w == x * w + w
  {
  }

  /** Quotient and remainder are unique. */
  lemma DivUnique(a: nat, width: nat, q: nat, r: nat)
    requires width > 0 && r < width && a == q * width + r
    ensures a / width == q && a % width == r
  {
    var q' := a / width;
    var r' := a % width;
    assert a == q' * width + r';
    if q' > q {
      MulSucc(q, width);
      MulLe(q + 1, q', width);
      assert false;
    } else if q' < q {
      MulSucc(q', width);
      MulLe(q' + 1, q, width);
      assert false;
    }
  }

  /** There is one multiple of the width in each window of `width` indices. */
  lemma {:induction false} ArmingsIsCeiling(n: nat, width: nat)
    requires width > 0
    ensures Armings(n, width) == (n + width - 1) / width
  {
    if n == 0 {
      DivUnique(width - 1, width, 0, width - 1);
    } else {
      ArmingsIsCeiling(n - 1, width);
      CeilingStep(n - 1, width);
    }
  }

  lemma CeilingStep(i: nat, width: nat)
    requires width > 0
    ensures (i + width) / width == (i + width - 1) / width + (if i % width == 0 then 1 else 0)
  {
    var q := i / width;
    var r := i % width;
    assert i == q * width + r;
    assert (q + 1) * width == q * width + width;
    if r == 0 {
      DivUnique(i + width - 1, width, q, width - 1);
      DivUnique(i + width, width, q + 1, 0);
    } else {
      DivUnique(i + width - 1, width, q + 1, r - 1);
      DivUnique(i + width, width, q + 1, r);
    }
  }

  /** At most ceil(n / width) segments. */
  lemma WrapCountBound(desc: string, width: nat, split: SplitAt)
    requires width > 0
    ensures |SplitDescription(desc, width, split)| <= (|desc| + width - 1) / width
  {
    if |desc| > 0 {
      var segs := WrapPrefix(desc, |desc|, width, split).segs;
      assert SplitDescription(desc, width, split) == segs;
      PrefixCount(desc, |desc|, width, split);
      assert |segs| <= Armings(|desc|, width);
      ArmingsIsCeiling(|desc|, width);
    }
  }

  /** With no acceptable break character after the first position the
      description stays on one line, however long it is. */
  lemma {:induction false} PrefixUnbroken(desc: string, n: nat, width: nat, split: SplitAt)
    requires n <= |desc| && width > 0
    requires forall i :: 1 <= i < |desc| ==> !Matches(split, desc[i])
    ensures n > 0 ==> |WrapPrefix(desc, n, width, split).segs| == 1
  {
    if n > 1 {
      PrefixUnbroken(desc, n - 1, width, split);
    }
  }

  lemma WrapUnbroken(desc: string, width: nat, split: SplitAt)
    requires WrapDefined(desc, width) && |desc| > 0
    requires forall i :: 1 <= i < |desc| ==> !Matches(split, desc[i])
    ensures SplitDescription(desc, width, split) == [desc]
  {
    PrefixUnbroken(desc, |desc|, width, split);
    WrapLossless(desc, width, split);
    var segs := SplitDescription(desc, width, split);
    assert |segs| == 1;
    assert segs[1..] == [];
    assert Concat(segs[1..]) == [];
    assert Concat(segs) == segs[0] + Concat(segs[1..]);
    assert segs[0] + Concat(segs[1..]) == segs[0];
    assert segs == [desc];
  }

  /** `SplitAt::None` never breaks a non-empty description. */
  lemma WrapNoSplit(desc: string, width: nat)
    requires WrapDefined(desc, width) && |desc| > 0
    ensures SplitDescription(desc, width, NoSplit) == [desc]
  {
    WrapUnbroken(desc, width, NoSplit);
  }

  /** The shape `SplitAt::Any` keeps after `n` characters: segment k
      starts at index k * width. */
  predicate AnyChunked(st: WrapState, n: nat, width: nat) {
    && !st.tooLong
    && (forall k :: 0 <= k < |st.segs| - 1 ==> |st.segs[k]| == width)
    && (n > 0 ==> (|st.segs| > 0 && 1 <= |st.segs[|st.segs| - 1]| <= width
                   && n == (|st.segs| - 1) * width + |st.segs[|st.segs| - 1]|))
    && (n == 0 ==> |st.segs| == 0)
  }

  lemma AnyStep(st: WrapState, i: nat, c: char, width: nat)
    requires width > 0 && AnyChunked(st, i, width)
    ensures AnyChunked(Step(st, i, c, width, AnyChar), i + 1, width)
  {
    if i > 0 {
      var s := |st.segs|;
      var len := |st.segs[s - 1]|;
      var r := Step(st, i, c, width, AnyChar);
      if len == width {
        MulSucc(s - 1, width);
        DivUnique(i, width, s, 0);
        assert r.segs == st.segs + [[c]];
        forall k | 0 <= k < |r.segs| - 1 ensures |r.segs[k]| == width {
          assert r.segs[k] == st.segs[k];
        }
      } else {
        DivUnique(i, width, s - 1, len);
        assert r.segs == st.segs[..s - 1] + [st.segs[s - 1] + [c]];
        forall k | 0 <= k < |r.segs| - 1 ensures |r.segs[k]| == width {
          assert r.segs[k] == st.segs[k];
        }
      }
    }
  }

  /** Under `SplitAt::Any` segment k starts at index k * width: all but the
      last hold exactly `width` characters, the last between 1 and `width`. */
  lemma {:induction false} PrefixAnyChunks(desc: string, n: nat, width: nat)
    requires n <= |desc| && width > 0
    ensures AnyChunked(WrapPrefix(desc, n, width, AnyChar), n, width)
  {
    if n > 0 {
      PrefixAnyChunks(desc, n - 1, width);
      PrefixAnyStep(desc, n, width);
    }
  }

  lemma PrefixAnyStep(desc: string, n: nat, width: nat)
    requires 0 < n <= |desc| && width > 0
    requires AnyChunked(WrapPrefix(desc, n - 1, width, AnyChar), n - 1, width)
    ensures AnyChunked(WrapPrefix(desc, n, width, AnyChar), n, width)
  {
    AnyStep(WrapPrefix(desc, n - 1, width, AnyChar), n - 1, desc[n - 1], width);
  }

  lemma WrapAnyChunks(desc: string, width: nat)
    requires width > 0 && |desc| > 0
    ensures var segs := SplitDescription(desc, width, AnyChar);
      && (forall k :: 0 <= k < |segs| - 1 ==> |segs[k]| == width)
      && 1 <= |segs[|segs| - 1]| <= width
  {
    PrefixAnyChunks(desc, |desc|, width);
  }
}
