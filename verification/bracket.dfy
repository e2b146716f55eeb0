/** The threshold-bracket engine (`StockService.getVariation`): given an
    asset's total return `x` and its ladder of thresholds, decide which
    adjacent pair of thresholds now brackets `x`, and report a new ladder
    only when that differs from the stored one. */
module Bracket {
  import opened Wrappers
  import opened Schema

  /** Threshold values strictly decrease along the ladder. */
  ghost predicate Decreasing(rs: seq<StockRange>) {
    forall i, j :: 0 <= i < j < |rs| ==> rs[i].value > rs[j].value
  }

  /** The engine's tests never put a value exactly on a threshold, so the rule
      for that case is a parameter, chosen per threshold: `tie(v)` says whether
      threshold `v` counts as lying above a value equal to it. */
  type Tie = real -> bool

  /** Every threshold counts as below a value equal to it. */
  function RoundUp(v: real): bool { false }

  /** Every threshold counts as above a value equal to it. */
  function RoundDown(v: real): bool { true }

  /** The tie rule of the mirror ladder: threshold `-v` there counts as above
      a value on it exactly when `v` here does not. */
  function Flip(tie: Tie): Tie {
    (v: real) => !tie(-v)
  }

  /** Whether the threshold value `v` lies above `x`. */
  predicate Over(v: real, x: real, tie: Tie) {
    v > x || (v == x && tie(v))
  }

  /** Same length and the same threshold values, in the same order: two
      ladders that may differ only in their active flags. */
  ghost predicate SameThresholds(a: seq<StockRange>, b: seq<StockRange>) {
    |a| == |b| && forall i :: 0 <= i < |a| ==> a[i].value == b[i].value
  }

  /** Threshold `i` borders the interval that holds `x`: it is the lowest
      threshold above `x`, or the highest one not above it. */
  ghost predicate Borders(rs: seq<StockRange>, x: real, tie: Tie, i: int)
    requires 0 <= i < |rs|
  {
    || (Over(rs[i].value, x, tie) && (i + 1 == |rs| || !Over(rs[i + 1].value, x, tie)))
    || (!Over(rs[i].value, x, tie) && (i == 0 || Over(rs[i - 1].value, x, tie)))
  }

  /** The ladder's active flags are exactly the thresholds bordering `x`: an
      adjacent pair when `x` lies between two thresholds, the single extreme
      threshold when `x` lies beyond the whole ladder. */
  ghost predicate Settled(x: real, rs: seq<StockRange>, tie: Tie) {
    forall i :: 0 <= i < |rs| ==> (rs[i].active <==> Borders(rs, x, tie, i))
  }

  /** The number of thresholds above `x`, scanning down from index `i`. */
  function BucketFrom(rs: seq<StockRange>, x: real, tie: Tie, i: nat): (b: nat)
    requires Decreasing(rs)
    requires i <= |rs|
    requires forall k :: 0 <= k < i ==> Over(rs[k].value, x, tie)
    ensures i <= b <= |rs|
    ensures forall k :: 0 <= k < b ==> Over(rs[k].value, x, tie)
    ensures forall k :: b <= k < |rs| ==> !Over(rs[k].value, x, tie)
    decreases |rs| - i
  {
    if i == |rs| || !Over(rs[i].value, x, tie) then i
    else BucketFrom(rs, x, tie, i + 1)
  }

  /** Whether threshold `i` of an `n`-threshold ladder is active when `b`
      thresholds lie above the value. */
  predicate ActiveIn(b: nat, n: nat, i: nat) {
    if b == 0 then i == 0
    else if b >= n then i + 1 == n
    else i + 1 == b || i == b
  }

  /** The ladder with the flags recomputed for `x`. */
  function Recompute(rs: seq<StockRange>, x: real, tie: Tie): (r: seq<StockRange>)
    requires Decreasing(rs)
    ensures SameThresholds(r, rs)
    ensures Settled(x, r, tie)
  {
    var b := BucketFrom(rs, x, tie, 0);
    seq(|rs|, i requires 0 <= i < |rs| => StockRange(rs[i].value, ActiveIn(b, |rs|, i)))
  }

  /** Two ladders with the same thresholds that are both settled for `x` are
      the same ladder: the bracket is a function of `x`. */
  lemma SettledUnique(x: real, a: seq<StockRange>, b: seq<StockRange>, tie: Tie)
    requires SameThresholds(a, b)
    requires Settled(x, a, tie) && Settled(x, b, tie)
    ensures a == b
  {
    assert forall i :: 0 <= i < |a| ==> Borders(a, x, tie, i) == Borders(b, x, tie, i);
    assert forall i :: 0 <= i < |a| ==> a[i] == b[i];
  }

  /** `StockService.getVariation`. `None` is the source's `undefined`: the
      stored flags already bracket `x`, so there is nothing to persist or to
      announce. Otherwise the result is the same ladder with the flags moved. */
  function GetVariation(x: real, rs: seq<StockRange>, tie: Tie): (r: Option<seq<StockRange>>)
    requires Decreasing(rs)
    ensures r.None? <==> Settled(x, rs, tie)
    ensures r.Some? ==> SameThresholds(r.value, rs) && Settled(x, r.value, tie) && r.value != rs
  {
    var moved := Recompute(rs, x, tie);
    if moved == rs then None
    else
      assert !Settled(x, rs, tie) by {
        if Settled(x, rs, tie) {
          SettledUnique(x, moved, rs, tie);
        }
      }
      Some(moved)
  }

  /** The ladder as stored after the call: the new one, or the old one kept. */
  function After(rs: seq<StockRange>, r: Option<seq<StockRange>>): seq<StockRange> {
    if r.Some? then r.value else rs
  }

  /** A value strictly between thresholds `i` and `i + 1` leaves exactly that
      pair active, whichever tie rule is chosen; when the pair was already the
      active one, the answer is "unchanged". */
  lemma BetweenActivatesPair(x: real, rs: seq<StockRange>, tie: Tie, i: int)
    requires Decreasing(rs)
    requires 0 <= i && i + 1 < |rs|
    requires rs[i].value > x > rs[i + 1].value
    ensures var after := After(rs, GetVariation(x, rs, tie));
      |after| == |rs| && forall k :: 0 <= k < |rs| ==> (after[k].active <==> k == i || k == i + 1)
    ensures (forall k :: 0 <= k < |rs| ==> (rs[k].active <==> k == i || k == i + 1))
      ==> GetVariation(x, rs, tie).None?
  {
    var after := After(rs, GetVariation(x, rs, tie));
    assert Settled(x, after, tie);
    forall k | 0 <= k < |rs|
      ensures Over(rs[k].value, x, tie) <==> k <= i
    {
      if k <= i {
        assert rs[k].value >= rs[i].value;
      } else {
        assert rs[k].value <= rs[i + 1].value;
      }
    }
    forall k | 0 <= k < |rs|
      ensures after[k].active <==> k == i || k == i + 1
    {
      assert after[k].active <==> Borders(after, x, tie, k);
    }
  }

  /** A value above the highest threshold, or on it when the tie rule counts
      it as below, leaves only the highest active; if that was already so, the
      answer is "unchanged". */
  lemma AboveTopSaturates(x: real, rs: seq<StockRange>, tie: Tie)
    requires Decreasing(rs)
    requires |rs| > 0 && (x > rs[0].value || (x == rs[0].value && !tie(x)))
    ensures var after := After(rs, GetVariation(x, rs, tie));
      |after| == |rs| && forall k :: 0 <= k < |rs| ==> (after[k].active <==> k == 0)
    ensures (forall k :: 0 <= k < |rs| ==> (rs[k].active <==> k == 0))
      ==> GetVariation(x, rs, tie).None?
  {
    var after := After(rs, GetVariation(x, rs, tie));
    assert Settled(x, after, tie);
    forall k | 0 <= k < |rs|
      ensures !Over(rs[k].value, x, tie)
    {
      assert rs[k].value <= rs[0].value;
    }
    forall k | 0 <= k < |rs|
      ensures after[k].active <==> k == 0
    {
      assert after[k].active <==> Borders(after, x, tie, k);
    }
  }

  /** A value below the lowest threshold, or on it when the tie rule counts
      it as above, leaves only the lowest active; if that was already so, the
      answer is "unchanged". */
  lemma BelowBottomSaturates(x: real, rs: seq<StockRange>, tie: Tie)
    requires Decreasing(rs)
    requires |rs| > 0 && (x < rs[|rs| - 1].value || (x == rs[|rs| - 1].value && tie(x)))
    ensures var after := After(rs, GetVariation(x, rs, tie));
      |after| == |rs| && forall k :: 0 <= k < |rs| ==> (after[k].active <==> k + 1 == |rs|)
    ensures (forall k :: 0 <= k < |rs| ==> (rs[k].active <==> k + 1 == |rs|))
      ==> GetVariation(x, rs, tie).None?
  {
    var after := After(rs, GetVariation(x, rs, tie));
    assert Settled(x, after, tie);
    forall k | 0 <= k < |rs|
      ensures Over(rs[k].value, x, tie)
    {
      assert rs[k].value >= rs[|rs| - 1].value;
    }
    forall k | 0 <= k < |rs|
      ensures after[k].active <==> k + 1 == |rs|
    {
      assert after[k].active <==> Borders(after, x, tie, k);
    }
  }

  /** The tie rule only matters for a value lying exactly on a threshold:
      off the thresholds, any two rules give the same answer. */
  lemma TieIrrelevantOffThresholds(x: real, rs: seq<StockRange>, a: Tie, b: Tie)
    requires Decreasing(rs)
    requires forall k :: 0 <= k < |rs| ==> rs[k].value != x
    ensures GetVariation(x, rs, a) == GetVariation(x, rs, b)
  {
    forall k | 0 <= k < |rs|
      ensures Borders(rs, x, a, k) == Borders(rs, x, b, k)
    {
    }
    var ra := Recompute(rs, x, a);
    var rb := Recompute(rs, x, b);
    forall k | 0 <= k < |ra|
      ensures Borders(ra, x, a, k) == Borders(ra, x, b, k)
    {
    }
    SettledUnique(x, ra, rb, b);
  }

  /** The ladder turned upside down: thresholds negated and order reversed. */
  function Mirror(rs: seq<StockRange>): (m: seq<StockRange>)
    ensures |m| == |rs|
  {
    seq(|rs|, i requires 0 <= i < |rs| => StockRange(-rs[|rs| - 1 - i].value, rs[|rs| - 1 - i].active))
  }

  lemma MirrorBorders(x: real, rs: seq<StockRange>, tie: Tie, i: int)
    requires 0 <= i < |rs|
    ensures Borders(Mirror(rs), -x, Flip(tie), i) <==> Borders(rs, x, tie, |rs| - 1 - i)
  {
    var m := Mirror(rs);
    var n := |rs|;
    assert Over(m[i].value, -x, Flip(tie)) <==> !Over(rs[n - 1 - i].value, x, tie);
    if i + 1 < n {
      assert Over(m[i + 1].value, -x, Flip(tie)) <==> !Over(rs[n - 2 - i].value, x, tie);
    }
    if i > 0 {
      assert Over(m[i - 1].value, -x, Flip(tie)) <==> !Over(rs[n - i].value, x, tie);
    }
  }

  lemma MirrorSettled(x: real, rs: seq<StockRange>, tie: Tie)
    ensures Settled(-x, Mirror(rs), Flip(tie)) <==> Settled(x, rs, tie)
  {
    var m := Mirror(rs);
    var n := |rs|;
    if Settled(x, rs, tie) {
      forall i | 0 <= i < n
        ensures m[i].active <==> Borders(m, -x, Flip(tie), i)
      {
        MirrorBorders(x, rs, tie, i);
      }
    }
    if Settled(-x, m, Flip(tie)) {
      forall j | 0 <= j < n
        ensures rs[j].active <==> Borders(rs, x, tie, j)
      {
        var i := n - 1 - j;
        MirrorBorders(x, rs, tie, i);
        assert m[i].active <==> Borders(m, -x, Flip(tie), i);
      }
    }
  }

  lemma MirrorDecreasing(rs: seq<StockRange>)
    requires Decreasing(rs)
    ensures Decreasing(Mirror(rs))
  {
    var n := |rs|;
    var mr := Mirror(rs);
    forall i, j | 0 <= i < j < n
      ensures mr[i].value > mr[j].value
    {
      assert rs[n - 1 - i].value < rs[n - 1 - j].value;
    }
  }

  /** Bracket symmetry: the engine commutes with turning the ladder upside
      down, negating the value and swapping the tie rule. */
  lemma MirrorVariation(x: real, rs: seq<StockRange>, tie: Tie)
    requires Decreasing(rs)
    ensures Decreasing(Mirror(rs))
    ensures var r := GetVariation(x, rs, tie);
      var m := GetVariation(-x, Mirror(rs), Flip(tie));
      (r.None? <==> m.None?) && (r.Some? ==> m.value == Mirror(r.value))
  {
    var mr := Mirror(rs);
    MirrorDecreasing(rs);
    var r := GetVariation(x, rs, tie);
    var m := GetVariation(-x, mr, Flip(tie));
    MirrorSettled(x, rs, tie);
    if r.Some? {
      MirrorAnswer(x, rs, r.value, m.value, tie);
    }
  }

  /** The mirror of a settled ladder is the settled mirror ladder. */
  lemma MirrorAnswer(x: real, rs: seq<StockRange>, a: seq<StockRange>, b: seq<StockRange>, tie: Tie)
    requires SameThresholds(a, rs) && Settled(x, a, tie)
    requires SameThresholds(b, Mirror(rs)) && Settled(-x, b, Flip(tie))
    ensures b == Mirror(a)
  {
    MirrorSettled(x, a, tie);
    MirrorSameThresholds(a, rs);
    SettledUnique(-x, Mirror(a), b, Flip(tie));
  }

  lemma MirrorSameThresholds(a: seq<StockRange>, b: seq<StockRange>)
    requires SameThresholds(a, b)
    ensures SameThresholds(Mirror(a), Mirror(b))
  {
    var n := |a|;
    forall i | 0 <= i < n
      ensures Mirror(a)[i].value == Mirror(b)[i].value
    {
      assert a[n - 1 - i].value == b[n - 1 - i].value;
    }
  }

  /** For a ladder that is its own mirror image (symmetric thresholds and
      symmetric active set), opposite values give mirrored answers. */
  lemma SymmetricLadderMirrors(x: real, rs: seq<StockRange>, tie: Tie)
    requires Decreasing(rs)
    requires Mirror(rs) == rs
    ensures var r := GetVariation(x, rs, tie);
      var m := GetVariation(-x, rs, Flip(tie));
      (r.None? <==> m.None?) && (r.Some? ==> m.value == Mirror(r.value))
  {
    MirrorVariation(x, rs, tie);
  }

  /** The example ladder of the engine's tests, with the flags given per
      threshold from the highest (2) to the lowest (-2). */
  function Ladder(f: seq<bool>): (rs: seq<StockRange>)
    requires |f| == 6
    ensures |rs| == 6 && Decreasing(rs)
  {
    [StockRange(2.0, f[0]), StockRange(1.0, f[1]), StockRange(0.5, f[2]),
     StockRange(-0.5, f[3]), StockRange(-1.0, f[4]), StockRange(-2.0, f[5])]
  }

  /** Pins a result down to a concrete ladder from its thresholds and flags. */
  lemma SameLadder(a: seq<StockRange>, f: seq<bool>)
    requires |f| == 6 && SameThresholds(a, Ladder(f))
    requires forall k :: 0 <= k < 6 ==> a[k].active == f[k]
    ensures a == Ladder(f)
  {
    assert forall k :: 0 <= k < 6 ==> a[k] == Ladder(f)[k];
  }

  /** The "in range" examples: the stored bracket already holds the value. */
  lemma ExampleInRange(x: real, rs: seq<StockRange>, tie: Tie)
    requires || (x == 0.1 && rs == Ladder([false, false, true, true, false, false]))
             || (x == 2.5 && rs == Ladder([true, false, false, false, false, false]))
             || (x == -2.5 && rs == Ladder([false, false, false, false, false, true]))
    ensures GetVariation(x, rs, tie).None?
  {
    if x == 0.1 {
      InRangeMiddle(x, rs, tie);
    } else if x == 2.5 {
      InRangeTop(x, rs, tie);
    } else {
      InRangeBottom(x, rs, tie);
    }
  }

  lemma InRangeMiddle(x: real, rs: seq<StockRange>, tie: Tie)
    requires x == 0.1 && rs == Ladder([false, false, true, true, false, false])
    ensures GetVariation(x, rs, tie).None?
  {
    BetweenActivatesPair(x, rs, tie, 2);
  }

  lemma InRangeTop(x: real, rs: seq<StockRange>, tie: Tie)
    requires x == 2.5 && rs == Ladder([true, false, false, false, false, false])
    ensures GetVariation(x, rs, tie).None?
  {
    AboveTopSaturates(x, rs, tie);
  }

  lemma InRangeBottom(x: real, rs: seq<StockRange>, tie: Tie)
    requires x == -2.5 && rs == Ladder([false, false, false, false, false, true])
    ensures GetVariation(x, rs, tie).None?
  {
    BelowBottomSaturates(x, rs, tie);
  }

  /** The "out of range" examples between two thresholds, on the test ladder
      whose stored bracket is (0.5, -0.5). */
  lemma ExampleBetween(x: real, base: seq<StockRange>, tie: Tie)
    requires base == Ladder([false, false, true, true, false, false])
    ensures x == 1.9 ==> GetVariation(x, base, tie) == Some(Ladder([true, true, false, false, false, false]))
    ensures x == 0.9 ==> GetVariation(x, base, tie) == Some(Ladder([false, true, true, false, false, false]))
    ensures x == -0.9 ==> GetVariation(x, base, tie) == Some(Ladder([false, false, false, true, true, false]))
    ensures x == -1.9 ==> GetVariation(x, base, tie) == Some(Ladder([false, false, false, false, true, true]))
  {
    if x == 1.9 {
      ExampleMove(x, base, tie, 0, [true, true, false, false, false, false]);
    } else if x == 0.9 {
      ExampleMove(x, base, tie, 1, [false, true, true, false, false, false]);
    } else if x == -0.9 {
      ExampleMove(x, base, tie, 3, [false, false, false, true, true, false]);
    } else if x == -1.9 {
      ExampleMove(x, base, tie, 4, [false, false, false, false, true, true]);
    }
  }

  /** On the test ladder, a value strictly between two thresholds other than
      the stored pair moves the bracket to exactly those two thresholds. */
  lemma ExampleMove(x: real, base: seq<StockRange>, tie: Tie, i: int, f: seq<bool>)
    requires |f| == 6 && Decreasing(base) && SameThresholds(base, Ladder(f))
    requires base[2].active && base[3].active
    requires 0 <= i < 5 && base[i].value > x > base[i + 1].value && i != 2
    requires forall k :: 0 <= k < 6 ==> (f[k] <==> k == i || k == i + 1)
    ensures GetVariation(x, base, tie) == Some(Ladder(f))
  {
    BetweenActivatesPair(x, base, tie, i);
    var r := GetVariation(x, base, tie);
    assert After(base, r)[2].active != base[2].active || After(base, r)[3].active != base[3].active;
    SameLadder(r.value, f);
  }

  /** The saturated examples: 3 and -3 lie beyond the whole test ladder. */
  lemma ExampleSaturated(x: real, base: seq<StockRange>, tie: Tie)
    requires base == Ladder([false, false, true, true, false, false])
    ensures x == 3.0 ==> GetVariation(x, base, tie) == Some(Ladder([true, false, false, false, false, false]))
    ensures x == -3.0 ==> GetVariation(x, base, tie) == Some(Ladder([false, false, false, false, false, true]))
  {
    if x == 3.0 {
      ExampleBeyond(x, base, tie, 0, [true, false, false, false, false, false]);
    } else if x == -3.0 {
      ExampleBeyond(x, base, tie, 5, [false, false, false, false, false, true]);
    }
  }

  /** On the test ladder, a value beyond an end leaves only that end active. */
  lemma ExampleBeyond(x: real, base: seq<StockRange>, tie: Tie, e: int, f: seq<bool>)
    requires |f| == 6 && Decreasing(base) && SameThresholds(base, Ladder(f))
    requires base[2].active
    requires (e == 0 && x > base[0].value) || (e == 5 && x < base[5].value)
    requires forall k :: 0 <= k < 6 ==> (f[k] <==> k == e)
    ensures GetVariation(x, base, tie) == Some(Ladder(f))
  {
    if e == 0 {
      AboveTopSaturates(x, base, tie);
    } else {
      BelowBottomSaturates(x, base, tie);
    }
    var r := GetVariation(x, base, tie);
    assert After(base, r)[2].active != base[2].active;
    SameLadder(r.value, f);
  }
}
