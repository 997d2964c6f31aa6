/** The plain SQL generator of position identifiers, used where the extension is not installed, and
    exactly when it agrees with the C loop. */
module FallbackIds {
  import opened ListIds
  import opened SitePositions
  import opened Sequences

  // ---- the query ------------------------------------------------------------------------

  /** `ascii(c2) - ascii(c1)` of row i, both padded. */
  function Diff(p1: Text, p2: Text, i: nat): int {
    Upper(p2, i) - Lower(p1, i)
  }

  /** `coalesce(nullif(diff, 1), 0)`. */
  function Weight(p1: Text, p2: Text, i: nat): int {
    if Diff(p1, p2, i) == 1 then 0 else Diff(p1, p2, i)
  }

  /** The sum over the rows before row i. */
  function SumBefore(p1: Text, p2: Text, i: nat): int {
    if i == 0 then 0 else SumBefore(p1, p2, i - 1) + Weight(p1, p2, i - 1)
  }

  function RowChar(mode: Mode, p1: Text, p2: Text, i: nat): Byte {
    if Diff(p1, p2, i) <= 1 then Lower(p1, i) else CharBetween(mode, Lower(p1, i), Upper(p2, i))
  }

  /** The characters of the rows from i on whose sum is zero. */
  function FallbackFrom(mode: Mode, p1: Text, p2: Text, i: nat): Text
    requires i <= Longer(p1, p2) + 1
    decreases Longer(p1, p2) + 1 - i
  {
    if i > Longer(p1, p2) then []
    else
      (if Kept(p1, p2, i) then [RowChar(mode, p1, p2, i)] else []) + FallbackFrom(mode, p1, p2, i + 1)
  }

  function Fallback(mode: Mode, p1: Text, p2: Text): Text {
    FallbackFrom(mode, p1, p2, 0)
  }

  // ---- the first row that counts ----------------------------------------------------------

  /** Row f is the first with a difference other than zero and one. */
  ghost predicate Decides(p1: Text, p2: Text, f: nat) {
    && f <= Longer(p1, p2) && Weight(p1, p2, f) != 0
    && forall j :: 0 <= j < f ==> Weight(p1, p2, j) == 0
  }

  /** There is one: at the latest the row where both are padding. */
  lemma {:induction false} SomeRowDecides(p1: Text, p2: Text, i: nat) returns (f: nat)
    requires i <= Longer(p1, p2) && forall j :: 0 <= j < i ==> Weight(p1, p2, j) == 0
    ensures Decides(p1, p2, f)
    decreases Longer(p1, p2) - i
  {
    if Weight(p1, p2, i) != 0 { f := i; } else { f := SomeRowDecides(p1, p2, i + 1); }
  }

  /** From row i on the sum is never zero. */
  ghost predicate NeverFrom(p1: Text, p2: Text, i: nat) {
    forall k :: i <= k <= Longer(p1, p2) ==> !Kept(p1, p2, k)
  }

  predicate Kept(p1: Text, p2: Text, i: nat) {
    SumBefore(p1, p2, i) == 0
  }

  /** After row f the sum never comes back to zero. */
  ghost predicate NeverReturns(p1: Text, p2: Text, f: nat) {
    NeverFrom(p1, p2, f + 1)
  }

  lemma {:induction false} NothingMore(mode: Mode, p1: Text, p2: Text, i: nat)
    requires i <= Longer(p1, p2) + 1
    ensures FallbackFrom(mode, p1, p2, i) == [] <==> NeverFrom(p1, p2, i)
    decreases Longer(p1, p2) + 1 - i
  {
    if i <= Longer(p1, p2) {
      NothingMore(mode, p1, p2, i + 1);
      assert NeverFrom(p1, p2, i) <==> !Kept(p1, p2, i) && NeverFrom(p1, p2, i + 1) by {
        if !Kept(p1, p2, i) && NeverFrom(p1, p2, i + 1) {
          forall k | i <= k <= Longer(p1, p2) ensures !Kept(p1, p2, k) { }
        }
      }
    }
  }

  lemma {:induction false} NothingBefore(p1: Text, p2: Text, f: nat, i: nat)
    requires i <= f && forall j :: 0 <= j < f ==> Weight(p1, p2, j) == 0
    ensures Kept(p1, p2, i)
  {
    if i > 0 { NothingBefore(p1, p2, f, i - 1); }
  }

  /** The characters of the lower bound from row i up to row f, padded. */
  function LowerPart(p1: Text, i: nat, f: nat): Text
    requires i <= f
    decreases f - i
  {
    if i == f then [] else [Lower(p1, i)] + LowerPart(p1, i + 1, f)
  }

  /** Up to the deciding row both take the lower bound's characters. */
  lemma {:induction false} SharedPart(mode: Mode, p1: Text, p2: Text, f: nat, i: nat)
    requires Decides(p1, p2, f) && i <= f
    ensures var c := [RowChar(mode, p1, p2, f)];
            && FallbackFrom(mode, p1, p2, i) == LowerPart(p1, i, f) + (c + FallbackFrom(mode, p1, p2, f + 1))
            && GenerateFrom(mode, p1, p2, i) ==
               LowerPart(p1, i, f) + if Weight(p1, p2, f) > 0 then c else c + GenerateFrom(mode, p1, p2, f + 1)
    decreases f - i
  {
    NothingBefore(p1, p2, f, i);
    if i < f {
      var c := [RowChar(mode, p1, p2, f)];
      var g := if Weight(p1, p2, f) > 0 then c else c + GenerateFrom(mode, p1, p2, f + 1);
      SharedPart(mode, p1, p2, f, i + 1);
      Associate([Lower(p1, i)], LowerPart(p1, i + 1, f), c + FallbackFrom(mode, p1, p2, f + 1));
      Associate([Lower(p1, i)], LowerPart(p1, i + 1, f), g);
    }
  }

  // ---- agreement --------------------------------------------------------------------------

  /** Where the deciding difference is positive, the query makes the text of the C loop with what it
      keeps later behind it. */
  lemma FallbackExtends(mode: Mode, p1: Text, p2: Text, f: nat)
    requires Decides(p1, p2, f) && Weight(p1, p2, f) > 0
    ensures Fallback(mode, p1, p2) == Generate(mode, p1, p2) + FallbackFrom(mode, p1, p2, f + 1)
  {
    SharedPart(mode, p1, p2, f, 0);
    Associate(LowerPart(p1, 0, f), [RowChar(mode, p1, p2, f)], FallbackFrom(mode, p1, p2, f + 1));
  }

  /** The C loop fills a row iff it has not stopped before. */
  ghost predicate Filled(p1: Text, p2: Text, i: nat) {
    forall j :: 0 <= j < i ==> Adjacent(p1, p2, j)
  }

  lemma KeptAndFilled(p1: Text, p2: Text, f: nat, i: nat)
    requires Decides(p1, p2, f) && i <= f
    ensures Kept(p1, p2, i) && Filled(p1, p2, i)
  {
    NothingBefore(p1, p2, f, i);
    forall j | 0 <= j < i ensures Adjacent(p1, p2, j) { assert Weight(p1, p2, j) == 0; }
  }

  lemma NotFilledAfter(p1: Text, p2: Text, f: nat, i: nat)
    requires Decides(p1, p2, f) && Weight(p1, p2, f) > 0 && f < i
    ensures !Filled(p1, p2, i)
  {
    assert !Adjacent(p1, p2, f);
  }

  /** The query keeps exactly the rows that the C loop fills iff the deciding difference is positive
      and the sum never returns to zero. */
  lemma KeptRowsIff(p1: Text, p2: Text, f: nat)
    requires Decides(p1, p2, f)
    ensures (forall i :: 0 <= i <= Longer(p1, p2) ==> (Kept(p1, p2, i) <==> Filled(p1, p2, i))) <==>
            Weight(p1, p2, f) > 0 && NeverReturns(p1, p2, f)
  {
    forall i | 0 <= i <= f ensures Kept(p1, p2, i) && Filled(p1, p2, i) { KeptAndFilled(p1, p2, f, i); }
    if Weight(p1, p2, f) > 0 {
      forall i | f < i <= Longer(p1, p2) ensures !Filled(p1, p2, i) { NotFilledAfter(p1, p2, f, i); }
    } else {
      assert Kept(p1, p2, f) && SumBefore(p1, p2, f + 1) == Weight(p1, p2, f);
      assert f < Longer(p1, p2) && !Kept(p1, p2, f + 1);
      assert Filled(p1, p2, f) && Adjacent(p1, p2, f);
      assert Filled(p1, p2, f + 1);
    }
  }

  /** Then, and where the deciding difference is positive only then, both make the same text. */
  lemma FallbackAgreesIff(mode: Mode, p1: Text, p2: Text, f: nat)
    requires Decides(p1, p2, f) && Weight(p1, p2, f) > 0
    ensures Fallback(mode, p1, p2) == Generate(mode, p1, p2) <==> NeverReturns(p1, p2, f)
  {
    FallbackExtends(mode, p1, p2, f);
    NothingMore(mode, p1, p2, f + 1);
    var g, more := Generate(mode, p1, p2), FallbackFrom(mode, p1, p2, f + 1);
    assert |g + more| == |g| + |more|;
    if more == [] { assert g + more == g; }
  }

  /** In that case the text lies on the same sides of the bounds, agreeing or not. */
  lemma FallbackIsBetween(mode: Mode, p1: Text, p2: Text, f: nat)
    requires Decides(p1, p2, f) && Weight(p1, p2, f) > 0
    ensures Less(p1, Fallback(mode, p1, p2))
    ensures Less(Fallback(mode, p1, p2), p2) <==> Less(Pad(p1, |p2|), p2)
  {
    FallbackExtends(mode, p1, p2, f);
    var more := FallbackFrom(mode, p1, p2, f + 1);
    AboveLower(mode, p1, p2);
    LessAppend(p1, Generate(mode, p1, p2), more);
    NotABeginning(mode, p1, p2, 0);
    assert p2[0..] == p2;
    SuffixKeepsSide(Generate(mode, p1, p2), more, p2);
    BelowUpperIff(mode, p1, p2);
  }

  /** Where it is negative, both go on from one beginning of the lower bound, each in its way. */
  lemma NegativeAgreesIff(mode: Mode, p1: Text, p2: Text, f: nat)
    requires Decides(p1, p2, f) && Weight(p1, p2, f) < 0
    ensures f < Longer(p1, p2)
    ensures Fallback(mode, p1, p2) == Generate(mode, p1, p2) <==>
            FallbackFrom(mode, p1, p2, f + 1) == GenerateFrom(mode, p1, p2, f + 1)
    ensures NeverReturns(p1, p2, f) ==> Fallback(mode, p1, p2) != Generate(mode, p1, p2)
  {
    SharedPart(mode, p1, p2, f, 0);
    NothingMore(mode, p1, p2, f + 1);
    var l, c := LowerPart(p1, 0, f), [RowChar(mode, p1, p2, f)];
    var x, y := FallbackFrom(mode, p1, p2, f + 1), GenerateFrom(mode, p1, p2, f + 1);
    Associate(l, c, x);
    Associate(l, c, y);
    if (l + c) + x == (l + c) + y {
      assert ((l + c) + x)[|l + c|..] == x && ((l + c) + y)[|l + c|..] == y;
    }
  }

  lemma {:induction false} LowerPartIs(p1: Text, i: nat, f: nat)
    requires i <= f <= |p1|
    ensures LowerPart(p1, i, f) == p1[i..f]
    decreases f - i
  {
    if i < f {
      LowerPartIs(p1, i + 1, f);
      assert p1[i..f] == [p1[i]] + p1[i + 1..f];
    }
  }

  lemma {:induction false} BeginningIsNotAbove(p: Text, k: nat)
    requires k <= |p|
    ensures !Less(p, p[..k])
  {
    if k > 0 {
      BeginningIsNotAbove(p[1..], k - 1);
      assert p[..k][1..] == p[1..][..k - 1];
    }
  }

  lemma NegativeIsInside(p1: Text, p2: Text, f: nat)
    requires Weight(p1, p2, f) < 0 && Printable(p2)
    ensures f < |p1|
  {
  }

  lemma WithoutReturn(mode: Mode, p1: Text, p2: Text, f: nat)
    requires Decides(p1, p2, f) && Weight(p1, p2, f) < 0 && NeverReturns(p1, p2, f)
    ensures Fallback(mode, p1, p2) == LowerPart(p1, 0, f) + [Lower(p1, f)]
  {
    SharedPart(mode, p1, p2, f, 0);
    NothingMore(mode, p1, p2, f + 1);
    assert [Lower(p1, f)] + [] == [Lower(p1, f)];
  }

  lemma BeginningIs(p1: Text, f: nat)
    requires f < |p1|
    ensures LowerPart(p1, 0, f) + [Lower(p1, f)] == p1[..f + 1]
  {
    LowerPartIs(p1, 0, f);
    assert p1[..f + 1] == p1[0..f] + [p1[f]];
  }

  /** And if then the sum never returns, the text is a beginning of the lower bound, not above it. */
  lemma NegativeIsNotAbove(mode: Mode, p1: Text, p2: Text, f: nat)
    requires Decides(p1, p2, f) && Weight(p1, p2, f) < 0 && NeverReturns(p1, p2, f) && Printable(p2)
    ensures f < |p1| && Fallback(mode, p1, p2) == p1[..f + 1] && !Less(p1, Fallback(mode, p1, p2))
  {
    NegativeIsInside(p1, p2, f);
    WithoutReturn(mode, p1, p2, f);
    BeginningIs(p1, f);
    BeginningIsNotAbove(p1, f + 1);
  }

  // ---- appends and prepends ----------------------------------------------------------------

  lemma {:induction false} SumsGrow(p1: Text, p2: Text, i: nat, k: nat)
    requires i <= k && forall j :: 0 <= j < k ==> Weight(p1, p2, j) >= 0
    ensures SumBefore(p1, p2, i) <= SumBefore(p1, p2, k)
    decreases k
  {
    if i < k { SumsGrow(p1, p2, i, k - 1); }
  }

  /** Without an upper bound, or without a lower one, both always make the same text. */
  lemma FallbackAgreesAtEnds(mode: Mode, p: Text)
    requires Printable(p)
    ensures Fallback(mode, p, []) == Generate(mode, p, []) && Fallback(mode, [], p) == Generate(mode, [], p)
  {
    AgreesWithoutDrops(mode, p, []);
    AgreesWithoutDrops(mode, [], p);
  }

  lemma AgreesWithoutDrops(mode: Mode, p1: Text, p2: Text)
    requires forall j :: 0 <= j <= Longer(p1, p2) ==> Weight(p1, p2, j) >= 0
    ensures Fallback(mode, p1, p2) == Generate(mode, p1, p2)
  {
    var f := SomeRowDecides(p1, p2, 0);
    NothingBefore(p1, p2, f, f);
    forall i | f < i <= Longer(p1, p2) ensures !Kept(p1, p2, i) {
      assert SumBefore(p1, p2, f + 1) > 0;
      SumsGrow(p1, p2, f + 1, i);
    }
    FallbackAgreesIff(mode, p1, p2, f);
  }

  // ---- instances --------------------------------------------------------------------------

  /** Between "ab" and "ba" the query makes "ab" again, where the C loop makes "abP". */
  lemma FallbackStopsShort()
    ensures Fallback(Regular, [97, 98], [98, 97]) == [97, 98] && Generate(Regular, [97, 98], [98, 97]) == [97, 98, 80]
  {
    StopsShort([97, 98], [98, 97]);
    assert [97, 98][..2] == [97, 98];
  }

  lemma StopsShort(p1: Text, p2: Text)
    requires p1 == [97, 98] && p2 == [98, 97]
    ensures Fallback(Regular, p1, p2) == p1[..2] && Generate(Regular, p1, p2) == [97, 98, 80]
  {
    assert Weight(p1, p2, 0) == 0 && Weight(p1, p2, 1) == -1;
    assert SumBefore(p1, p2, 0) == SumBefore(p1, p2, 1) == 0 && SumBefore(p1, p2, 2) == -1;
    NegativeIsNotAbove(Regular, p1, p2, 1);
    assert GenerateFrom(Regular, p1, p2, 2) == [80];
    assert GenerateFrom(Regular, p1, p2, 1) == [98] + [80];
  }

  /** Between "AC" and "CA" it makes "BP", where the C loop makes "B". */
  lemma FallbackGoesOn()
    ensures Fallback(Regular, [65, 67], [67, 65]) == [66, 80] && Generate(Regular, [65, 67], [67, 65]) == [66]
  {
    GoesOn([65, 67], [67, 65]);
  }

  lemma GoesOn(p1: Text, p2: Text)
    requires p1 == [65, 67] && p2 == [67, 65]
    ensures Fallback(Regular, p1, p2) == [66, 80] && Generate(Regular, p1, p2) == [66]
  {
    assert SumBefore(p1, p2, 0) == 0 && SumBefore(p1, p2, 1) == 2 && SumBefore(p1, p2, 2) == 0;
    assert FallbackFrom(Regular, p1, p2, 3) == [];
    assert FallbackFrom(Regular, p1, p2, 2) == [80];
    assert FallbackFrom(Regular, p1, p2, 1) == [80];
  }

  /** With a negative deciding difference other rows can make the same text: of the rows of "ACOO"
      and "BAQQ" the query keeps the fourth in place of the third, which is like it. */
  lemma OtherRowsSameText(mode: Mode)
    ensures var p1, p2 := [65, 67, 79, 79], [66, 65, 81, 81];
            && Decides(p1, p2, 1) && Weight(p1, p2, 1) < 0 && Less(p1, p2)
            && !Kept(p1, p2, 2) && Filled(p1, p2, 2) && Kept(p1, p2, 3) && !Filled(p1, p2, 3)
            && Fallback(mode, p1, p2) == Generate(mode, p1, p2)
  {
    OtherRows(mode, [65, 67, 79, 79], [66, 65, 81, 81]);
  }

  lemma OtherRows(mode: Mode, p1: Text, p2: Text)
    requires p1 == [65, 67, 79, 79] && p2 == [66, 65, 81, 81]
    ensures Decides(p1, p2, 1) && Weight(p1, p2, 1) < 0 && Less(p1, p2)
    ensures !Kept(p1, p2, 2) && Filled(p1, p2, 2) && Kept(p1, p2, 3) && !Filled(p1, p2, 3)
    ensures Fallback(mode, p1, p2) == Generate(mode, p1, p2)
  {
    assert Weight(p1, p2, 0) == 0 && Weight(p1, p2, 1) == -2 && Weight(p1, p2, 2) == Weight(p1, p2, 3) == 2;
    assert SumBefore(p1, p2, 0) == SumBefore(p1, p2, 1) == 0 && SumBefore(p1, p2, 2) == -2;
    assert SumBefore(p1, p2, 3) == 0 && SumBefore(p1, p2, 4) == 2;
    assert !Adjacent(p1, p2, 2);
    SharedPart(mode, p1, p2, 1, 0);
    assert FallbackFrom(mode, p1, p2, 4) == [];
    assert FallbackFrom(mode, p1, p2, 3) == [80] && FallbackFrom(mode, p1, p2, 2) == [80];
    assert GenerateFrom(mode, p1, p2, 2) == [80];
  }
}
