/** Positions of replicated lists: a generated identifier with the digits of the site behind it.
    They still lie between their bounds; two sites never produce the same one exactly when the
    digits of neither end with those of the other. */
module SitePositions {
  import opened ListIds
  import opened Sequences

  /** A site id in decimal. */
  function Decimal(n: nat): (d: Text)
    ensures d != [] && forall i :: 0 <= i < |d| ==> 48 <= d[i] <= 57
  {
    if n < 10 then [48 + n] else Decimal(n / 10) + [48 + n % 10]
  }

  /** The number a text of digits stands for. */
  function NumberOf(d: Text): int {
    if d == [] then 0 else 10 * NumberOf(d[..|d| - 1]) + d[|d| - 1] - 48
  }

  /** Reading the digits back gives the number, and there are no leading zeros. */
  lemma {:induction false} DecimalReadsBack(n: nat)
    ensures NumberOf(Decimal(n)) == n && (Decimal(n)[0] == 48 ==> n == 0)
  {
    if n < 10 {
      assert NumberOf([]) == 0 && Decimal(n)[..0] == [];
    } else {
      DecimalReadsBack(n / 10);
      assert Decimal(n)[..|Decimal(n)| - 1] == Decimal(n / 10);
    }
  }

  /** `_generateVirtualIndexBetween(p1, p2) || siteId()`. */
  function Position(mode: Mode, p1: Text, p2: Text, site: nat): Text {
    Generate(mode, p1, p2) + Decimal(site)
  }

  // ---- betweenness ----------------------------------------------------------------------

  lemma {:induction false} LessAppend(a: Text, b: Text, tail: Text)
    requires Less(a, b)
    ensures Less(a, b + tail)
  {
    if a != [] && a[0] == b[0] {
      LessAppend(a[1..], b[1..], tail);
      assert (b + tail)[1..] == b[1..] + tail;
    }
  }

  predicate StartsWith(p: Text, g: Text) {
    g == [] || (p != [] && p[0] == g[0] && StartsWith(p[1..], g[1..]))
  }

  /** What is generated is never the beginning of the upper bound. */
  lemma {:induction false} NotABeginning(mode: Mode, p1: Text, p2: Text, i: nat)
    requires i <= Longer(p1, p2) && i <= |p2|
    ensures !StartsWith(p2[i..], GenerateFrom(mode, p1, p2, i))
    decreases Longer(p1, p2) - i
  {
    if i < |p2| && Adjacent(p1, p2, i) {
      NotABeginning(mode, p1, p2, i + 1);
      assert p2[i..][1..] == p2[i + 1..];
      assert GenerateFrom(mode, p1, p2, i)[1..] == GenerateFrom(mode, p1, p2, i + 1);
    }
  }

  /** Appending to a text that is not the beginning of b leaves it on the same side of b. */
  lemma {:induction false} SuffixKeepsSide(g: Text, tail: Text, b: Text)
    requires !StartsWith(b, g)
    ensures Less(g + tail, b) <==> Less(g, b)
  {
    if b != [] && g[0] == b[0] {
      SuffixKeepsSide(g[1..], tail, b[1..]);
      assert (g + tail)[1..] == g[1..] + tail;
    }
  }

  /** The digits of the site never move a position past a bound: for all bounds it is above the
      lower one, and below the upper one iff the generated text is. */
  lemma SuffixKeepsBetween(mode: Mode, p1: Text, p2: Text, site: nat)
    ensures Less(p1, Position(mode, p1, p2, site))
    ensures Less(Position(mode, p1, p2, site), p2) <==> Less(Pad(p1, |p2|), p2)
  {
    AboveLower(mode, p1, p2);
    LessAppend(p1, Generate(mode, p1, p2), Decimal(site));
    NotABeginning(mode, p1, p2, 0);
    assert p2[0..] == p2;
    SuffixKeepsSide(Generate(mode, p1, p2), Decimal(site), p2);
    BelowUpperIff(mode, p1, p2);
  }

  /** Between canonical positions the new one is strictly between and canonical again. */
  lemma PositionIsBetween(mode: Mode, p1: Text, p2: Text, site: nat)
    requires Canonical(p1) && Canonical(p2) && (p2 == [] || Less(p1, p2))
    ensures var p := Position(mode, p1, p2, site);
            Canonical(p) && Less(p1, p) && (p2 != [] ==> Less(p, p2))
  {
    GenerateIsBetween(mode, p1, p2);
    SuffixKeepsBetween(mode, p1, p2, site);
    BelowUpperIff(mode, p1, p2);
  }

  // ---- uniqueness -----------------------------------------------------------------------

  lemma DecimalIsUnique(s: nat, t: nat)
    requires Decimal(s) == Decimal(t)
    ensures s == t
  {
    DecimalReadsBack(s);
    DecimalReadsBack(t);
  }

  lemma Cancel(g: Text, a: Text, h: Text, b: Text)
    requires |a| == |b|
    ensures g + a == h + b <==> g == h && a == b
  {
    if g + a == h + b {
      assert |g| == |h|;
      assert (g + a)[..|g|] == g && (h + b)[..|h|] == h;
      assert (g + a)[|g|..] == a && (h + b)[|h|..] == b;
    }
  }

  lemma SplitCancel(g: Text, a: Text, h: Text, b: Text, k: nat)
    requires k <= |b| && |a| == |b| - k
    ensures g + a == h + b <==> b[k..] == a && g == h + b[..k]
  {
    Associate(h, b[..k], b[k..]);
    assert b[..k] + b[k..] == b;
    Cancel(g, a, h + b[..k], b[k..]);
  }

  /** The digits of site t end with those of site s. */
  predicate EndsWith(t: nat, s: nat) {
    |Decimal(s)| <= |Decimal(t)| && Decimal(t)[|Decimal(t)| - |Decimal(s)|..] == Decimal(s)
  }

  /** Two positions, of texts g and h generated at sites s and t, coincide iff the digits of one
      site end with those of the other and its text continues with the remaining ones. */
  lemma CollideIff(g: Text, s: nat, h: Text, t: nat)
    requires |Decimal(s)| <= |Decimal(t)|
    ensures g + Decimal(s) == h + Decimal(t) <==>
            EndsWith(t, s) && g == h + Decimal(t)[..|Decimal(t)| - |Decimal(s)|]
  {
    SplitCancel(g, Decimal(s), h, Decimal(t), |Decimal(t)| - |Decimal(s)|);
  }

  /** Bounds of a generated position: canonical, and ordered where there is an upper one. */
  ghost predicate Bounds(p1: Text, p2: Text) {
    Canonical(p1) && Canonical(p2) && (p2 == [] || Less(p1, p2))
  }

  ghost predicate Collide(mode: Mode, s: nat, t: nat, p1: Text, p2: Text, q1: Text, q2: Text) {
    Bounds(p1, p2) && Bounds(q1, q2) && Position(mode, p1, p2, s) == Position(mode, q1, q2, t)
  }

  /** Between two texts that differ by two in their last character the one in between is made. */
  lemma {:induction false} MiddleFrom(mode: Mode, h: Text, x: Byte, i: nat)
    requires 34 <= x < 126 && i <= |h|
    ensures GenerateFrom(mode, h + [x - 1], h + [x + 1], i) == h[i..] + [x]
    decreases |h| - i
  {
    if i < |h| { MiddleFrom(mode, h, x, i + 1); }
  }

  lemma {:induction false} LastLess(h: Text, x: Byte, y: Byte)
    requires x < y
    ensures Less(h + [x], h + [y])
  {
    if h != [] {
      LastLess(h[1..], x, y);
      assert (h + [x])[1..] == h[1..] + [x] && (h + [y])[1..] == h[1..] + [y];
    }
  }

  /** Every canonical text that ends in a digit is made between some bounds. */
  lemma DigitIsGenerated(mode: Mode, h: Text, x: Byte)
    requires 48 <= x <= 57 && Printable(h)
    ensures Bounds(h + [x - 1], h + [x + 1]) && Generate(mode, h + [x - 1], h + [x + 1]) == h + [x]
  {
    MiddleFrom(mode, h, x, 0);
    LastLess(h, x - 1, x + 1);
  }

  /** Two sites can produce one position iff the digits of one end with those of the other, in
      every mode. */
  lemma SitesCollideIff(mode: Mode, s: nat, t: nat)
    requires s != t && |Decimal(s)| <= |Decimal(t)|
    ensures (exists p1, p2, q1, q2 :: Collide(mode, s, t, p1, p2, q1, q2)) <==> EndsWith(t, s)
  {
    if p1, p2, q1, q2 :| Collide(mode, s, t, p1, p2, q1, q2) {
      CollideIff(Generate(mode, p1, p2), s, Generate(mode, q1, q2), t);
    }
    if EndsWith(t, s) { CollidingBounds(mode, s, t); }
  }

  lemma CollidingBounds(mode: Mode, s: nat, t: nat)
    requires s != t && EndsWith(t, s)
    ensures exists p1, p2, q1, q2 :: Collide(mode, s, t, p1, p2, q1, q2)
  {
    var k := |Decimal(t)| - |Decimal(s)|;
    if k == 0 { DecimalIsUnique(s, t); }
    var first, x := Generate(mode, [], []), Decimal(t)[k - 1];
    var h := first + Decimal(t)[..k - 1];
    GenerateIsBetween(mode, [], []);
    DigitIsGenerated(mode, h, x);
    assert Decimal(t)[..k] == Decimal(t)[..k - 1] + [x];
    Associate(first, Decimal(t)[..k - 1], [x]);
    CollideIff(h + [x], s, first, t);
    assert Collide(mode, s, t, h + [x - 1], h + [x + 1], [], []);
  }

  /** Sites whose ids have equally many digits never produce the same position, and one site does
      so only from the same text. */
  lemma EqualDigitsAreUnique(g: Text, s: nat, h: Text, t: nat)
    requires |Decimal(s)| == |Decimal(t)|
    ensures g + Decimal(s) == h + Decimal(t) <==> s == t && g == h
  {
    Cancel(g, Decimal(s), h, Decimal(t));
    if g + Decimal(s) == h + Decimal(t) { DecimalIsUnique(s, t); }
  }

  /** For instance sites 1, 9 and 51 each insert into the empty list, and site 1 then
      inserts between its own row and that of site 9 before it receives that of site 51. */
  lemma SitesCanCollide()
    ensures Position(Regular, Position(Regular, [], [], 1), Position(Regular, [], [], 9), 1) ==
        Position(Regular, [], [], 51)
  {
    assert Decimal(5) == [53] && Decimal(51) == Decimal(5) + [49];
    assert Generate(Regular, [], []) == [80];
    var p1, p2 := Position(Regular, [], [], 1), Position(Regular, [], [], 9);
    assert p1 == [80, 49] && p2 == [80, 57];
    assert GenerateFrom(Regular, p1, p2, 1) == [53];
  }
}
