/** List position identifiers: a string strictly between two others in byte order. */
module ListIds {
  import opened Options
  import opened Sequences

  /** A character of a C string: ASCII without the terminator. Positions use 33 to 126. */
  type Byte = b: int | 1 <= b <= 127 witness 33

  type Text = seq<Byte>

  const LOW: Byte := 33
  const HIGH: Byte := 127

  // ---- byte order, collation "C" ------------------------------------------------------

  predicate Less(a: Text, b: Text) {
    b != [] && (a == [] || a[0] < b[0] || (a[0] == b[0] && Less(a[1..], b[1..])))
  }

  lemma {:induction false} LessTransitive(a: Text, b: Text, c: Text)
    requires Less(a, b) && Less(b, c)
    ensures Less(a, c)
  {
    if a != [] && a[0] == b[0] && b[0] == c[0] { LessTransitive(a[1..], b[1..], c[1..]); }
  }

  /** Exactly one of a < b, a == b and b < a holds. */
  lemma {:induction false} LessIsTotal(a: Text, b: Text)
    ensures Less(a, b) || a == b || Less(b, a)
    ensures !(Less(a, b) && Less(b, a)) && (a == b ==> !Less(a, b))
  {
    if a != [] && b != [] && a[0] == b[0] {
      LessIsTotal(a[1..], b[1..]);
      assert a == [a[0]] + a[1..] && b == [b[0]] + b[1..];
    }
  }

  // ---- the generator ------------------------------------------------------------------

  datatype Mode = Regular | Appends | Prepends

  /** `charBetweenRegular`, `charBetweenAppends` and `charBetweenPrepends`. */
  function CharBetween(mode: Mode, c1: int, c2: int): int {
    match mode
    case Regular => (c1 + c2) / 2
    case Appends => c1 + 1
    case Prepends => c2 - 1
  }

  function Longer(p1: Text, p2: Text): nat {
    if |p1| < |p2| then |p2| else |p1|
  }

  /** Character i of the lower bound, padded with '!'. */
  function Lower(p1: Text, i: nat): Byte {
    if i < |p1| then p1[i] else LOW
  }

  /** Character i of the upper bound, padded above every character in use. */
  function Upper(p2: Text, i: nat): Byte {
    if i < |p2| then p2[i] else HIGH
  }

  /** The characters generated from position i on. */
  function GenerateFrom(mode: Mode, p1: Text, p2: Text, i: nat): Text
    requires i <= Longer(p1, p2)
    decreases Longer(p1, p2) - i
  {
    var c1, c2 := Lower(p1, i), Upper(p2, i);
    if c2 - c1 > 1 then [CharBetween(mode, c1, c2)]
    else [c1] + GenerateFrom(mode, p1, p2, i + 1)
  }

  function Generate(mode: Mode, p1: Text, p2: Text): Text {
    GenerateFrom(mode, p1, p2, 0)
  }

  /** Character i of a bound, or what it is padded with. */
  function CharAt(p: Text, i: nat, padding: Byte): Byte {
    if i < |p| then p[i] else padding
  }

  /** g is what the generator promises between p1 and p2: the characters of p1, padded with '!',
      as long as nothing fits below those of p2, padded with 127, and then one that fits. */
  ghost predicate Made(mode: Mode, p1: Text, p2: Text, g: Text) {
    && g != []
    && (forall k :: 0 <= k < |g| - 1 ==> g[k] == CharAt(p1, k, 33) && CharAt(p2, k, 127) - CharAt(p1, k, 33) <= 1)
    && var c1, c2, x := CharAt(p1, |g| - 1, 33), CharAt(p2, |g| - 1, 127), g[|g| - 1];
       && c2 - c1 > 1
       && match mode
          case Regular => 2 * x <= c1 + c2 <= 2 * x + 1
          case Appends => x == c1 + 1
          case Prepends => x == c2 - 1
  }

  lemma {:induction false} CharactersFrom(mode: Mode, p1: Text, p2: Text, i: nat)
    requires i <= Longer(p1, p2)
    ensures var g, l := GenerateFrom(mode, p1, p2, i), |GenerateFrom(mode, p1, p2, i)| - 1;
            && l >= 0 && i + l <= Longer(p1, p2)
            && (forall k :: i <= k < i + l ==> g[k - i] == Lower(p1, k) && Adjacent(p1, p2, k))
            && !Adjacent(p1, p2, i + l) && g[l] == CharBetween(mode, Lower(p1, i + l), Upper(p2, i + l))
    decreases Longer(p1, p2) - i
  {
    if Adjacent(p1, p2, i) {
      CharactersFrom(mode, p1, p2, i + 1);
      var g, rest := GenerateFrom(mode, p1, p2, i), GenerateFrom(mode, p1, p2, i + 1);
      forall k | i < k < i + |g| - 1 ensures g[k - i] == Lower(p1, k) && Adjacent(p1, p2, k) {
        assert g[k - i] == rest[k - (i + 1)];
      }
    }
  }

  lemma GeneratedIsMade(mode: Mode, p1: Text, p2: Text)
    ensures Made(mode, p1, p2, Generate(mode, p1, p2))
  {
    var g := Generate(mode, p1, p2);
    CharactersFrom(mode, p1, p2, 0);
    forall k | 0 <= k < |g| - 1 ensures g[k] == CharAt(p1, k, 33) && CharAt(p2, k, 127) - CharAt(p1, k, 33) <= 1 {
      assert g[k - 0] == Lower(p1, k) && Adjacent(p1, p2, k);
    }
  }

  lemma MadeIsUnique(mode: Mode, p1: Text, p2: Text, g: Text, h: Text)
    requires Made(mode, p1, p2, g) && Made(mode, p1, p2, h)
    ensures g == h
  {
    var l, c1, d1 := |g| - 1, CharAt(p1, |g| - 1, 33), CharAt(p1, |h| - 1, 33);
    forall k | 0 <= k < |g| ensures g[k] == h[k] {
      assert k < l ==> g[k] == CharAt(p1, k, 33);
      assert k < l ==> h[k] == CharAt(p1, k, 33);
    }
  }

  /** For all bounds the generated text is so, and no other. */
  lemma MadeIff(mode: Mode, p1: Text, p2: Text, g: Text)
    ensures Made(mode, p1, p2, g) <==> g == Generate(mode, p1, p2)
  {
    GeneratedIsMade(mode, p1, p2);
    if Made(mode, p1, p2, g) { MadeIsUnique(mode, p1, p2, g, Generate(mode, p1, p2)); }
  }

  /** `textToString`: NULL reads as the empty string. */
  function TextToString(t: Option<Text>): Text {
    match t case None => [] case Some(s) => s
  }

  ghost predicate MadeOf(mode: Mode, arg1: Option<Text>, arg2: Option<Text>, g: Text) {
    Made(mode, if arg1.Some? then arg1.value else [], if arg2.Some? then arg2.value else [], g)
  }

  lemma GeneratedIsMadeOf(mode: Mode, arg1: Option<Text>, arg2: Option<Text>)
    ensures MadeOf(mode, arg1, arg2, Generate(mode, TextToString(arg1), TextToString(arg2)))
  {
    GeneratedIsMade(mode, TextToString(arg1), TextToString(arg2));
  }

  /** A text as a C string. */
  function Terminated(text: Text): seq<int> {
    var chars: seq<int> := text;
    chars + [0]
  }

  /** The loop over a character buffer. It always leaves through the break, at the latest when
      both bounds are padding. The terminator follows the text; where the text has maxLen + 1
      characters that is past the end of the original's buffer, so the one here has a byte more. */
  method FillBuffer(p1: Text, p2: Text, mode: Mode) returns (buffer: seq<int>)
    ensures buffer == Terminated(Generate(mode, p1, p2)) && 2 <= |buffer| <= Longer(p1, p2) + 2
  {
    var maxLen := Longer(p1, p2);
    var result := new int[maxLen + 2];
    var i := 0;
    while i < maxLen + 1
      invariant 0 <= i <= maxLen
      invariant Generate(mode, p1, p2) == result[..i] + GenerateFrom(mode, p1, p2, i)
      decreases maxLen - i
    {
      var c1: int, c2: int := Lower(p1, i), Upper(p2, i);
      if c2 - c1 > 1 {
        result[i] := CharBetween(mode, c1, c2);
        break;
      } else {
        result[i] := c1;
      }
      assert result[..i + 1] == result[..i] + [c1];
      Associate(result[..i], [c1], GenerateFrom(mode, p1, p2, i + 1));
      i := i + 1;
    }
    assert result[..i + 1] == result[..i] + [result[i]];
    result[i + 1] := 0;
    buffer := result[..i + 2];
    assert buffer == result[..i + 1] + [0];
  }

  /** Where the C string in a buffer ends. */
  function StringEnd(buffer: seq<int>): (n: nat)
    ensures n <= |buffer|
  {
    if buffer == [] || buffer[0] == 0 then 0 else 1 + StringEnd(buffer[1..])
  }

  lemma {:induction false} TextEnds(text: Text)
    ensures StringEnd(Terminated(text)) == |text|
  {
    if text != [] {
      TextEnds(text[1..]);
      assert Terminated(text)[1..] == Terminated(text[1..]);
    }
  }

  /** `generateVirtualIndexBetween`. */
  method GenerateVirtualIndexBetween(arg1: Option<Text>, arg2: Option<Text>, mode: Mode)
    returns (text: Text, terminator: nat)
    ensures text == Generate(mode, TextToString(arg1), TextToString(arg2)) && terminator == |text|
    ensures 1 <= |text| <= Longer(TextToString(arg1), TextToString(arg2)) + 1
    ensures MadeOf(mode, arg1, arg2, text)
  {
    var buffer := FillBuffer(TextToString(arg1), TextToString(arg2), mode);
    TextEnds(Generate(mode, TextToString(arg1), TextToString(arg2)));
    terminator := StringEnd(buffer);
    text := buffer[..terminator];
    GeneratedIsMadeOf(mode, arg1, arg2);
  }

  // ---- the original's buffer --------------------------------------------------------------

  /** The size the original allocates for its result. */
  function BufferSize(p1: Text, p2: Text): nat {
    Longer(p1, p2) + 1
  }

  predicate Adjacent(p1: Text, p2: Text, j: nat) {
    Upper(p2, j) - Lower(p1, j) <= 1
  }

  lemma {:induction false} LengthFrom(mode: Mode, p1: Text, p2: Text, i: nat)
    requires i <= Longer(p1, p2)
    ensures |GenerateFrom(mode, p1, p2, i)| <= Longer(p1, p2) - i + 1
    ensures |GenerateFrom(mode, p1, p2, i)| == Longer(p1, p2) - i + 1 <==>
            forall j :: i <= j < Longer(p1, p2) ==> Adjacent(p1, p2, j)
    decreases Longer(p1, p2) - i
  {
    if i < Longer(p1, p2) && Adjacent(p1, p2, i) {
      LengthFrom(mode, p1, p2, i + 1);
    }
  }

  /** The terminator, at index |text|, lands past the original's buffer exactly when no character
      fits between the padded bounds before both end. */
  lemma BufferOverrunIff(mode: Mode, p1: Text, p2: Text)
    ensures |Generate(mode, p1, p2)| >= BufferSize(p1, p2) <==>
            forall j :: 0 <= j < Longer(p1, p2) ==> Adjacent(p1, p2, j)
  {
    LengthFrom(mode, p1, p2, 0);
  }

  /** The first insert into any list is such a case, in every mode. */
  lemma FirstInsertOverruns(mode: Mode)
    ensures |Generate(mode, [], [])| >= BufferSize([], [])
  {
    BufferOverrunIff(mode, [], []);
  }

  // ---- bounds -------------------------------------------------------------------------

  lemma {:induction false} AboveFrom(mode: Mode, p1: Text, p2: Text, i: nat)
    requires i <= |p1|
    ensures Less(p1[i..], GenerateFrom(mode, p1, p2, i))
    decreases |p1| - i
  {
    if i < |p1| && Upper(p2, i) - Lower(p1, i) <= 1 {
      AboveFrom(mode, p1, p2, i + 1);
      assert p1[i..][1..] == p1[i + 1..];
      assert GenerateFrom(mode, p1, p2, i)[1..] == GenerateFrom(mode, p1, p2, i + 1);
    }
  }

  /** The result is above the lower bound for all bounds, even when they are not in order. */
  lemma AboveLower(mode: Mode, p1: Text, p2: Text)
    ensures Less(p1, Generate(mode, p1, p2))
  {
    AboveFrom(mode, p1, p2, 0);
    assert p1[0..] == p1;
  }

  /** The first k characters of p, padded with '!'. */
  function Pad(p: Text, k: nat): Text {
    seq(k, i requires 0 <= i < k => Lower(p, i))
  }

  lemma {:induction false} BelowFrom(mode: Mode, p1: Text, p2: Text, i: nat)
    requires i <= |p2|
    ensures Less(GenerateFrom(mode, p1, p2, i), p2[i..]) <==> Less(Pad(p1, |p2|)[i..], p2[i..])
    decreases |p2| - i
  {
    if i < |p2| {
      var g, pad := GenerateFrom(mode, p1, p2, i), Pad(p1, |p2|);
      assert p2[i..][1..] == p2[i + 1..] && pad[i..][1..] == pad[i + 1..];
      assert pad[i..][0] == Lower(p1, i) && p2[i..][0] == Upper(p2, i);
      if Upper(p2, i) - Lower(p1, i) <= 1 {
        assert g[1..] == GenerateFrom(mode, p1, p2, i + 1);
        BelowFrom(mode, p1, p2, i + 1);
      }
    }
  }

  /** For all bounds, the result is below the upper one iff the lower bound, cut or padded with
      '!' to its length, is. */
  lemma BelowUpperIff(mode: Mode, p1: Text, p2: Text)
    ensures Less(Generate(mode, p1, p2), p2) <==> Less(Pad(p1, |p2|), p2)
  {
    BelowFrom(mode, p1, p2, 0);
    assert p2[0..] == p2 && Pad(p1, |p2|)[0..] == Pad(p1, |p2|);
  }

  predicate Printable(p: Text) {
    forall i :: 0 <= i < |p| ==> 33 <= p[i] <= 126
  }

  /** The form the generator keeps: printable, and not ending in the padding character. */
  predicate Canonical(p: Text) {
    Printable(p) && (p != [] ==> p[|p| - 1] != LOW)
  }

  lemma {:induction false} CanonicalAbovePadding(p1: Text, p2: Text)
    requires Canonical(p2) && Less(p1, p2)
    ensures Less(Pad(p1, |p2|), p2)
    decreases |p2|
  {
    var pad := Pad(p1, |p2|);
    if pad[0] == p2[0] && |p2| > 1 {
      var rest := if p1 == [] then [] else p1[1..];
      assert p2[1..] != [] && p2[1..][|p2| - 2] == p2[|p2| - 1];
      CanonicalAbovePadding(rest, p2[1..]);
      assert pad[1..] == Pad(rest, |p2| - 1);
    }
  }

  lemma {:induction false} GeneratedIsCanonical(mode: Mode, p1: Text, p2: Text, i: nat)
    requires Printable(p1) && Printable(p2) && i <= Longer(p1, p2)
    ensures var g := GenerateFrom(mode, p1, p2, i);
            Canonical(g) && 1 <= |g| <= Longer(p1, p2) + 1 - i
    decreases Longer(p1, p2) - i
  {
    if Upper(p2, i) - Lower(p1, i) <= 1 { GeneratedIsCanonical(mode, p1, p2, i + 1); }
  }

  /** Strictly between, and canonical again, for canonical bounds in order. An empty lower bound
      is no bound; so is an empty upper one. */
  lemma GenerateIsBetween(mode: Mode, p1: Text, p2: Text)
    requires Canonical(p1) && Canonical(p2) && (p2 == [] || Less(p1, p2))
    ensures var p := Generate(mode, p1, p2);
            && p != [] && Canonical(p) && |p| <= Longer(p1, p2) + 1
            && Less(p1, p) && (p2 != [] ==> Less(p, p2))
  {
    AboveLower(mode, p1, p2);
    GeneratedIsCanonical(mode, p1, p2, 0);
    if p2 != [] {
      BelowUpperIff(mode, p1, p2);
      CanonicalAbovePadding(p1, p2);
    }
  }

  /** Canonical form is needed: nothing fits between p and p followed by '!'. */
  lemma NothingFitsBeforePadding(mode: Mode, p: Text)
    ensures Less(p, p + [LOW]) && !Less(Generate(mode, p, p + [LOW]), p + [LOW])
  {
    BelowUpperIff(mode, p, p + [LOW]);
    assert Pad(p, |p| + 1) == p + [LOW];
    LessIsTotal(p + [LOW], p + [LOW]);
    PrefixIsLess(p, [LOW]);
  }

  lemma {:induction false} PrefixIsLess(p: Text, tail: Text)
    requires tail != []
    ensures Less(p, p + tail)
  {
    if p != [] {
      PrefixIsLess(p[1..], tail);
      assert (p + tail)[1..] == p[1..] + tail;
    }
  }

  // ---- growth -------------------------------------------------------------------------

  function Repeat(b: Byte, k: nat): Text {
    seq(k, _ => b)
  }

  lemma RepeatCons(b: Byte, k: nat)
    ensures Repeat(b, k + 1) == [b] + Repeat(b, k)
  {
  }

  lemma {:induction false} AfterLastFrom(mode: Mode, q: nat, x: Byte, i: nat)
    requires 33 <= x <= 126 && i <= q
    ensures GenerateFrom(mode, Repeat(126, q) + [x], [], i) ==
            if x < 126 then Repeat(126, q - i) + [CharBetween(mode, x, 127)]
            else Repeat(126, q + 1 - i) + [CharBetween(mode, 33, 127)]
    decreases q - i
  {
    if i < q {
      AfterLastFrom(mode, q, x, i + 1);
      RepeatCons(126, q - i - 1);
      RepeatCons(126, q - i);
    } else if x == 126 {
      assert GenerateFrom(mode, Repeat(126, q) + [x], [], q + 1) == [CharBetween(mode, 33, 127)];
      assert Repeat(126, 1) == [126];
    } else {
      assert Repeat(126, 0) == [];
    }
  }

  lemma {:induction false} BeforeFirstFrom(mode: Mode, q: nat, x: Byte, i: nat)
    requires 34 <= x <= 126 && i <= q
    ensures GenerateFrom(mode, [], Repeat(33, q) + [x], i) ==
            if x > 34 then Repeat(33, q - i) + [CharBetween(mode, 33, x)]
            else Repeat(33, q + 1 - i) + [CharBetween(mode, 33, 127)]
    decreases q - i
  {
    if i < q {
      BeforeFirstFrom(mode, q, x, i + 1);
      RepeatCons(33, q - i - 1);
      RepeatCons(33, q - i);
    } else if x == 34 {
      assert GenerateFrom(mode, [], Repeat(33, q) + [x], q + 1) == [CharBetween(mode, 33, 127)];
      assert Repeat(33, 1) == [33];
    } else {
      assert Repeat(33, 0) == [];
    }
  }

  /** The position of the n-th append to an empty list. */
  function NthAppend(mode: Mode, n: nat): Text {
    if n == 0 then [] else Generate(mode, NthAppend(mode, n - 1), [])
  }

  /** The position of the n-th prepend to an empty list. */
  function NthPrepend(mode: Mode, n: nat): Text {
    if n == 0 then [] else Generate(mode, [], NthPrepend(mode, n - 1))
  }

  lemma FirstIds(mode: Mode)
    ensures NthAppend(mode, 1) == [CharBetween(mode, 33, 127)] && NthPrepend(mode, 1) == [CharBetween(mode, 33, 127)]
  {
    assert NthAppend(mode, 0) == [] && NthPrepend(mode, 0) == [];
  }

  lemma NextAppend(mode: Mode, n: nat, q: nat, x: Byte)
    requires n > 0 && 33 <= x <= 126 && NthAppend(mode, n - 1) == Repeat(126, q) + [x]
    ensures NthAppend(mode, n) ==
            if x < 126 then Repeat(126, q) + [CharBetween(mode, x, 127)]
                else Repeat(126, q + 1) + [CharBetween(mode, 33, 127)]
  {
    AfterLastFrom(mode, q, x, 0);
  }

  lemma NextPrepend(mode: Mode, n: nat, q: nat, x: Byte)
    requires n > 0 && 34 <= x <= 126 && NthPrepend(mode, n - 1) == Repeat(33, q) + [x]
    ensures NthPrepend(mode, n) ==
            if x > 34 then Repeat(33, q) + [CharBetween(mode, 33, x)]
                else Repeat(33, q + 1) + [CharBetween(mode, 33, 127)]
  {
    BeforeFirstFrom(mode, q, x, 0);
  }

  lemma NextInCycle(n: nat, m: nat)
    requires n > 0 && m > 1
    ensures var r := (n - 1) % m;
            && n % m == (if r == m - 1 then 0 else r + 1)
            && n / m == (if r == m - 1 then (n - 1) / m + 1 else (n - 1) / m)
  {
    var q, r := (n - 1) / m, (n - 1) % m;
    if r == m - 1 {
      DivideBy(n, m, q + 1, 0);
    } else {
      DivideBy(n, m, q, r + 1);
    }
  }

  lemma {:induction false} DivideBy(n: nat, m: nat, q: nat, r: nat)
    requires n == q * m + r && r < m
    ensures n / m == q && n % m == r
  {
    MultipleIsFar(n / m - q, m);
    assert (n / m - q) * m == r - n % m;
  }

  lemma MultipleIsFar(d: int, m: int)
    requires m >= 0
    ensures d >= 1 ==> d * m >= m
    ensures d <= -1 ==> d * m <= -m
  {
    assert d >= 1 ==> d * m == (d - 1) * m + m && (d - 1) * m >= 0;
    assert d <= -1 ==> d * m == (d + 1) * m - m && (d + 1) * m <= 0;
  }

  /** In appends mode ids run through 93 characters before growing. */
  lemma {:induction false} NthAppendInAppendsMode(n: nat)
    requires n > 0
    ensures NthAppend(Appends, n) == Repeat(126, (n - 1) / 93) + [34 + (n - 1) % 93]
  {
    if n == 1 {
      FirstIds(Appends);
    } else {
      NthAppendInAppendsMode(n - 1);
      NextInCycle(n - 1, 93);
      NextAppend(Appends, n, (n - 2) / 93, 34 + (n - 2) % 93);
    }
  }

  /** In prepends mode they run down through as many. */
  lemma {:induction false} NthPrependInPrependsMode(n: nat)
    requires n > 0
    ensures NthPrepend(Prepends, n) == Repeat(33, (n - 1) / 93) + [126 - (n - 1) % 93]
  {
    if n == 1 {
      FirstIds(Prepends);
    } else {
      NthPrependInPrependsMode(n - 1);
      NextInCycle(n - 1, 93);
      NextPrepend(Prepends, n, (n - 2) / 93, 126 - (n - 2) % 93);
    }
  }

  /** An append overruns the buffer exactly when it makes the position longer: one in 93 of the
      appends in appends mode, and one in 7 in regular mode. */
  lemma AppendOverrunsIff(n: nat)
    ensures |NthAppend(Appends, n + 1)| >= BufferSize(NthAppend(Appends, n), []) <==> n % 93 == 0
    ensures |NthAppend(Regular, n + 1)| >= BufferSize(NthAppend(Regular, n), []) <==> n % 7 == 0
  {
    NthAppendInAppendsMode(n + 1);
    NthAppendInRegularMode(n + 1);
    if n > 0 {
      NthAppendInAppendsMode(n);
      NthAppendInRegularMode(n);
      NextInCycle(n, 93);
      NextInCycle(n, 7);
    }
  }

  const HALVINGS_UP: seq<Byte> := [80, 103, 115, 121, 124, 125, 126]
  const HALVINGS_DOWN: seq<Byte> := [80, 56, 44, 38, 35, 34]

  lemma HalvingsUp(r: nat)
    requires r < 7
    ensures 33 <= HALVINGS_UP[r] <= 126 && (HALVINGS_UP[r] < 126 <==> r < 6)
    ensures r < 6 ==> CharBetween(Regular, HALVINGS_UP[r], 127) == HALVINGS_UP[r + 1]
  {
  }

  lemma HalvingsDown(r: nat)
    requires r < 6
    ensures 34 <= HALVINGS_DOWN[r] <= 126 && (HALVINGS_DOWN[r] > 34 <==> r < 5)
    ensures r < 5 ==> CharBetween(Regular, 33, HALVINGS_DOWN[r]) == HALVINGS_DOWN[r + 1]
  {
  }

  /** In regular mode ids grow by one character every 7 appends. */
  lemma {:induction false} NthAppendInRegularMode(n: nat)
    requires n > 0
    ensures NthAppend(Regular, n) == Repeat(126, (n - 1) / 7) + [HALVINGS_UP[(n - 1) % 7]]
  {
    if n == 1 {
      FirstIds(Regular);
    } else {
      var q, r := (n - 2) / 7, (n - 2) % 7;
      NthAppendInRegularMode(n - 1);
      HalvingsUp(r);
      NextInCycle(n - 1, 7);
      NextAppend(Regular, n, q, HALVINGS_UP[r]);
    }
  }

  /** And by one character every 6 prepends. */
  lemma {:induction false} NthPrependInRegularMode(n: nat)
    requires n > 0
    ensures NthPrepend(Regular, n) == Repeat(33, (n - 1) / 6) + [HALVINGS_DOWN[(n - 1) % 6]]
  {
    if n == 1 {
      FirstIds(Regular);
    } else {
      var q, r := (n - 2) / 6, (n - 2) % 6;
      NthPrependInRegularMode(n - 1);
      HalvingsDown(r);
      NextInCycle(n - 1, 6);
      NextPrepend(Regular, n, q, HALVINGS_DOWN[r]);
    }
  }
}
