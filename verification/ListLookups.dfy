/** Inserting into a replicated list at an index: which neighbours are looked up, and where the new
    position falls. */
module ListLookups {
  import opened ListIds
  import opened SitePositions

  /** The positions of a list in the order of its view. Concurrent rows can share one. */
  ghost predicate Ordered(ps: seq<Text>) {
    && (forall i :: 0 <= i < |ps| ==> ps[i] != [] && Canonical(ps[i]))
    && (forall i, j :: 0 <= i < j < |ps| ==> !Less(ps[j], ps[i]))
  }

  /** `OFFSET greatest(index - 1, 0) LIMIT (1 at index 0, else 2)`. */
  function Window(ps: seq<Text>, index: nat): seq<Text> {
    var start := if index == 0 then 0 else index - 1;
    var rest := if start <= |ps| then ps[start..] else [];
    var limit := if index == 0 then 1 else 2;
    if limit <= |rest| then rest[..limit] else rest
  }

  /** Row k of the window; NULL past its end, which the generator reads as the empty string. */
  function RowAt(w: seq<Text>, k: nat): Text {
    if k < |w| then w[k] else []
  }

  /** `_physicalToVirtualIndex`. */
  function NewPosition(mode: Mode, ps: seq<Text>, index: nat, site: nat): Text {
    var w := Window(ps, index);
    var before := if index == 0 then [] else RowAt(w, 0);
    var after := RowAt(w, if index == 0 then 0 else 1);
    Position(mode, before, after, site)
  }

  /** The place of a position among those of a list. */
  ghost predicate FallsAt(ps: seq<Text>, index: nat, p: Text) {
    && index <= |ps|
    && (forall i :: 0 <= i < index ==> Less(ps[i], p))
    && (forall i :: index <= i < |ps| ==> Less(p, ps[i]))
  }

  lemma SidesOf(ps: seq<Text>, index: nat, p: Text)
    requires Ordered(ps) && index <= |ps|
    requires index > 0 ==> Less(ps[index - 1], p)
    requires index < |ps| ==> Less(p, ps[index])
    ensures FallsAt(ps, index, p)
  {
    forall i | 0 <= i < index ensures Less(ps[i], p) {
      LessIsTotal(ps[i], ps[index - 1]);
      if i < index - 1 && ps[i] != ps[index - 1] { LessTransitive(ps[i], ps[index - 1], p); }
    }
    forall i | index <= i < |ps| ensures Less(p, ps[i]) {
      LessIsTotal(ps[i], ps[index]);
      if index < i && ps[i] != ps[index] { LessTransitive(p, ps[index], ps[i]); }
    }
  }

  lemma NeighboursOf(mode: Mode, ps: seq<Text>, index: nat, site: nat)
    requires index <= |ps|
    ensures NewPosition(mode, ps, index, site) ==
            Position(mode, if index == 0 then [] else ps[index - 1], if index < |ps| then ps[index] else [], site)
  {
  }

  /** Within the list, and right behind it, an insert falls at its index exactly when its two
      neighbours have different positions. */
  lemma InsertFallsIff(mode: Mode, ps: seq<Text>, index: nat, site: nat)
    requires Ordered(ps) && index <= |ps|
    ensures FallsAt(ps, index, NewPosition(mode, ps, index, site)) <==>
            index == 0 || index == |ps| || ps[index - 1] != ps[index]
  {
    NeighboursOf(mode, ps, index, site);
    var before, after := if index == 0 then [] else ps[index - 1], if index < |ps| then ps[index] else [];
    var p := NewPosition(mode, ps, index, site);
    SuffixKeepsBetween(mode, before, after, site);
    if index == 0 || index == |ps| || ps[index - 1] != ps[index] {
      if 0 < index < |ps| { LessIsTotal(ps[index - 1], ps[index]); }
      if index == 0 && |ps| > 0 { assert Less([], ps[0]); }
      PositionIsBetween(mode, before, after, site);
      SidesOf(ps, index, p);
    } else if FallsAt(ps, index, p) {
      assert Less(before, p) && Less(p, before);
      LessIsTotal(before, p);
    }
  }

  /** Past the end both neighbours are missing: the position is that of a first insert, whatever the
      list and the index, and the insert is an append exactly when that is above the last row. */
  lemma PastTheEnd(mode: Mode, ps: seq<Text>, index: nat, site: nat)
    requires Ordered(ps) && index > |ps|
    ensures NewPosition(mode, ps, index, site) == NewPosition(mode, [], 0, site)
    ensures FallsAt(ps, |ps|, NewPosition(mode, ps, index, site)) <==>
            ps == [] || Less(ps[|ps| - 1], NewPosition(mode, [], 0, site))
  {
    if ps == [] || Less(ps[|ps| - 1], NewPosition(mode, [], 0, site)) {
      SidesOf(ps, |ps|, NewPosition(mode, [], 0, site));
    }
  }

  /** So a site that inserts into an empty list, and then once more past its end, does not append:
      it writes to the element it has just made. */
  lemma SecondInsertReplaces(mode: Mode, index: nat, site: nat)
    requires index > 1
    ensures var p := NewPosition(mode, [], 0, site); NewPosition(mode, [p], index, site) == p
    ensures var p := NewPosition(mode, [], 0, site); !FallsAt([p], 1, NewPosition(mode, [p], index, site))
  {
    var p := NewPosition(mode, [], 0, site);
    PositionIsBetween(mode, [], [], site);
    PastTheEnd(mode, [p], index, site);
    LessIsTotal(p, p);
  }
}
