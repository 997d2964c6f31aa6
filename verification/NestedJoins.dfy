/** The lateral joins of nested views: evaluating the emitted join keys joins every entry with the
    structures that it refers to. */
module NestedJoins {
  import opened Options
  import opened Sequences
  import opened ListIds
  import opened NestedViews

  /** One joined row: a row of every view of the list, outermost first. */
  datatype Binding = Binding(id: Text, entry: Entry)

  type Env = seq<Binding>

  // ---- what the joins mean --------------------------------------------------------------

  /** The join from level i on, over the given structures of that level: each entry with what the
      structures that it refers to join with. */
  function JoinStructures(db: Db, types: seq<View>, i: nat, ss: seq<Structure>): (envs: seq<Env>)
    requires i < |types|
    ensures forall env :: env in envs ==> |env| == |types| - i
    decreases |types| - i, 2, |ss|
  {
    if ss == [] then []
    else JoinEntries(db, types, i, ss[0].id, ss[0].entries) + JoinStructures(db, types, i, ss[1..])
  }

  function JoinEntries(db: Db, types: seq<View>, i: nat, id: Text, es: seq<Entry>): (envs: seq<Env>)
    requires i < |types|
    ensures forall env :: env in envs ==> |env| == |types| - i
    decreases |types| - i, 1, |es|
  {
    if es == [] then [] else JoinEntry(db, types, i, Binding(id, es[0])) + JoinEntries(db, types, i, id, es[1..])
  }

  function JoinEntry(db: Db, types: seq<View>, i: nat, b: Binding): (envs: seq<Env>)
    requires i < |types|
    ensures forall env :: env in envs ==> |env| == |types| - i
    decreases |types| - i, 0
  {
    if i == |types| - 1 then [[b]]
    else Map((env: Env) => [b] + env, JoinStructures(db, types, i + 1, Referenced(db, types[i + 1], b.entry.cell)))
  }

  // ---- the emitted joins ----------------------------------------------------------------

  /** `(tx.data).value` of a map row or `tx.data` of another; the column of the wrong kind of view
      does not exist. */
  function SourceCell(v: View, e: Entry, ofMap: bool): Option<Cell> {
    match v
    case MapAwMvr | MapRwMvr | MapAwLww | MapLww => if ofMap then Some(e.cell) else None
    case SetAw | SetRw | SetLww | RegisterMvr | RegisterLww | ListView | Counter => if ofMap then None else Some(e.cell)
  }

  /** The ids for which `id = key` holds: a text compares with a text, and `any` takes an array. */
  function KeyTargets(lines: seq<Line>, key: JoinKey, outer: Env): set<Text> {
    if key.level >= |outer| || key.level >= |lines| then {}
    else match (key.any, SourceCell(lines[key.level].view, outer[key.level].entry, key.ofMap))
      case (false, Some(One(t))) => {t}
      case (true, Some(Many(ts))) => (set t | t in ts)
      case _ => {}
  }

  /** The structures of the next line for the rows joined so far. */
  function NextStructures(db: Db, lines: seq<Line>, outer: Env): seq<Structure>
    requires |outer| < |lines|
  {
    var line := lines[|outer|];
    match line.key
    case None => db(line.view)
    case Some(key) => Filter((s: Structure) => s.id in KeyTargets(lines, key, outer), db(line.view))
  }

  function LateralRows(db: Db, lines: seq<Line>): seq<Env>
    requires lines != []
  {
    LateralStructures(db, lines, [], NextStructures(db, lines, []))
  }

  function LateralStructures(db: Db, lines: seq<Line>, outer: Env, ss: seq<Structure>): seq<Env>
    requires |outer| < |lines|
    decreases |lines| - |outer|, 2, |ss|
  {
    if ss == [] then []
    else LateralEntries(db, lines, outer, ss[0].id, ss[0].entries) + LateralStructures(db, lines, outer, ss[1..])
  }

  function LateralEntries(db: Db, lines: seq<Line>, outer: Env, id: Text, es: seq<Entry>): seq<Env>
    requires |outer| < |lines|
    decreases |lines| - |outer|, 1, |es|
  {
    if es == [] then []
    else LateralEntry(db, lines, outer, Binding(id, es[0])) + LateralEntries(db, lines, outer, id, es[1..])
  }

  function LateralEntry(db: Db, lines: seq<Line>, outer: Env, b: Binding): seq<Env>
    requires |outer| < |lines|
    decreases |lines| - |outer|, 0
  {
    if |outer| == |lines| - 1 then [[b]]
    else
      var more := outer + [b];
      Map((env: Env) => [b] + env, LateralStructures(db, lines, more, NextStructures(db, lines, more)))
  }

  // ---- the emitted joins mean that --------------------------------------------------------

  ghost predicate AllTyped(v: View, ss: seq<Structure>) {
    forall s :: s in ss ==> forall e :: e in s.entries ==> Typed(v, e)
  }

  lemma ReferencedTyped(db: Db, v: View, c: Cell)
    requires ValidDb(db)
    ensures AllTyped(v, db(v)) && AllTyped(v, Referenced(db, v, c))
  {
    assert ValidStructures(v, db(v));
  }

  /** The join key of a view selects exactly what a row of it refers to. */
  lemma KeySelects(types: seq<View>, outer: Env, b: Binding)
    requires |outer| + 1 < |types| && Joinable(types[|outer|]) && Typed(types[|outer|], b.entry)
    ensures var key := JoinKeyOf(types[|outer|], |outer|);
            key.Some? && KeyTargets(Lines(types), key.value, outer + [b]) == Targets(b.entry.cell)
  {
    assert (outer + [b])[|outer|] == b;
  }

  /** And no other does: with another operator or another column of that row nothing joins. */
  lemma OtherKeysSelectNothing(types: seq<View>, outer: Env, b: Binding, key: JoinKey)
    requires |outer| + 1 < |types| && Joinable(types[|outer|]) && Typed(types[|outer|], b.entry)
    requires key.level == |outer| && Some(key) != JoinKeyOf(types[|outer|], |outer|)
    ensures KeyTargets(Lines(types), key, outer + [b]) == {}
  {
    assert (outer + [b])[|outer|] == b;
  }

  lemma NextIsReferenced(db: Db, types: seq<View>, outer: Env, b: Binding)
    requires |outer| + 1 < |types| && Joinable(types[|outer|]) && Typed(types[|outer|], b.entry)
    ensures NextStructures(db, Lines(types), outer + [b]) == Referenced(db, types[|outer| + 1], b.entry.cell)
  {
    var key := JoinKeyOf(types[|outer|], |outer|).value;
    KeySelects(types, outer, b);
    FilterCong((s: Structure) => s.id in KeyTargets(Lines(types), key, outer + [b]),
               (s: Structure) => s.id in Targets(b.entry.cell), db(types[|outer| + 1]));
  }

  lemma {:induction false} LateralIsJoin(db: Db, types: seq<View>, outer: Env, ss: seq<Structure>)
    requires |outer| < |types| && Accepted(types) && ValidDb(db) && AllTyped(types[|outer|], ss)
    ensures LateralStructures(db, Lines(types), outer, ss) == JoinStructures(db, types, |outer|, ss)
    decreases |types| - |outer|, 2, |ss|
  {
    if ss != [] {
      assert ss[0] in ss;
      LateralEntriesJoin(db, types, outer, ss[0].id, ss[0].entries);
      LateralIsJoin(db, types, outer, ss[1..]);
    }
  }

  lemma {:induction false} LateralEntriesJoin(db: Db, types: seq<View>, outer: Env, id: Text, es: seq<Entry>)
    requires |outer| < |types| && Accepted(types) && ValidDb(db) && forall e :: e in es ==> Typed(types[|outer|], e)
    ensures LateralEntries(db, Lines(types), outer, id, es) == JoinEntries(db, types, |outer|, id, es)
    decreases |types| - |outer|, 1, |es|
  {
    if es != [] {
      assert es[0] in es;
      LateralEntryJoins(db, types, outer, Binding(id, es[0]));
      LateralEntriesJoin(db, types, outer, id, es[1..]);
    }
  }

  lemma {:induction false} LateralEntryJoins(db: Db, types: seq<View>, outer: Env, b: Binding)
    requires |outer| < |types| && Accepted(types) && ValidDb(db) && Typed(types[|outer|], b.entry)
    ensures LateralEntry(db, Lines(types), outer, b) == JoinEntry(db, types, |outer|, b)
    decreases |types| - |outer|, 0
  {
    if |outer| < |types| - 1 {
      var next := NextLevel(db, types, outer, b);
      LateralIsJoin(db, types, outer + [b], next);
      SameEntryJoin(db, types, outer, b, next);
    }
  }

  lemma NextLevel(db: Db, types: seq<View>, outer: Env, b: Binding) returns (next: seq<Structure>)
    requires |outer| + 1 < |types| && Accepted(types) && ValidDb(db) && Typed(types[|outer|], b.entry)
    ensures |outer + [b]| == |outer| + 1 && AllTyped(types[|outer| + 1], next)
    ensures next == Referenced(db, types[|outer| + 1], b.entry.cell) == NextStructures(db, Lines(types), outer + [b])
  {
    next := Referenced(db, types[|outer| + 1], b.entry.cell);
    NextIsReferenced(db, types, outer, b);
    ReferencedTyped(db, types[|outer| + 1], b.entry.cell);
  }

  lemma SameEntryJoin(db: Db, types: seq<View>, outer: Env, b: Binding, next: seq<Structure>)
    requires |outer| + 1 < |types| && next == Referenced(db, types[|outer| + 1], b.entry.cell)
    requires NextStructures(db, Lines(types), outer + [b]) == next
    requires LateralStructures(db, Lines(types), outer + [b], next) == JoinStructures(db, types, |outer| + 1, next)
    ensures LateralEntry(db, Lines(types), outer, b) == JoinEntry(db, types, |outer|, b)
  {
  }

  /** All joined rows: every entry of the first view with everything it leads to. */
  lemma LateralRowsAreJoin(db: Db, types: seq<View>)
    requires Accepted(types) && ValidDb(db)
    ensures LateralRows(db, Lines(types)) == JoinStructures(db, types, 0, db(types[0]))
  {
    ReferencedTyped(db, types[0], Many([]));
    LateralIsJoin(db, types, [], db(types[0]));
  }
}
