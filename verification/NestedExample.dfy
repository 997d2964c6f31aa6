/** The documented map of sets: its plan, and what the plan returns. */
module NestedExample {
  import opened Options
  import opened Sequences
  import opened ListIds
  import opened NestedViews
  import opened NestedPlans
  import opened NestedTheorem

  const MAP_OF_SETS: seq<View> := [MapAwLww, SetAw]

  /** For `MapAwLww SetAw` one join on the value of the map entry, one aggregation of the set by id,
      key and inner id, and one of the map by id. */
  lemma {:induction false} MapOfSetsPlan()
    ensures QueryPlan(MAP_OF_SETS) ==
            Final(Group([Id(0)], ObjectAgg(Key(0), Data),
              Group([Id(0), Key(0), Id(1)], ArrayAgg(Data),
                Base([Id(0), Key(0), Id(1), Data],
                     [Line(MapAwLww, None), Line(SetAw, Some(JoinKey(false, 0, true)))]))))
  {
    var base := Base([Id(0), Key(0), Id(1), Data],
                     [Line(MapAwLww, None), Line(SetAw, Some(JoinKey(false, 0, true)))]);
    assert Lines(MAP_OF_SETS) == base.lines;
    assert BaseFrom(MAP_OF_SETS, 1) == [Id(1), Data];
    assert BaseFrom(MAP_OF_SETS, 0) == base.columns;
    assert ColumnsUpTo(MAP_OF_SETS, 0) == [];
    assert ColumnsUpTo(MAP_OF_SETS, 1) == [Id(0), Key(0)];
    var sets := Group([Id(0), Key(0), Id(1)], ArrayAgg(Data), base);
    assert PlanFrom(MAP_OF_SETS, 1) == RootPlan(MAP_OF_SETS, base) == sets;
    var cols := [Id(0), Key(0), Data];
    assert ColumnsUpTo(MAP_OF_SETS, 1) + [Data] == cols;
    assert LevelAggs(MapAwLww, cols) == [(ObjectAgg(Key(0), Data), 1)];
    assert GroupAll(cols, LevelAggs(MapAwLww, cols), sets) == Group(cols[..1], ObjectAgg(Key(0), Data), sets);
    assert cols[..1] == [Id(0)] && [(ObjectAgg(Key(0), Data), 1)][1..] == [];
  }

  const M1: Text := [109, 49]
  const S1: Text := [115, 49]
  const S2: Text := [115, 50]
  const K1: Text := [107, 49]
  const K2: Text := [107, 50]

  function Element(b: Byte): Entry {
    Entry([], One([b]))
  }

  const SET_1: Structure := Structure(S1, [Element(97), Element(98)])
  const SET_2: Structure := Structure(S2, [Element(99), Element(100)])
  const MAP_1: Structure := Structure(M1, [Entry(K1, One(S1)), Entry(K2, One(S2))])

  /** Set s1 of a and b, set s2 of c and d, and a map m1 with the id of each under a key. */
  function Documented(): Db {
    v => if v == MapAwLww then [MAP_1] else if v == SetAw then [SET_1, SET_2] else []
  }

  lemma {:induction false} DocumentedIsValid()
    ensures ValidDb(Documented())
  {
    var db := Documented();
    assert SET_1.entries[0].cell != SET_1.entries[1].cell && SET_2.entries[0].cell != SET_2.entries[1].cell;
    assert ValidEntries(SetAw, SET_1.entries) && ValidEntries(SetAw, SET_2.entries);
    assert ValidEntries(MapAwLww, MAP_1.entries);
    forall v ensures ValidStructures(v, db(v)) { }
  }

  lemma {:induction false} SetValue(s: Structure, x: Byte, y: Byte)
    requires s.entries == [Element(x), Element(y)]
    ensures Nested(Documented(), MAP_OF_SETS, 1, s) == Some(Bag(multiset{Str([x]), Str([y])}))
  {
    var db, es := Documented(), s.entries;
    assert Pairs(db, MAP_OF_SETS, 1, es[2..]) == [];
    assert Pairs(db, MAP_OF_SETS, 1, es[1..]) == [([], Str([y]))];
    assert Pairs(db, MAP_OF_SETS, 1, es) == [([], Str([x])), ([], Str([y]))];
    assert Seconds([([], Str([x])), ([], Str([y]))]) == [Str([x]), Str([y])];
  }

  lemma {:induction false} SetOfKey(id: Text, s: Structure)
    requires (id == S1 && s == SET_1) || (id == S2 && s == SET_2)
    ensures Referenced(Documented(), SetAw, One(id)) == [s]
  {
    var p := (x: Structure) => x.id in Targets(One(id));
    var ss := [SET_1, SET_2];
    assert ss[1..] == [SET_2] && Filter(p, ss[2..]) == [];
    assert Filter(p, [SET_2]) == if id == S2 then [SET_2] else [];
  }

  lemma {:induction false} KeyPairs(es: seq<Entry>, id: Text, s: Structure, x: Json)
    requires es != [] && es[0].cell == One(id) && Referenced(Documented(), SetAw, One(id)) == [s]
    requires Nested(Documented(), MAP_OF_SETS, 1, s) == Some(x)
    ensures Pairs(Documented(), MAP_OF_SETS, 0, es) == [(es[0].sub, x)] + Pairs(Documented(), MAP_OF_SETS, 0, es[1..])
  {
    assert [s][1..] == [];
    assert NestedAll(Documented(), MAP_OF_SETS, 1, [s]) == [x];
    assert Map((j: Json) => (es[0].sub, j), [x]) == [(es[0].sub, x)];
  }

  function DocumentedPairs(): seq<Pair> {
    [(K1, Bag(multiset{Str([97]), Str([98])})), (K2, Bag(multiset{Str([99]), Str([100])}))]
  }

  /** {"k1": ["a", "b"], "k2": ["c", "d"]} */
  function DocumentedValue(): Json {
    Obj(map[K1 := Bag(multiset{Str([97]), Str([98])}), K2 := Bag(multiset{Str([99]), Str([100])})])
  }

  lemma {:induction false} MapPairs()
    ensures Pairs(Documented(), MAP_OF_SETS, 0, MAP_1.entries) == DocumentedPairs()
  {
    var es := MAP_1.entries;
    SetValue(SET_1, 97, 98);
    SetValue(SET_2, 99, 100);
    SetOfKey(S1, SET_1);
    SetOfKey(S2, SET_2);
    KeyPairs(es, S1, SET_1, Bag(multiset{Str([97]), Str([98])}));
    KeyPairs(es[1..], S2, SET_2, Bag(multiset{Str([99]), Str([100])}));
    assert Pairs(Documented(), MAP_OF_SETS, 0, es[1..][1..]) == [];
  }

  lemma {:induction false} ObjectOfPairs(v: Json, w: Json)
    ensures ObjOf([(K1, v), (K2, w)]) == map[K1 := v, K2 := w]
  {
    assert [(K1, v), (K2, w)][..1] == [(K1, v)] && [(K1, v)][..0] == [];
    assert ObjOf([(K1, v)]) == map[K1 := v];
  }

  lemma {:induction false} MapValue()
    ensures Nested(Documented(), MAP_OF_SETS, 0, MAP_1) == Some(DocumentedValue())
  {
    MapPairs();
    ObjectOfPairs(DocumentedPairs()[0].1, DocumentedPairs()[1].1);
    assert Combine(MapAwLww, false, DocumentedPairs()) == DocumentedValue();
  }

  /** Whatever the plan returns of it, the map is there, once, with both sets in full. */
  lemma {:induction false} DocumentedResult(out: seq<Tuple>)
    requires Yields(QueryPlan(MAP_OF_SETS), Documented(), out)
    ensures multiset(out)[map[Id(0) := Str(M1), Data := DocumentedValue()]] == 1
  {
    DocumentedIsValid();
    MapValue();
    assert MAP_1 in Documented()(MAP_OF_SETS[0]);
    PlanRowIff(Documented(), MAP_OF_SETS, out, M1, DocumentedValue());
  }
}
