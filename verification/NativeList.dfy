/** The list of the native engine: a table keyed by list id and position string, which must
    behave like plain sequences. The rows of a list are kept in primary-key order, the order in
    which its unordered reads are served. */
module NativeList {
  import opened Options
  import opened ListIds

  datatype Item = Item(pos: Text, value: string)

  // ---- statements over the rows of one list -------------------------------------------

  /** `select max(pos)`; NULL over no rows, which the generator reads as the empty string. */
  function MaxPos(items: seq<Item>): Text {
    if items == [] then []
    else
      var m := MaxPos(items[1..]);
      if Less(m, items[0].pos) then items[0].pos else m
  }

  /** `select min(pos)`. */
  function MinPos(items: seq<Item>): Text {
    if items == [] then []
    else if |items| == 1 then items[0].pos
    else
      var m := MinPos(items[1..]);
      if Less(items[0].pos, m) then items[0].pos else m
  }

  /** `select pos ... offset k limit 1`. */
  function PosAt(items: seq<Item>, k: nat): Text {
    if k < |items| then items[k].pos else []
  }

  /** The lower bound of an insert: nothing at index 0, else the position before the index if
      there is one, else the largest position. */
  function LowerBound(items: seq<Item>, index: nat): Text {
    if index == 0 then []
    else if index - 1 < |items| then items[index - 1].pos
    else MaxPos(items)
  }

  /** How many rows precede a position in key order. */
  function Place(items: seq<Item>, pos: Text): nat {
    if items == [] || !Less(items[0].pos, pos) then 0 else 1 + Place(items[1..], pos)
  }

  lemma {:induction false} PlaceInRange(items: seq<Item>, pos: Text)
    ensures Place(items, pos) <= |items|
  {
    if items != [] { PlaceInRange(items[1..], pos); }
  }

  datatype Outcome = Done(items: seq<Item>) | Error

  /** `insert`: the row goes to its place in key order; a taken position violates the key. */
  function Insert(items: seq<Item>, it: Item): Outcome {
    PlaceInRange(items, it.pos);
    var p := Place(items, it.pos);
    if p < |items| && items[p].pos == it.pos then Error
    else Done(items[..p] + [it] + items[p..])
  }

  /** `delete ... where pos = ...`. */
  function Delete(items: seq<Item>, pos: Text): seq<Item> {
    if items == [] then [] else (if items[0].pos == pos then [] else [items[0]]) + Delete(items[1..], pos)
  }

  datatype Op = Add(index: int, value: string) | Append(value: string) | Prepend(value: string) | Rmv(index: int)
      | Clear

  /** What a statement does to the rows of its list; a negative OFFSET or LIMIT is an error. */
  function Step(items: seq<Item>, mode: Mode, op: Op): Outcome {
    match op
    case Add(index, value) =>
      if index < 0 then Error
      else Insert(items, Item(Generate(mode, LowerBound(items, index), PosAt(items, index)), value))
    case Append(value) => Insert(items, Item(Generate(mode, MaxPos(items), []), value))
    case Prepend(value) => Insert(items, Item(Generate(mode, [], MinPos(items)), value))
    case Rmv(index) =>
      if index < 0 then Error
      else Done(if index < |items| then Delete(items, items[index].pos) else items)
    case Clear => Done([])
  }

  // ---- the plain list -----------------------------------------------------------------

  function Values(items: seq<Item>): seq<string> {
    seq(|items|, i requires 0 <= i < |items| => items[i].value)
  }

  predicate Accepts(op: Op) {
    match op case Add(index, _) => index >= 0 case Rmv(index) => index >= 0 case _ => true
  }

  function Plain(s: seq<string>, op: Op): seq<string> {
    match op
    case Add(index, value) =>
      if index < 0 then s
      else
        var i := if index < |s| then index else |s|;
        s[..i] + [value] + s[i..]
    case Append(value) => s + [value]
    case Prepend(value) => [value] + s
    case Rmv(index) => if 0 <= index < |s| then s[..index] + s[index + 1..] else s
    case Clear => []
  }

  // ---- the invariant: strictly sorted, canonical positions -----------------------------

  ghost predicate Sorted(items: seq<Item>) {
    forall i, j :: 0 <= i < j < |items| ==> Less(items[i].pos, items[j].pos)
  }

  ghost predicate ValidItems(items: seq<Item>) {
    Sorted(items) && forall i :: 0 <= i < |items| ==> items[i].pos != [] && Canonical(items[i].pos)
  }

  lemma {:induction false} MaxPosIsLast(items: seq<Item>)
    requires Sorted(items)
    ensures MaxPos(items) == if items == [] then [] else items[|items| - 1].pos
  {
    if |items| > 1 {
      MaxPosIsLast(items[1..]);
      LessIsTotal(items[0].pos, items[|items| - 1].pos);
    } else if |items| == 1 {
      assert MaxPos(items[1..]) == [];
      if items[0].pos == [] { LessIsTotal([], []); }
    }
  }

  /** Over any rows the aggregates bound every position and are one of them. */
  lemma {:induction false} MinAndMax(items: seq<Item>)
    requires items != []
    ensures forall i :: 0 <= i < |items| ==> !Less(items[i].pos, MinPos(items)) && !Less(MaxPos(items), items[i].pos)
    ensures exists i :: 0 <= i < |items| && items[i].pos == MinPos(items)
    ensures exists i :: 0 <= i < |items| && items[i].pos == MaxPos(items)
  {
    var x := items[0].pos;
    LessIsTotal(x, x);
    if |items| == 1 {
      assert MaxPos(items[1..]) == [] && MaxPos(items) == x;
    } else {
      MinAndMax(items[1..]);
      var low, high := MinPos(items[1..]), MaxPos(items[1..]);
      LessIsTotal(x, low);
      LessIsTotal(x, high);
      forall i | 0 < i < |items| ensures !Less(items[i].pos, MinPos(items)) && !Less(MaxPos(items), items[i].pos) {
        StaysBetween(items[i].pos, items[1..][i - 1].pos, x, low, high);
      }
      var i :| 0 <= i < |items[1..]| && items[1..][i].pos == low;
      var j :| 0 <= j < |items[1..]| && items[1..][j].pos == high;
      assert items[i + 1].pos == low && items[j + 1].pos == high;
    }
  }

  lemma StaysBetween(p: Text, q: Text, x: Text, low: Text, high: Text)
    requires p == q && !Less(q, low) && !Less(high, q)
    ensures Less(x, low) ==> !Less(p, x)
    ensures Less(high, x) ==> !Less(x, p)
  {
    if Less(x, low) && Less(p, x) { LessTransitive(p, x, low); }
    if Less(high, x) && Less(x, p) { LessTransitive(high, x, p); }
  }

  lemma {:induction false} MinPosIsFirst(items: seq<Item>)
    requires Sorted(items)
    ensures MinPos(items) == PosAt(items, 0)
  {
    if |items| > 1 { MinPosIsFirst(items[1..]); }
  }

  /** A position between the neighbours of slot i is placed there. */
  lemma {:induction false} PlaceBetween(items: seq<Item>, pos: Text, i: nat)
    requires Sorted(items) && i <= |items|
    requires i > 0 ==> Less(items[i - 1].pos, pos)
    requires i < |items| ==> Less(pos, items[i].pos)
    ensures Place(items, pos) == i
  {
    if i > 0 {
      if i > 1 { LessTransitive(items[0].pos, items[i - 1].pos, pos); }
      PlaceBetween(items[1..], pos, i - 1);
    } else if items != [] {
      LessIsTotal(pos, items[0].pos);
    }
  }

  lemma InsertBetween(items: seq<Item>, it: Item, i: nat)
    requires ValidItems(items) && i <= |items| && it.pos != [] && Canonical(it.pos)
    requires i > 0 ==> Less(items[i - 1].pos, it.pos)
    requires i < |items| ==> Less(it.pos, items[i].pos)
    ensures Insert(items, it) == Done(items[..i] + [it] + items[i..])
    ensures ValidItems(items[..i] + [it] + items[i..])
  {
    PlaceBetween(items, it.pos, i);
    if i < |items| { LessIsTotal(it.pos, items[i].pos); }
    var r := items[..i] + [it] + items[i..];
    forall a, b | 0 <= a < b < |r| ensures Less(r[a].pos, r[b].pos) {
      if a < i && b == i {
        if a < i - 1 { LessTransitive(items[a].pos, items[i - 1].pos, it.pos); }
      } else if a == i {
        if b > i + 1 { LessTransitive(it.pos, items[i].pos, items[b - 1].pos); }
      }
    }
  }

  /** u is t with it in slot i. */
  ghost predicate InsertedAt(t: seq<Item>, u: seq<Item>, it: Item, i: nat) {
    i <= |t| && u == t[..i] + [it] + t[i..]
  }

  /** The place of a position has the smaller positions before it and no smaller one after. */
  lemma {:induction false} PlaceSplits(items: seq<Item>, pos: Text)
    requires Sorted(items)
    ensures Place(items, pos) <= |items|
    ensures forall j :: 0 <= j < Place(items, pos) ==> Less(items[j].pos, pos)
    ensures forall j :: Place(items, pos) <= j < |items| ==> !Less(items[j].pos, pos)
  {
    if items != [] {
      if Less(items[0].pos, pos) {
        PlaceSplits(items[1..], pos);
      } else {
        forall j | 0 < j < |items| ensures !Less(items[j].pos, pos) {
          if Less(items[j].pos, pos) { LessTransitive(items[0].pos, items[j].pos, pos); }
        }
      }
    }
  }

  /** An insert fails exactly when the position is taken, and keeps the key order. */
  lemma InsertIff(items: seq<Item>, it: Item)
    requires Sorted(items)
    ensures Insert(items, it).Done? <==> forall j :: 0 <= j < |items| ==> items[j].pos != it.pos
    ensures Insert(items, it).Done? ==>
            Sorted(Insert(items, it).items) && InsertedAt(items, Insert(items, it).items, it, Place(items, it.pos))
  {
    var p := Place(items, it.pos);
    PlaceSplits(items, it.pos);
    LessIsTotal(it.pos, it.pos);
    forall j | p < j < |items| ensures items[j].pos != it.pos { assert Less(items[p].pos, items[j].pos); }
    if Insert(items, it).Done? {
      forall j | p <= j < |items| ensures Less(it.pos, items[j].pos) { LessIsTotal(items[j].pos, it.pos); }
      SortedAround(items, it, p);
    }
  }

  lemma SortedAround(items: seq<Item>, it: Item, p: nat)
    requires Sorted(items) && p <= |items|
    requires forall j :: 0 <= j < p ==> Less(items[j].pos, it.pos)
    requires forall j :: p <= j < |items| ==> Less(it.pos, items[j].pos)
    ensures Sorted(items[..p] + [it] + items[p..])
  {
  }

  lemma ValuesInsert(items: seq<Item>, it: Item, i: nat)
    requires i <= |items|
    ensures Values(items[..i] + [it] + items[i..]) == Values(items)[..i] + [it.value] + Values(items)[i..]
  {
  }

  /** An insert with generated position lands in slot i when its bounds are the neighbours. */
  lemma GeneratedInsert(items: seq<Item>, mode: Mode, value: string, i: nat, lower: Text, upper: Text)
    requires ValidItems(items) && i <= |items|
    requires lower == (if i == 0 then [] else items[i - 1].pos) && upper == PosAt(items, i)
    ensures var out := Insert(items, Item(Generate(mode, lower, upper), value));
            && out.Done? && ValidItems(out.items)
            && Values(out.items) == Values(items)[..i] + [value] + Values(items)[i..]
  {
    var it := Item(Generate(mode, lower, upper), value);
    GenerateIsBetween(mode, lower, upper);
    InsertBetween(items, it, i);
    ValuesInsert(items, it, i);
  }

  lemma {:induction false} DeleteAt(items: seq<Item>, i: nat)
    requires Sorted(items) && i < |items|
    ensures Delete(items, items[i].pos) == items[..i] + items[i + 1..]
  {
    if i > 0 {
      var rest := items[1..];
      LessIsTotal(items[0].pos, items[i].pos);
      assert rest[i - 1] == items[i];
      DeleteAt(rest, i - 1);
      assert Delete(items, items[i].pos) == [items[0]] + Delete(rest, items[i].pos);
      assert [items[0]] + (rest[..i - 1] + rest[i..]) == items[..i] + items[i + 1..];
    } else {
      DeleteNone(items[1..], items[0].pos);
      assert [] + items[1..] == items[..0] + items[1..];
    }
  }

  lemma {:induction false} DeleteNone(items: seq<Item>, pos: Text)
    requires forall j :: 0 <= j < |items| ==> Less(pos, items[j].pos)
    ensures Delete(items, pos) == items
  {
    if items != [] {
      LessIsTotal(pos, items[0].pos);
      DeleteNone(items[1..], pos);
    }
  }

  ghost predicate Refines(items: seq<Item>, mode: Mode, op: Op) {
    var out := Step(items, mode, op);
    && (out.Done? <==> Accepts(op))
    && (out.Done? ==> ValidItems(out.items) && Values(out.items) == Plain(Values(items), op))
  }

  lemma AddRefines(items: seq<Item>, mode: Mode, index: int, value: string)
    requires ValidItems(items)
    ensures Refines(items, mode, Add(index, value))
  {
    if index >= 0 {
      MaxPosIsLast(items);
      var i := if index < |items| then index else |items|;
      GeneratedInsert(items, mode, value, i, LowerBound(items, index), PosAt(items, index));
    }
  }

  lemma AppendRefines(items: seq<Item>, mode: Mode, value: string)
    requires ValidItems(items)
    ensures Refines(items, mode, Append(value))
  {
    MaxPosIsLast(items);
    GeneratedInsert(items, mode, value, |items|, MaxPos(items), []);
    var s := Values(items);
    assert s[..|items|] + [value] + s[|items|..] == s + [value];
  }

  lemma PrependRefines(items: seq<Item>, mode: Mode, value: string)
    requires ValidItems(items)
    ensures Refines(items, mode, Prepend(value))
  {
    MinPosIsFirst(items);
    GeneratedInsert(items, mode, value, 0, [], MinPos(items));
    var s := Values(items);
    assert s[..0] + [value] + s[0..] == [value] + s;
  }

  lemma RmvRefines(items: seq<Item>, mode: Mode, index: int)
    requires ValidItems(items)
    ensures Refines(items, mode, Rmv(index))
  {
    if 0 <= index < |items| {
      DeleteAt(items, index);
      DeleteKeepsOrder(items, index);
    }
  }

  /** Each statement acts on the rows as its operation acts on the plain list, whatever the
      generation mode, and keeps positions strictly sorted and canonical. Only negative indexes
      are refused; no insert ever collides. */
  lemma StepRefinesPlain(items: seq<Item>, mode: Mode, op: Op)
    requires ValidItems(items)
    ensures Step(items, mode, op).Done? <==> Accepts(op)
    ensures var out := Step(items, mode, op);
            out.Done? ==> ValidItems(out.items) && Values(out.items) == Plain(Values(items), op)
  {
    match op
    case Add(index, value) => AddRefines(items, mode, index, value);
    case Append(value) => AppendRefines(items, mode, value);
    case Prepend(value) => PrependRefines(items, mode, value);
    case Rmv(index) => RmvRefines(items, mode, index);
    case Clear =>
  }

  lemma DeleteKeepsOrder(items: seq<Item>, i: nat)
    requires ValidItems(items) && i < |items|
    ensures ValidItems(items[..i] + items[i + 1..])
    ensures Values(items[..i] + items[i + 1..]) == Values(items)[..i] + Values(items)[i + 1..]
  {
  }

  // ---- whole runs ---------------------------------------------------------------------

  /** A run of statements, each under some generation mode; refused ones change nothing. */
  function RunRows(ops: seq<(Mode, Op)>): seq<Item> {
    if ops == [] then []
    else
      var items, (mode, op) := RunRows(ops[..|ops| - 1]), ops[|ops| - 1];
      var out := Step(items, mode, op);
      if out.Done? then out.items else items
  }

  function RunPlain(ops: seq<(Mode, Op)>): seq<string> {
    if ops == [] then []
    else
      var s, op := RunPlain(ops[..|ops| - 1]), ops[|ops| - 1].1;
      if Accepts(op) then Plain(s, op) else s
  }

  /** Any sequence of statements keeps positions distinct, strictly sorted and canonical, and
      reading in position order equals the plain list. */
  lemma {:induction false} RunRefinesPlain(ops: seq<(Mode, Op)>)
    ensures ValidItems(RunRows(ops)) && Values(RunRows(ops)) == RunPlain(ops)
  {
    if ops != [] {
      RunRefinesPlain(ops[..|ops| - 1]);
      StepRefinesPlain(RunRows(ops[..|ops| - 1]), ops[|ops| - 1].0, ops[|ops| - 1].1);
    }
  }

  // ---- the table ----------------------------------------------------------------------

  /** `native_list`, with the generation mode in force. */
  class ListTable {
    var lists: map<string, seq<Item>>
    var mode: Mode

    function Items(id: string): seq<Item>
      reads this
    {
      if id in lists then lists[id] else []
    }

    ghost predicate Valid()
      reads this
    {
      forall id :: id in lists ==> ValidItems(lists[id])
    }

    constructor ()
      ensures Valid() && lists == map[] && mode == Regular
    {
      lists, mode := map[], Regular;
    }

    method SwitchListIdGeneration(m: Mode)
      modifies this`mode
      ensures mode == m
    {
      mode := m;
    }

    /** `insert into native_list`. */
    method Put(id: string, pos: Text, value: string) returns (ok: bool)
      modifies this`lists
      ensures var out := Insert(old(Items(id)), Item(pos, value));
              ok == out.Done? && lists == if ok then old(lists)[id := out.items] else old(lists)
    {
      match Insert(Items(id), Item(pos, value))
      case Error => ok := false;
      case Done(items) =>
        lists := lists[id := items];
        ok := true;
    }

    /** The row goes between the smaller and the larger positions; the key is violated exactly
        when the position is taken. */
    method InsertRow(id: string, pos: Text, value: string) returns (ok: bool)
      modifies this`lists
      ensures old(Sorted(Items(id))) ==>
                (ok <==> forall j :: 0 <= j < |old(Items(id))| ==> old(Items(id))[j].pos != pos)
      ensures ok && old(Sorted(Items(id))) ==>
                Sorted(Items(id)) && InsertedAt(old(Items(id)), Items(id), Item(pos, value), Place(old(Items(id)), pos))
      ensures forall x :: x != id ==> Items(x) == old(Items(x))
      ensures !ok ==> lists == old(lists)
      ensures var out := Insert(old(Items(id)), Item(pos, value));
              ok == out.Done? && lists == if ok then old(lists)[id := out.items] else old(lists)
    {
      if Sorted(Items(id)) { InsertIff(Items(id), Item(pos, value)); }
      ok := Put(id, pos, value);
    }

    method Add(id: string, index: int, value: string) returns (ok: bool)
      requires Valid()
      modifies this`lists
      ensures Valid() && (ok <==> index >= 0) && (!ok ==> lists == old(lists))
      ensures ok ==> Values(Items(id)) == Plain(old(Values(Items(id))), Op.Add(index, value))
      ensures ok ==> Step(old(Items(id)), mode, Op.Add(index, value)) == Done(Items(id))
      ensures forall x :: x != id ==> Items(x) == old(Items(x))
    {
      StepRefinesPlain(Items(id), mode, Op.Add(index, value));
      if index < 0 {
        return false;
      }
      var items := Items(id);
      var pos, _ := GenerateVirtualIndexBetween(Some(LowerBound(items, index)), Some(PosAt(items, index)), mode);
      ok := Put(id, pos, value);
    }

    method Append(id: string, value: string)
      requires Valid()
      modifies this`lists
      ensures Valid() && Values(Items(id)) == old(Values(Items(id))) + [value]
      ensures Step(old(Items(id)), mode, Op.Append(value)) == Done(Items(id))
      ensures forall x :: x != id ==> Items(x) == old(Items(x))
    {
      StepRefinesPlain(Items(id), mode, Op.Append(value));
      var items := Items(id);
      var last := if items == [] then None else Some(MaxPos(items));
      var pos, _ := GenerateVirtualIndexBetween(last, Some([]), mode);
      var ok := Put(id, pos, value);
    }

    method Prepend(id: string, value: string)
      requires Valid()
      modifies this`lists
      ensures Valid() && Values(Items(id)) == [value] + old(Values(Items(id)))
      ensures Step(old(Items(id)), mode, Op.Prepend(value)) == Done(Items(id))
      ensures forall x :: x != id ==> Items(x) == old(Items(x))
    {
      StepRefinesPlain(Items(id), mode, Op.Prepend(value));
      var items := Items(id);
      var first := if items == [] then None else Some(MinPos(items));
      var pos, _ := GenerateVirtualIndexBetween(Some([]), first, mode);
      var ok := Put(id, pos, value);
    }

    method Rmv(id: string, index: int) returns (ok: bool)
      requires Valid()
      modifies this`lists
      ensures Valid() && (ok <==> index >= 0) && (!ok ==> lists == old(lists))
      ensures ok ==> Values(Items(id)) == Plain(old(Values(Items(id))), Op.Rmv(index))
      ensures ok ==> Step(old(Items(id)), mode, Op.Rmv(index)) == Done(Items(id))
      ensures forall x :: x != id ==> Items(x) == old(Items(x))
    {
      StepRefinesPlain(Items(id), mode, Op.Rmv(index));
      if index < 0 {
        return false;
      }
      var items := Items(id);
      if index < |items| {
        lists := lists[id := Delete(items, items[index].pos)];
      }
      return true;
    }

    method Clear(id: string)
      requires Valid()
      modifies this`lists
      ensures Valid() && Items(id) == [] && forall x :: x != id ==> Items(x) == old(Items(x))
    {
      lists := lists - {id};
    }

    /** `array_agg(value)`; NULL over no rows scans as no values. */
    method Get(id: string) returns (values: seq<string>)
      requires Valid()
      ensures values == Values(Items(id)) && Sorted(Items(id))
    {
      values := Values(Items(id));
    }

    /** Past the end the empty string is returned; a negative offset is an error. */
    method GetAt(id: string, index: int) returns (value: Option<string>)
      requires Valid()
      ensures value.None? <==> index < 0
      ensures 0 <= index ==> value == Some(if index < |Items(id)| then Values(Items(id))[index] else "")
    {
      if index < 0 {
        return None;
      }
      var items := Items(id);
      value := Some(if index < |items| then items[index].value else "");
    }

    /** The next of the populated rows. */
    method InsertNext(id: string, i: nat, p: Text, value: string) returns (pos: Text)
      requires Valid() && mode == Appends && Populated(Items(id), i, value) && p == NthAppend(Appends, i)
      modifies this`lists
      ensures Valid() && Populated(Items(id), i + 1, value) && pos == NthAppend(Appends, i + 1)
      ensures forall x :: x != id ==> Items(x) == old(Items(x))
    {
      PopulateStep(Items(id), i, value);
      var end;
      pos, end := GenerateVirtualIndexBetween(Some(p), Some([]), mode);
      var ok := Put(id, pos, value);
    }

    /** `populateLists` for one empty list: the positions of successive appends in appends
        mode, whatever mode is in force otherwise. */
    method Populate(id: string, size: nat, value: string)
      requires Valid() && Items(id) == []
      modifies this
      ensures Valid() && mode == Regular && |Items(id)| == size
      ensures forall i :: 0 <= i < size ==>
                Items(id)[i] == Item(Repeat(126, i / 93) + [34 + i % 93], value)
      ensures forall x :: x != id ==> Items(x) == old(Items(x))
    {
      SwitchListIdGeneration(Appends);
      var p: Text := [];
      for i := 0 to size
        invariant Valid() && mode == Appends && Populated(Items(id), i, value) && p == NthAppend(Appends, i)
        invariant forall x :: x != id ==> Items(x) == old(Items(x))
      {
        p := InsertNext(id, i, p, value);
      }
      PopulatedPositions(Items(id), size, value);
      SwitchListIdGeneration(Regular);
    }
  }

  /** The rows of the first n appends in appends mode, all with one value. */
  ghost predicate Populated(items: seq<Item>, n: nat, value: string) {
    ValidItems(items) && |items| == n && forall j :: 0 <= j < n ==> items[j] == Item(NthAppend(Appends, j + 1), value)
  }

  lemma PopulateStep(items: seq<Item>, n: nat, value: string)
    requires Populated(items, n, value)
    ensures var it := Item(Generate(Appends, NthAppend(Appends, n), []), value);
            Insert(items, it) == Done(items + [it]) && Populated(items + [it], n + 1, value)
  {
    MaxPosIsLast(items);
    assert MaxPos(items) == NthAppend(Appends, n);
    AppendedRow(items, Appends, value);
  }

  lemma PopulatedPositions(items: seq<Item>, n: nat, value: string)
    requires Populated(items, n, value)
    ensures forall i :: 0 <= i < n ==> items[i] == Item(Repeat(126, i / 93) + [34 + i % 93], value)
  {
    forall i | 0 <= i < n ensures items[i] == Item(Repeat(126, i / 93) + [34 + i % 93], value) {
      NthAppendInAppendsMode(i + 1);
    }
  }

  lemma AppendedRow(items: seq<Item>, mode: Mode, value: string)
    requires ValidItems(items)
    ensures var it := Item(Generate(mode, MaxPos(items), []), value);
            Insert(items, it) == Done(items + [it]) && ValidItems(items + [it])
  {
    var it := Item(Generate(mode, MaxPos(items), []), value);
    MaxPosIsLast(items);
    GenerateIsBetween(mode, MaxPos(items), []);
    InsertBetween(items, it, |items|);
    assert items[..|items|] + [it] + items[|items|..] == items + [it];
  }
}
