/** The slots of an aggregate tuple: ConstructAggTuple, the generated UpdateAggTuple and the pairing of
    evaluators with slots in be/src/exec/aggregation-node.cc, CodegenMinMax in be/src/codegen/llvm-codegen.cc,
    and the interpreted updates of be/src/exprs/agg-fn-evaluator.cc and be/src/exprs/aggregate-functions.cc. */
module AggSlots {
  import opened Aggregation

  datatype Op = CountStar | Count | Sum | Min | Max

  datatype SlotType = Boolean | Integer(bits: nat) | Other

  datatype SlotDesc = SlotDesc(materialized: bool, nullable: bool, slotType: SlotType)

  datatype Evaluator = Evaluator(op: Op, input: Row -> Field)

  const TWO_63 := 0x8000_0000_0000_0000
  const TWO_64 := 0x1_0000_0000_0000_0000

  /** A 64-bit addition. */
  function Wrap(x: int): (r: int)
    ensures -TWO_63 <= r < TWO_63
  {
    (x + TWO_63) % TWO_64 - TWO_63
  }

  function Half(bits: nat): int {
    match bits
    case 8 => 0x80
    case 16 => 0x8000
    case 32 => 0x8000_0000
    case _ => 0x8000_0000_0000_0000
  }

  function Highest(t: SlotType): int {
    match t
    case Boolean => 1
    case Integer(bits) => Half(bits) - 1
    case Other => 0
  }

  function Lowest(t: SlotType): int {
    match t
    case Boolean => 0
    case Integer(bits) => -Half(bits)
    case Other => 0
  }

  // ----- the generated code -----

  datatype MinMaxFn = And | Or | Less | Greater

  function CodegenMinMax(t: SlotType, min: bool): MinMaxFn {
    match t
    case Boolean => if min then And else Or
    case _ => if min then Less else Greater
  }

  /** What the function returns for v1 and v2. */
  function Selected(f: MinMaxFn, v1: int, v2: int): int {
    match f
    case And => if v1 == 1 && v2 == 1 then 1 else 0
    case Or => if v1 == 1 || v2 == 1 then 1 else 0
    case Less => if v1 < v2 then v1 else v2
    case Greater => if v1 > v2 then v1 else v2
  }

  /** One piece of the generated UpdateAggTuple. */
  datatype Update =
    | IncrementSlot(slot: nat)
    | UpdateSlot(slot: nat, clearNull: bool, op: Op, minMax: MinMaxFn, input: Row -> Field)

  /** What the piece does to its slot. */
  function Updated(u: Update, s: Slot, row: Row): Slot {
    match u
    case IncrementSlot(_) => s.(value := Wrap(s.value + 1))
    case UpdateSlot(_, clearNull, op, minMax, input) =>
      match input(row)
      case Null => s
      case Value(v) =>
        Slot(s.isNull && !clearNull,
             match op
             case Sum => Wrap(s.value + v)
             case Min => Selected(minMax, s.value, v)
             case Max => Selected(minMax, s.value, v)
             case _ => Wrap(s.value + 1))
  }

  /** The piece for an evaluator and its slot. */
  function CodegenUpdate(e: Evaluator, desc: SlotDesc, slot: nat): Update {
    if e.op.CountStar? then IncrementSlot(slot)
    else UpdateSlot(slot, desc.nullable, e.op, CodegenMinMax(desc.slotType, e.op.Min?), e.input)
  }

  // ----- the interpreted code -----

  /** The value that the slot holds. */
  function Observed(desc: SlotDesc, s: Slot): Field {
    if desc.nullable && s.isNull then Null else Value(s.value)
  }

  /** The functions of aggregate-functions.cc. */
  function Applied(op: Op, src: Field, dst: Field): Field {
    match op
    case CountStar => Value(Wrap((if dst.Value? then dst.bits else 0) + 1))
    case Count => if src.Null? then dst else Value(Wrap((if dst.Value? then dst.bits else 0) + 1))
    case Sum => if src.Null? then dst else Value(Wrap((if dst.Value? then dst.bits else 0) + src.bits))
    case Min => if src.Null? then dst else if dst.Null? || src.bits < dst.bits then src else dst
    case Max => if src.Null? then dst else if dst.Null? || src.bits > dst.bits then src else dst
  }

  /** Writes a value to a slot; NULL leaves the bytes. */
  function SetOutputSlot(desc: SlotDesc, s: Slot, f: Field): Slot {
    match f
    case Null => s.(isNull := desc.nullable)
    case Value(v) => Slot(false, v)
  }

  function Interpreted(e: Evaluator, desc: SlotDesc, s: Slot, row: Row): Slot {
    SetOutputSlot(desc, s, Applied(e.op, e.input(row), Observed(desc, s)))
  }

  // ----- both start with -----

  /** Init of the evaluator on a cleared slot, then the value that makes a test for NULL unnecessary. */
  function InitSlot(e: Evaluator, desc: SlotDesc): Slot {
    var s := SetOutputSlot(desc, Slot(false, 0), if e.op.CountStar? || e.op.Count? then Value(0) else Null);
    match e.op
    case Min => if desc.slotType.Other? then s else s.(value := Highest(desc.slotType))
    case Max => if desc.slotType.Other? then s else s.(value := Lowest(desc.slotType))
    case _ => s
  }

  function Generated(e: Evaluator, desc: SlotDesc, rows: seq<Row>): Slot {
    if rows == [] then InitSlot(e, desc)
    else Updated(CodegenUpdate(e, desc, 0), Generated(e, desc, rows[..|rows| - 1]), rows[|rows| - 1])
  }

  function InterpretedAll(e: Evaluator, desc: SlotDesc, rows: seq<Row>): Slot {
    if rows == [] then InitSlot(e, desc)
    else Interpreted(e, desc, InterpretedAll(e, desc, rows[..|rows| - 1]), rows[|rows| - 1])
  }

  // ----- the reference -----

  /** The values of the input that are not NULL. */
  function Inputs(e: Evaluator, rows: seq<Row>): seq<int> {
    if rows == [] then []
    else
      var before, f := Inputs(e, rows[..|rows| - 1]), e.input(rows[|rows| - 1]);
      if f.Value? then before + [f.bits] else before
  }

  function Total(xs: seq<int>): int {
    if xs == [] then 0 else Total(xs[..|xs| - 1]) + xs[|xs| - 1]
  }

  predicate IsLeast(m: int, xs: seq<int>) {
    m in xs && forall i :: 0 <= i < |xs| ==> m <= xs[i]
  }

  predicate IsGreatest(m: int, xs: seq<int>) {
    m in xs && forall i :: 0 <= i < |xs| ==> xs[i] <= m
  }

  /** The aggregate of the rows: COUNT counts what is not NULL, the others are NULL if all input is. */
  predicate IsAggregate(e: Evaluator, desc: SlotDesc, rows: seq<Row>, f: Field) {
    var xs := Inputs(e, rows);
    match e.op
    case CountStar => f == Value(Wrap(|rows|))
    case Count => f == Value(Wrap(|xs|))
    case Sum => if xs == [] && desc.nullable then f == Null else f == Value(Wrap(Total(xs)))
    case Min =>
      if xs == [] then f == if desc.nullable then Null else Value(Highest(desc.slotType))
      else f.Value? && IsLeast(f.bits, xs)
    case Max =>
      if xs == [] then f == if desc.nullable then Null else Value(Lowest(desc.slotType))
      else f.Value? && IsGreatest(f.bits, xs)
  }

  /** Counts and sums are BIGINTs; inputs of MIN and MAX have the type of the slot. */
  ghost predicate Typed(e: Evaluator, desc: SlotDesc) {
    && (e.op.CountStar? || e.op.Count? || e.op.Sum? ==> desc.slotType == Integer(64))
    && (e.op.Min? || e.op.Max? ==>
          desc.slotType.Boolean? || (desc.slotType.Integer? && desc.slotType.bits in {8, 16, 32, 64}))
    && forall row :: e.input(row).Value? ==> Lowest(desc.slotType) <= e.input(row).bits <= Highest(desc.slotType)
  }

  lemma WrapAdd(x: int, y: int)
    ensures Wrap(Wrap(x) + y) == Wrap(x + y)
  {
  }

  /** What a slot holds after n rows with the inputs xs. */
  predicate Holds(e: Evaluator, desc: SlotDesc, n: nat, xs: seq<int>, s: Slot) {
    && s.isNull == (desc.nullable && xs == [] && !e.op.CountStar? && !e.op.Count?)
    && match e.op
       case CountStar => s.value == Wrap(n)
       case Count => s.value == Wrap(|xs|)
       case Sum => s.value == Wrap(Total(xs))
       case Min => if xs == [] then s.value == Highest(desc.slotType) else IsLeast(s.value, xs)
       case Max => if xs == [] then s.value == Lowest(desc.slotType) else IsGreatest(s.value, xs)
  }

  lemma InitHolds(e: Evaluator, desc: SlotDesc)
    requires Typed(e, desc)
    ensures Holds(e, desc, 0, [], InitSlot(e, desc))
  {
  }

  lemma TotalNext(xs: seq<int>, x: int)
    ensures Total(xs + [x]) == Total(xs) + x
  {
    assert (xs + [x])[..|xs|] == xs;
  }

  lemma LeastNext(m: int, xs: seq<int>, x: int)
    requires IsLeast(m, xs)
    ensures IsLeast(if m < x then m else x, xs + [x])
  {
    assert (xs + [x])[|xs|] == x;
    var i :| 0 <= i < |xs| && xs[i] == m;
    assert (xs + [x])[i] == m;
  }

  lemma GreatestNext(m: int, xs: seq<int>, x: int)
    requires IsGreatest(m, xs)
    ensures IsGreatest(if m > x then m else x, xs + [x])
  {
    assert (xs + [x])[|xs|] == x;
    var i :| 0 <= i < |xs| && xs[i] == m;
    assert (xs + [x])[i] == m;
  }

  /** value' is value brought up to date with the input x. */
  predicate Combined(op: Op, value: int, x: int, value': int) {
    match op
    case Sum => value' == Wrap(value + x)
    case Min => value' == if value < x then value else x
    case Max => value' == if value > x then value else x
    case _ => value' == Wrap(value + 1)
  }

  /** One more input, for a slot whose value was updated as the operation says. */
  lemma NextHolds(e: Evaluator, desc: SlotDesc, n: nat, xs: seq<int>, x: int, s: Slot, t: Slot)
    requires Holds(e, desc, n, xs, s) && Lowest(desc.slotType) <= x <= Highest(desc.slotType)
    requires !t.isNull && Combined(e.op, s.value, x, t.value)
    ensures Holds(e, desc, n + 1, xs + [x], t)
  {
    TotalNext(xs, x);
    WrapAdd(Total(xs), x);
    WrapAdd(n, 1);
    WrapAdd(|xs|, 1);
    if xs != [] && e.op.Min? {
      LeastNext(s.value, xs, x);
    } else if xs != [] && e.op.Max? {
      GreatestNext(s.value, xs, x);
    } else {
      assert (xs + [x])[|xs|] == x;
    }
  }

  lemma InRange(e: Evaluator, desc: SlotDesc, row: Row)
    requires Typed(e, desc) && e.input(row).Value?
    ensures Lowest(desc.slotType) <= e.input(row).bits <= Highest(desc.slotType)
  {
  }

  lemma SelectedIs(t: SlotType, min: bool, v1: int, v2: int)
    requires Lowest(t) <= v1 <= Highest(t) && Lowest(t) <= v2 <= Highest(t)
    ensures Selected(CodegenMinMax(t, min), v1, v2) ==
            if min then (if v1 < v2 then v1 else v2) else (if v1 > v2 then v1 else v2)
  {
  }

  /** All inputs are in the range of the slot's type. */
  lemma {:induction false} InputsInRange(e: Evaluator, desc: SlotDesc, rows: seq<Row>)
    requires Typed(e, desc)
    ensures forall i :: 0 <= i < |Inputs(e, rows)| ==>
              Lowest(desc.slotType) <= Inputs(e, rows)[i] <= Highest(desc.slotType)
  {
    if rows == [] {
    } else {
      InputsInRange(e, desc, rows[..|rows| - 1]);
    }
  }

  lemma HeldInRange(e: Evaluator, desc: SlotDesc, n: nat, xs: seq<int>, s: Slot)
    requires Typed(e, desc) && Holds(e, desc, n, xs, s) && (e.op.Min? || e.op.Max?)
    requires forall i :: 0 <= i < |xs| ==> Lowest(desc.slotType) <= xs[i] <= Highest(desc.slotType)
    ensures Lowest(desc.slotType) <= s.value <= Highest(desc.slotType)
  {
  }

  /** A generated update with an input. */
  lemma UpdateCombines(e: Evaluator, desc: SlotDesc, row: Row, s: Slot, slot: nat)
    requires e.input(row).Value? && !e.op.CountStar? && (s.isNull ==> desc.nullable)
    requires e.op.Min? || e.op.Max? ==> Lowest(desc.slotType) <= s.value <= Highest(desc.slotType)
    requires Lowest(desc.slotType) <= e.input(row).bits <= Highest(desc.slotType)
    ensures var t := Updated(CodegenUpdate(e, desc, slot), s, row);
            !t.isNull && Combined(e.op, s.value, e.input(row).bits, t.value)
  {
    if e.op.Min? || e.op.Max? {
      SelectedIs(desc.slotType, e.op.Min?, s.value, e.input(row).bits);
    }
  }

  /** An interpreted one. */
  lemma InterpretedCombines(e: Evaluator, desc: SlotDesc, n: nat, xs: seq<int>, row: Row, s: Slot)
    requires Typed(e, desc) && Holds(e, desc, n, xs, s) && e.input(row).Value? && !e.op.CountStar?
    requires Lowest(desc.slotType) <= e.input(row).bits <= Highest(desc.slotType)
    ensures var t := Interpreted(e, desc, s, row);
            !t.isNull && Combined(e.op, s.value, e.input(row).bits, t.value)
  {
  }

  lemma UpdateHolds(e: Evaluator, desc: SlotDesc, n: nat, xs: seq<int>, row: Row, s: Slot, slot: nat)
    requires Typed(e, desc) && Holds(e, desc, n, xs, s)
    requires forall i :: 0 <= i < |xs| ==> Lowest(desc.slotType) <= xs[i] <= Highest(desc.slotType)
    ensures Holds(e, desc, n + 1, if e.input(row).Value? then xs + [e.input(row).bits] else xs,
                  Updated(CodegenUpdate(e, desc, slot), s, row))
  {
    if e.op.CountStar? {
      WrapAdd(n, 1);
    } else if e.input(row).Value? {
      InRange(e, desc, row);
      if e.op.Min? || e.op.Max? {
        HeldInRange(e, desc, n, xs, s);
      }
      UpdateCombines(e, desc, row, s, slot);
      NextHolds(e, desc, n, xs, e.input(row).bits, s, Updated(CodegenUpdate(e, desc, slot), s, row));
    }
  }

  lemma InterpretedHolds(e: Evaluator, desc: SlotDesc, n: nat, xs: seq<int>, row: Row, s: Slot)
    requires Typed(e, desc) && Holds(e, desc, n, xs, s)
    ensures Holds(e, desc, n + 1, if e.input(row).Value? then xs + [e.input(row).bits] else xs,
                  Interpreted(e, desc, s, row))
  {
    if e.op.CountStar? {
      WrapAdd(n, 1);
    } else if e.input(row).Value? {
      InRange(e, desc, row);
      InterpretedCombines(e, desc, n, xs, row, s);
      NextHolds(e, desc, n, xs, e.input(row).bits, s, Interpreted(e, desc, s, row));
    }
  }

  /** The generated updates of a slot compute the aggregate. */
  lemma {:induction false} GeneratedAggregates(e: Evaluator, desc: SlotDesc, rows: seq<Row>)
    requires Typed(e, desc)
    ensures Holds(e, desc, |rows|, Inputs(e, rows), Generated(e, desc, rows))
    ensures IsAggregate(e, desc, rows, Observed(desc, Generated(e, desc, rows)))
  {
    if rows == [] {
      InitHolds(e, desc);
    } else {
      var before := rows[..|rows| - 1];
      GeneratedAggregates(e, desc, before);
      InputsInRange(e, desc, before);
      UpdateHolds(e, desc, |before|, Inputs(e, before), rows[|rows| - 1], Generated(e, desc, before), 0);
    }
  }

  /** So do the interpreted ones, and the two agree on every input. */
  lemma {:induction false} InterpretedAggregates(e: Evaluator, desc: SlotDesc, rows: seq<Row>)
    requires Typed(e, desc)
    ensures Holds(e, desc, |rows|, Inputs(e, rows), InterpretedAll(e, desc, rows))
    ensures IsAggregate(e, desc, rows, Observed(desc, InterpretedAll(e, desc, rows)))
  {
    if rows == [] {
      InitHolds(e, desc);
    } else {
      var before := rows[..|rows| - 1];
      InterpretedAggregates(e, desc, before);
      InterpretedHolds(e, desc, |before|, Inputs(e, before), rows[|rows| - 1], InterpretedAll(e, desc, before));
    }
  }

  /** A slot's contents are determined by what they are the aggregate of. */
  lemma HoldsUnique(e: Evaluator, desc: SlotDesc, n: nat, xs: seq<int>, s: Slot, t: Slot)
    requires Holds(e, desc, n, xs, s) && Holds(e, desc, n, xs, t)
    ensures s == t
  {
  }

  lemma CodegenAgrees(e: Evaluator, desc: SlotDesc, rows: seq<Row>)
    requires Typed(e, desc)
    ensures Generated(e, desc, rows) == InterpretedAll(e, desc, rows)
  {
    GeneratedAggregates(e, desc, rows);
    InterpretedAggregates(e, desc, rows);
    HoldsUnique(e, desc, |rows|, Inputs(e, rows), Generated(e, desc, rows), InterpretedAll(e, desc, rows));
  }
}
