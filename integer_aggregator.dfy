/** `IntegerAggregator`: a group-by fold of integer fields into per-group count, sum, maximum
    and minimum, all Java `int`s. */
module IntegerAggregators {
  import opened Wrappers
  import opened JavaInts
  import opened DbTypes
  import opened Aggregation

  /** The four running totals of a `ResInfo`. */
  datatype Totals = Totals(count: Int32, sum: Int32, max: Int32, min: Int32)

  /** A new `ResInfo`: nothing counted, the maximum at `Integer.MIN_VALUE` and the minimum at
      `Integer.MAX_VALUE`. */
  const Fresh: Totals := Totals(0, 0, MinInt, MaxInt)

  /** `ResInfo.add`: one more value; the count and the sum wrap around like Java `int`s. */
  function Added(t: Totals, v: Int32): Totals {
    Totals(Wrap32(t.count + 1), Wrap32(t.sum + v), if v > t.max then v else t.max,
           if v < t.min then v else t.min)
  }

  /** `ResInfo.getResult`: the aggregate the operator asks for. `AVG` divides with Java's
      truncating `/`, which raises on a zero count (and wraps `MIN_VALUE / -1`); the
      operators the switch does not list give 0. */
  function ResultOf(t: Totals, what: Op): Result<Int32, DbError> {
    match what
    case Count => Ok(t.count)
    case Sum => Ok(t.sum)
    case Avg => if t.count == 0 then Err(Arithmetic) else Ok(Wrap32(JavaDiv(t.sum, t.count)))
    case Min => Ok(t.min)
    case Max => Ok(t.max)
    case _ => Ok(0)
  }

  /** A tuple the aggregator can merge: its group and aggregate fields exist and the aggregate
      field is an integer (the cast to `IntField` succeeds). */
  predicate Mergeable(tup: Tuple, gbfield: int, afield: int) {
    Readable(tup, gbfield, afield) && tup.fields[afield].IntField?
  }

  /** The value a mergeable tuple contributes. */
  function ValueOf(tup: Tuple, afield: int): Int32 {
    if 0 <= afield < |tup.fields| && tup.fields[afield].IntField? then tup.fields[afield].intValue else 0
  }

  /** `mergeTupleIntoGroup` on the totals: the value is added to group `k`, a new group
      starting from fresh totals. */
  function AddTo(m: map<Option<Field>, Totals>, k: Option<Field>, v: Int32): map<Option<Field>, Totals> {
    m[k := Added(if k in m then m[k] else Fresh, v)]
  }

  /** The groups after merging `ts` in order into an empty map. */
  function Merged(ts: seq<Tuple>, gbfield: int, afield: int): map<Option<Field>, Totals>
    requires forall t | t in ts :: Mergeable(t, gbfield, afield)
  {
    if ts == [] then map[]
    else
      var last := ts[|ts| - 1];
      assert last in ts && Mergeable(last, gbfield, afield);
      AddTo(Merged(ts[..|ts| - 1], gbfield, afield), KeyOf(last, gbfield), ValueOf(last, afield))
  }

  /** The aggregate values of a sequence of tuples, in order. */
  function Values(g: seq<Tuple>, afield: int): (vs: seq<int>)
    ensures |vs| == |g|
  {
    if g == [] then [] else Values(g[..|g| - 1], afield) + [ValueOf(g[|g| - 1], afield)]
  }

  /** The mathematical sum of a sequence of integers. */
  function SumOf(s: seq<int>): int {
    if s == [] then 0 else SumOf(s[..|s| - 1]) + s[|s| - 1]
  }

  /** `t` holds the totals of the values `vs`: their count and sum as Java `int`s, and a
      maximum and a minimum that some value reaches and no value passes. */
  ghost predicate Summarizes(t: Totals, vs: seq<int>) {
    t.count == Wrap32(|vs|) && t.sum == Wrap32(SumOf(vs)) &&
    t.max in vs && t.min in vs && forall x | x in vs :: t.min <= x <= t.max
  }

  /** Adding a value to the totals of the values merged so far (fresh totals for none) gives
      the totals of those values followed by it. */
  lemma AddedStep(t: Totals, vs: seq<int>, v: Int32)
    requires if vs == [] then t == Fresh else Summarizes(t, vs)
    ensures Summarizes(Added(t, v), vs + [v])
  {
    var ws := vs + [v];
    assert ws[..|ws| - 1] == vs;
    Wrap32Add(|vs|, 1);
    Wrap32Add(SumOf(vs), v);
  }

  /** After any sequence of merges, the groups are exactly the keys the merged tuples carry. */
  lemma {:induction false} MergedGroups(ts: seq<Tuple>, gbfield: int, afield: int, k: Option<Field>)
    requires forall t | t in ts :: Mergeable(t, gbfield, afield)
    ensures k in Merged(ts, gbfield, afield) <==> InGroup(ts, gbfield, k) != []
  {
    if ts != [] {
      var front, last := ts[..|ts| - 1], ts[|ts| - 1];
      assert forall t | t in front :: t in ts;
      assert last in ts && Mergeable(last, gbfield, afield);
      MergedGroups(front, gbfield, afield, k);
    }
  }

  /** After any sequence of merges, the totals of each group are the count, sum (both as Java
      `int`s), maximum and minimum of the values merged under its key. */
  lemma {:induction false} MergedTotals(ts: seq<Tuple>, gbfield: int, afield: int, k: Option<Field>)
    requires forall t | t in ts :: Mergeable(t, gbfield, afield)
    requires k in Merged(ts, gbfield, afield)
    ensures Summarizes(Merged(ts, gbfield, afield)[k], Values(InGroup(ts, gbfield, k), afield))
    decreases |ts|, 1
  {
    var front, last := ts[..|ts| - 1], ts[|ts| - 1];
    assert forall t | t in front :: t in ts;
    assert last in ts && Mergeable(last, gbfield, afield);
    if KeyOf(last, gbfield) == k {
      MergedTotalsLast(ts, gbfield, afield);
    } else {
      assert InGroup(ts, gbfield, k) == InGroup(front, gbfield, k);
      MergedTotals(front, gbfield, afield, k);
    }
  }

  /** The group of the last merged tuple: its earlier totals (fresh ones for a new group)
      with the tuple's value added. */
  lemma {:induction false} MergedTotalsLast(ts: seq<Tuple>, gbfield: int, afield: int)
    requires ts != [] && forall t | t in ts :: Mergeable(t, gbfield, afield)
    ensures Mergeable(ts[|ts| - 1], gbfield, afield) && var k := KeyOf(ts[|ts| - 1], gbfield);
      k in Merged(ts, gbfield, afield) &&
      Summarizes(Merged(ts, gbfield, afield)[k], Values(InGroup(ts, gbfield, k), afield))
    decreases |ts|, 0
  {
    var front, last := ts[..|ts| - 1], ts[|ts| - 1];
    assert forall t | t in front :: t in ts;
    assert last in ts && Mergeable(last, gbfield, afield);
    var m, k := Merged(front, gbfield, afield), KeyOf(last, gbfield);
    GroupGrows(ts, gbfield, afield);
    MergedGroups(front, gbfield, afield, k);
    if k in m {
      MergedTotals(front, gbfield, afield, k);
    }
    AddedStep(if k in m then m[k] else Fresh, Values(InGroup(front, gbfield, k), afield), ValueOf(last, afield));
  }

  /** The last merged tuple's value ends the values of its group. */
  lemma GroupGrows(ts: seq<Tuple>, gbfield: int, afield: int)
    requires ts != [] && forall t | t in ts :: gbfield == NoGrouping || 0 <= gbfield < |t.fields|
    ensures var front, last := ts[..|ts| - 1], ts[|ts| - 1];
      (forall t | t in front :: gbfield == NoGrouping || 0 <= gbfield < |t.fields|) &&
      Values(InGroup(ts, gbfield, KeyOf(last, gbfield)), afield) ==
      Values(InGroup(front, gbfield, KeyOf(last, gbfield)), afield) + [ValueOf(last, afield)]
  {
    var front, last := ts[..|ts| - 1], ts[|ts| - 1];
    assert forall t | t in front :: t in ts;
    assert last in ts;
    var g := InGroup(front, gbfield, KeyOf(last, gbfield));
    assert InGroup(ts, gbfield, KeyOf(last, gbfield)) == g + [last];
    assert (g + [last])[..|g|] == g;
  }

  /** Merging one more tuple updates its group and leaves the others. */
  lemma MergedSnoc(ts: seq<Tuple>, tup: Tuple, gbfield: int, afield: int)
    requires forall t | t in ts :: Mergeable(t, gbfield, afield)
    requires Mergeable(tup, gbfield, afield)
    ensures forall t | t in ts + [tup] :: Mergeable(t, gbfield, afield)
    ensures Merged(ts + [tup], gbfield, afield) == AddTo(Merged(ts, gbfield, afield), KeyOf(tup, gbfield), ValueOf(tup, afield))
  {
    assert (ts + [tup])[..|ts|] == ts;
  }

  /** Every group of a merge carries the shape of key the grouping asks for: the null key
      without grouping, a field with it. */
  lemma {:induction false} MergedKeys(ts: seq<Tuple>, gbfield: int, afield: int)
    requires forall t | t in ts :: Mergeable(t, gbfield, afield)
    ensures forall k | k in Merged(ts, gbfield, afield) :: k.None? <==> gbfield == NoGrouping
  {
    if ts != [] {
      assert forall t | t in ts[..|ts| - 1] :: t in ts;
      MergedKeys(ts[..|ts| - 1], gbfield, afield);
    }
  }

  /** `getResult` on a group of `n` values, `0 < n <= MAX_VALUE`, whose sum fits an `int`: the
      count is `n`, the sum is the values' sum, the average their truncated mean, and the
      minimum and maximum are bounds that some value reaches. */
  lemma AggregateOfGroup(t: Totals, vs: seq<int>)
    requires 0 < |vs| <= MaxInt && MinInt <= SumOf(vs) <= MaxInt && Summarizes(t, vs)
    ensures ResultOf(t, Count) == Ok(|vs|)
    ensures ResultOf(t, Sum) == Ok(SumOf(vs))
    ensures ResultOf(t, Avg) == Ok(JavaDiv(SumOf(vs), |vs|))
    ensures ResultOf(t, Min).value in vs && ResultOf(t, Max).value in vs
    ensures forall x | x in vs :: ResultOf(t, Min).value <= x <= ResultOf(t, Max).value
    ensures ResultOf(t, SumCount) == Ok(0) && ResultOf(t, ScAvg) == Ok(0)
  {
    MeanInRange(SumOf(vs), |vs|);
  }

  /** The truncated mean of an `int` sum over a positive count is an `int`. */
  lemma MeanInRange(s: int, n: int)
    requires MinInt <= s <= MaxInt && n >= 1
    ensures MinInt <= JavaDiv(s, n) <= MaxInt
  {
    DivShrinks(Abs(s), n);
  }

  /** Dividing a natural number by a positive one does not make it larger. */
  lemma DivShrinks(a: nat, n: int)
    requires n >= 1
    ensures a / n <= a
  {
    var q := a / n;
    MulAtLeast(n, q);
  }

  /** A positive factor does not make a natural number smaller. */
  lemma {:induction false} MulAtLeast(n: int, q: nat)
    requires n >= 1
    ensures n * q >= q
  {
    if q > 0 {
      MulAtLeast(n, q - 1);
      assert n * q == n * (q - 1) + n;
    }
  }

  /** `ResInfo`: the mutable running totals of one group. */
  class ResInfo {
    /** The group this `ResInfo` belongs to. */
    ghost const key: Option<Field>
    var count: Int32
    var sum: Int32
    var max: Int32
    var min: Int32

    function Value(): Totals
      reads this
    {
      Totals(count, sum, max, min)
    }

    constructor (ghost key: Option<Field>)
      ensures this.key == key && Value() == Fresh
    {
      this.key := key;
      count, sum, max, min := 0, 0, MinInt, MaxInt;
    }

    /** `add`: counts the value, adds it to the sum (both wrap around) and widens the
        maximum and minimum to it. */
    method Add(v: Int32)
      modifies this
      ensures Value() == Added(old(Value()), v)
      ensures count == Wrap32(old(count) + 1) && sum == Wrap32(old(sum) + v)
      ensures max >= old(max) && max >= v && (max == v || max == old(max))
      ensures min <= old(min) && min <= v && (min == v || min == old(min))
    {
      count := Wrap32(count + 1);
      sum := Wrap32(sum + v);
      max := if max >= v then max else v;
      min := if min <= v then min else v;
    }
  }

  /** The current totals behind each `ResInfo` of a map. */
  ghost function TotalsOf(groups: map<Option<Field>, ResInfo>): map<Option<Field>, Totals>
    reads groups.Values
  {
    map k | k in groups :: groups[k].Value()
  }

  class IntegerAggregator {
    const gbfield: int
    const gbfieldtype: FieldType
    const afield: int
    const what: Op
    var tupleDesc: Option<TupleDesc>
    var groups: map<Option<Field>, ResInfo>
    /** The tuples merged so far, in order. */
    ghost var merged: seq<Tuple>

    /** The totals of every group. */
    ghost function Snapshot(): map<Option<Field>, Totals>
      reads this, groups.Values
    {
      TotalsOf(groups)
    }

    /** Every group has its own `ResInfo`, the groups are those of the tuples merged so far,
        and the schema exists once a tuple was merged. */
    ghost predicate Valid()
      reads this, groups.Values
    {
      Keyed() &&
      (forall t | t in merged :: Mergeable(t, gbfield, afield)) &&
      Snapshot() == Merged(merged, gbfield, afield) &&
      (merged != [] ==> tupleDesc.Some?) && (groups != map[] ==> tupleDesc.Some?)
    }

    constructor (gbfield: int, gbfieldtype: FieldType, afield: int, what: Op)
      ensures this.gbfield == gbfield && this.gbfieldtype == gbfieldtype
      ensures this.afield == afield && this.what == what
      ensures Valid() && merged == [] && groups == map[] && tupleDesc == None
    {
      this.gbfield := gbfield;
      this.gbfieldtype := gbfieldtype;
      this.afield := afield;
      this.what := what;
      tupleDesc := None;
      groups := map[];
      merged := [];
    }

    /** Every group's `ResInfo` belongs to that group, so no two groups share one. */
    ghost predicate Keyed()
      reads this, groups.Values
    {
      forall k | k in groups :: groups[k].key == k
    }

    /** Lines 88-95 of `mergeTupleIntoGroup`: the value is added to the `ResInfo` of group
        `k`, a new one if the group has none yet. No other group changes. */
    method AddToGroup(k: Option<Field>, v: Int32, ghost m: map<Option<Field>, Totals>)
      requires Keyed() && m == TotalsOf(groups)
      modifies this, groups.Values
      ensures Keyed() && tupleDesc == old(tupleDesc) && merged == old(merged)
      ensures TotalsOf(groups) == AddTo(m, k, v)
    {
      if k in groups {
        AddToExisting(k, v, m);
      } else {
        AddToNew(k, v, m);
      }
    }

    /** The group already has a `ResInfo`: only that one changes. */
    method AddToExisting(k: Option<Field>, v: Int32, ghost m: map<Option<Field>, Totals>)
      requires Keyed() && m == TotalsOf(groups) && k in groups
      modifies groups[k]
      ensures Keyed() && TotalsOf(groups) == m[k := Added(m[k], v)]
    {
      ghost var m' := m[k := Added(m[k], v)];
      var info := groups[k];
      info.Add(v);
      forall k' | k' in groups
        ensures TotalsOf(groups)[k'] == m'[k']
      {
        if k' != k {
          assert groups[k'].key != info.key;
        }
      }
      assert TotalsOf(groups).Keys == m'.Keys;
    }

    /** The group has no `ResInfo` yet: a fresh one, holding the value, joins the map. */
    method AddToNew(k: Option<Field>, v: Int32, ghost m: map<Option<Field>, Totals>)
      requires Keyed() && m == TotalsOf(groups) && k !in groups
      modifies this
      ensures Keyed() && tupleDesc == old(tupleDesc) && merged == old(merged)
      ensures TotalsOf(groups) == m[k := Added(Fresh, v)]
    {
      ghost var m' := m[k := Added(Fresh, v)];
      var info := new ResInfo(k);
      info.Add(v);
      ghost var before := groups;
      groups := groups[k := info];
      forall k' | k' in groups
        ensures TotalsOf(groups)[k'] == m'[k']
      {
        if k' != k {
          assert groups[k'] == before[k'] && before[k'] != info;
        }
      }
      assert TotalsOf(groups).Keys == m'.Keys;
    }

    /** `mergeTupleIntoGroup`: the schema is generated from the first tuple seen; then the
        tuple's value is added to its group's totals, a new group starting from fresh totals.
        Other groups are unchanged. A non-integer aggregate field raises after the schema is
        generated and merges nothing. */
    method MergeTupleIntoGroup(tup: Tuple) returns (out: Outcome<DbError>)
      requires Valid() && Readable(tup, gbfield, afield)
      modifies this, groups.Values
      ensures Valid()
      ensures tupleDesc == if old(tupleDesc).None?
        then Some(OutputDesc(tup.desc, gbfield, gbfieldtype, afield)) else old(tupleDesc)
      ensures !tup.fields[afield].IntField? ==>
        out == Fail(ClassCast) && merged == old(merged) && Snapshot() == old(Snapshot())
      ensures tup.fields[afield].IntField? ==> out == Pass && merged == old(merged) + [tup]
      ensures tup.fields[afield].IntField? ==>
        Snapshot() == AddTo(old(Snapshot()), KeyOf(tup, gbfield), ValueOf(tup, afield))
    {
      if tupleDesc.None? {
        tupleDesc := Some(OutputDesc(tup.desc, gbfield, gbfieldtype, afield));
      }
      if !tup.fields[afield].IntField? {
        return Fail(ClassCast);
      }
      var v := tup.fields[afield].intValue;
      var k := KeyOf(tup, gbfield);
      AddToGroup(k, v, TotalsOf(groups));
      MergedSnoc(merged, tup, gbfield, afield);
      merged := merged + [tup];
      out := Pass;
    }

    /** `iterator`: with grouping, one (key, aggregate) row per group, in the map's iteration
        order (`keys`), unless `getResult` raises on some group; without grouping, the one row of
        the null key's group, which must exist. */
    method Iterator() returns (r: Result<seq<Tuple>, DbError>, ghost keys: seq<Option<Field>>)
      requires Valid()
      ensures gbfield == NoGrouping ==>
        if None !in Snapshot() then r == Err(NullPointer)
        else match ResultOf(Snapshot()[None], what)
          case Err(e) => r == Err(e)
          case Ok(x) => r == Ok([Row(tupleDesc.value, None, x)])
      ensures gbfield != NoGrouping ==>
        (r.Err? <==> exists k | k in groups :: ResultOf(Snapshot()[k], what).Err?) &&
        (r.Err? ==> r.error == Arithmetic)
      ensures gbfield != NoGrouping && r.Ok? ==>
        (forall i, j | 0 <= i < j < |keys| :: keys[i] != keys[j]) &&
        (forall k | k in groups :: k in keys) && (forall i | 0 <= i < |keys| :: keys[i] in groups) &&
        |r.value| == |keys| &&
        forall i | 0 <= i < |keys| :: r.value[i] == Row(tupleDesc.value, keys[i], ResultOf(Snapshot()[keys[i]], what).value)
    {
      MergedKeys(merged, gbfield, afield);
      keys := [];
      if gbfield == NoGrouping {
        if None !in groups {
          return Err(NullPointer), keys;
        }
        var res := ResultOf(groups[None].Value(), what);
        if res.Err? {
          return Err(res.error), keys;
        }
        return Ok([Row(tupleDesc.value, None, res.value)]), keys;
      }
      r, keys := GroupRows();
    }

    /** The grouped half of `iterator`: one (key, result) row per group, in the map's iteration
        order (`keys`), or the first `ArithmeticException` a group's result raises. */
    method GroupRows() returns (r: Result<seq<Tuple>, DbError>, ghost keys: seq<Option<Field>>)
      requires gbfield != NoGrouping && (groups != map[] ==> tupleDesc.Some?)
      ensures (r.Err? <==> exists k | k in groups :: ResultOf(Snapshot()[k], what).Err?) &&
        (r.Err? ==> r.error == Arithmetic)
      ensures r.Ok? ==>
        (forall i, j | 0 <= i < j < |keys| :: keys[i] != keys[j]) &&
        (forall k | k in groups :: k in keys) && (forall i | 0 <= i < |keys| :: keys[i] in groups) &&
        |r.value| == |keys| &&
        forall i | 0 <= i < |keys| :: r.value[i] == Row(tupleDesc.value, keys[i], ResultOf(Snapshot()[keys[i]], what).value)
    {
      ghost var snap := Snapshot();
      keys := [];
      var rows := [];
      var left := groups.Keys;
      while left != {}
        invariant left <= groups.Keys && |rows| == |keys|
        invariant forall i, j | 0 <= i < j < |keys| :: keys[i] != keys[j]
        invariant forall i | 0 <= i < |keys| :: keys[i] in groups && keys[i] !in left
        invariant forall k | k in groups :: k in keys || k in left
        invariant forall i | 0 <= i < |keys| ::
          ResultOf(snap[keys[i]], what).Ok? &&
          rows[i] == Row(tupleDesc.value, keys[i], ResultOf(snap[keys[i]], what).value)
        decreases left
      {
        var k :| k in left;
        assert snap[k] == groups[k].Value();
        var res := ResultOf(groups[k].Value(), what);
        if res.Err? {
          return Err(res.error), keys;
        }
        rows := rows + [Row(tupleDesc.value, k, res.value)];
        keys := keys + [k];
        left := left - {k};
      }
      r := Ok(rows);
    }
  }
}
