/** `StringAggregator`: a group-by count of tuples (the only operator it supports). */
module StringAggregators {
  import opened Wrappers
  import opened JavaInts
  import opened DbTypes
  import opened Aggregation

  /** A tuple the aggregator can merge: with grouping, its group field exists and the schema
      names the group and aggregate columns. The aggregate field itself is never read. */
  predicate Groupable(tup: Tuple, gbfield: int, afield: int) {
    (gbfield == NoGrouping || 0 <= gbfield < |tup.fields|) && NamesReadable(tup.desc, gbfield, afield)
  }

  /** `map.getOrDefault(group, 0)`. */
  function CountOf(m: map<Option<Field>, Int32>, k: Option<Field>): int {
    if k in m then m[k] else 0
  }

  /** One more tuple in group `k`: its count (0 when absent) goes up by one, as a Java `int`. */
  function Bump(m: map<Option<Field>, Int32>, k: Option<Field>): map<Option<Field>, Int32> {
    m[k := Wrap32(CountOf(m, k) + 1)]
  }

  /** Counting one tuple adds its group if new, counts it there (a new group at 1) and changes
      no other group. */
  lemma BumpCounts(m: map<Option<Field>, Int32>, k: Option<Field>)
    ensures Bump(m, k).Keys == m.Keys + {k}
    ensures k !in m ==> Bump(m, k)[k] == 1
    ensures k in m ==> Bump(m, k)[k] == Wrap32(m[k] as int + 1)
    ensures k in m && m[k] < MaxInt ==> Bump(m, k)[k] == m[k] as int + 1
    ensures forall k' | k' in m && k' != k :: Bump(m, k)[k'] == m[k']
  {
  }

  /** The counts after merging `ts` in order into an empty map: each tuple adds one, as a
      Java `int`, to the count of its group (0 when absent). */
  function Counts(ts: seq<Tuple>, gbfield: int): map<Option<Field>, Int32>
    requires forall t | t in ts :: gbfield == NoGrouping || 0 <= gbfield < |t.fields|
  {
    if ts == [] then map[]
    else
      var last := ts[|ts| - 1];
      assert last in ts;
      Bump(Counts(ts[..|ts| - 1], gbfield), KeyOf(last, gbfield))
  }

  /** Merging one more tuple counts it in its group and leaves the others. */
  lemma CountsSnoc(ts: seq<Tuple>, tup: Tuple, gbfield: int)
    requires forall t | t in ts + [tup] :: gbfield == NoGrouping || 0 <= gbfield < |t.fields|
    ensures Counts(ts + [tup], gbfield) == Bump(Counts(ts, gbfield), KeyOf(tup, gbfield))
  {
    assert (ts + [tup])[..|ts|] == ts;
    assert forall t | t in ts :: t in ts + [tup];
  }

  /** After any sequence of merges, the groups are exactly the keys the merged tuples carry. */
  lemma {:induction false} CountedGroups(ts: seq<Tuple>, gbfield: int, k: Option<Field>)
    requires forall t | t in ts :: gbfield == NoGrouping || 0 <= gbfield < |t.fields|
    ensures k in Counts(ts, gbfield) <==> InGroup(ts, gbfield, k) != []
  {
    if ts != [] {
      var front := ts[..|ts| - 1];
      assert forall t | t in front :: t in ts;
      assert ts[|ts| - 1] in ts;
      CountedGroups(front, gbfield, k);
    }
  }

  /** After any sequence of merges, each group's count is the number of tuples merged with its
      key, as a Java `int`. */
  lemma {:induction false} CountsAreGroupSizes(ts: seq<Tuple>, gbfield: int, k: Option<Field>)
    requires forall t | t in ts :: gbfield == NoGrouping || 0 <= gbfield < |t.fields|
    requires k in Counts(ts, gbfield)
    ensures Counts(ts, gbfield)[k] == Wrap32(|InGroup(ts, gbfield, k)|)
  {
    var front, last := ts[..|ts| - 1], ts[|ts| - 1];
    assert forall t | t in front :: t in ts;
    assert last in ts;
    var m, g := Counts(front, gbfield), InGroup(front, gbfield, k);
    if KeyOf(last, gbfield) == k {
      assert InGroup(ts, gbfield, k) == g + [last];
      CountedGroups(front, gbfield, k);
      if k in m {
        CountsAreGroupSizes(front, gbfield, k);
        Wrap32Add(|g|, 1);
      } else {
        assert g == [];
      }
    } else {
      assert InGroup(ts, gbfield, k) == g;
      CountsAreGroupSizes(front, gbfield, k);
    }
  }

  /** The output schema as `generateTupleDesc` writes it: without grouping it declares one
      STRING column, although the one output row holds an integer count. */
  function OutputDescAsWritten(td: TupleDesc, gbfield: int, gbfieldtype: FieldType, afield: int): TupleDesc
    requires NamesReadable(td, gbfield, afield)
  {
    if gbfield == NoGrouping then TupleDesc([StringType], [None])
    else OutputDesc(td, gbfield, gbfieldtype, afield)
  }

  /** Without grouping, the row of the count never fits the schema as written, whatever the
      count; with grouping the schema is the shared one. */
  lemma AsWrittenSchemaMismatch(td: TupleDesc, gbfield: int, gbfieldtype: FieldType, afield: int, x: Int32)
    requires NamesReadable(td, gbfield, afield)
    ensures gbfield == NoGrouping ==>
      !Conforms(Row(OutputDescAsWritten(td, gbfield, gbfieldtype, afield), None, x))
    ensures gbfield != NoGrouping ==>
      OutputDescAsWritten(td, gbfield, gbfieldtype, afield) == OutputDesc(td, gbfield, gbfieldtype, afield)
  {
    if gbfield == NoGrouping {
      var row := Row(OutputDescAsWritten(td, gbfield, gbfieldtype, afield), None, x);
      assert TypeOf(row.fields[0]) == IntType != row.desc.types[0];
    }
  }

  class StringAggregator {
    const gbfield: int
    const gbfieldtype: FieldType
    const afield: int
    const what: Op
    var tupleDesc: Option<TupleDesc>
    /** The count of each group. */
    var groups: map<Option<Field>, Int32>
    /** The tuples merged so far, in order. */
    ghost var merged: seq<Tuple>

    /** The counts are those of the tuples merged so far, and the schema exists once a tuple
        was merged. */
    ghost predicate Valid()
      reads this
    {
      (forall t | t in merged :: Groupable(t, gbfield, afield)) &&
      groups == Counts(merged, gbfield) &&
      (merged != [] ==> tupleDesc.Some?) && (groups != map[] ==> tupleDesc.Some?)
    }

    constructor (gbfield: int, gbfieldtype: FieldType, afield: int)
      ensures this.gbfield == gbfield && this.gbfieldtype == gbfieldtype
      ensures this.afield == afield && what == Count
      ensures Valid() && merged == [] && groups == map[] && tupleDesc == None
    {
      this.gbfield := gbfield;
      this.gbfieldtype := gbfieldtype;
      this.afield := afield;
      what := Count;
      tupleDesc := None;
      groups := map[];
      merged := [];
    }

    /** The Java constructor: any operator other than `COUNT` raises
        `IllegalArgumentException`; otherwise the aggregator starts with no groups. */
    static method Create(gbfield: int, gbfieldtype: FieldType, afield: int, what: Op)
      returns (r: Result<StringAggregator, DbError>)
      ensures r.Err? <==> what != Count
      ensures r.Err? ==> r.error == IllegalArgument
      ensures r.Ok? ==> (fresh(r.value) && r.value.Valid() && r.value.what == what &&
        r.value.gbfield == gbfield && r.value.gbfieldtype == gbfieldtype && r.value.afield == afield &&
        r.value.groups == map[] && r.value.merged == [] && r.value.tupleDesc == None)
    {
      if what != Count {
        return Err(IllegalArgument);
      }
      var agg := new StringAggregator(gbfield, gbfieldtype, afield);
      return Ok(agg);
    }

    /** `mergeTupleIntoGroup`: the schema is generated from the first tuple seen, as the code
        writes it (one STRING column without grouping); the count of the tuple's group (0 when
        absent) goes up by one, and no other group changes. */
    method MergeTupleIntoGroup(tup: Tuple)
      requires Valid() && Groupable(tup, gbfield, afield)
      modifies this
      ensures Valid() && merged == old(merged) + [tup]
      ensures tupleDesc == if old(tupleDesc).None?
        then Some(OutputDescAsWritten(tup.desc, gbfield, gbfieldtype, afield)) else old(tupleDesc)
      ensures groups == Bump(old(groups), KeyOf(tup, gbfield))
    {
      CountsSnoc(merged, tup, gbfield);
      if tupleDesc.None? {
        tupleDesc := Some(OutputDescAsWritten(tup.desc, gbfield, gbfieldtype, afield));
      }
      var group := KeyOf(tup, gbfield);
      groups := Bump(groups, group);
      merged := merged + [tup];
    }

    /** `iterator`: with grouping, one (key, count) row per group, in the map's iteration
        order (`keys`); without grouping, the one row of the null key's count, which must
        exist (unboxing a missing count raises `NullPointerException`). */
    method Iterator() returns (r: Result<seq<Tuple>, DbError>, ghost keys: seq<Option<Field>>)
      requires Valid()
      ensures gbfield == NoGrouping ==>
        if None in groups then r == Ok([Row(tupleDesc.value, None, groups[None])])
        else r == Err(NullPointer)
      ensures gbfield != NoGrouping ==>
        r.Ok? && |r.value| == |keys| &&
        (forall i, j | 0 <= i < j < |keys| :: keys[i] != keys[j]) &&
        (forall k | k in groups :: k in keys) && (forall i | 0 <= i < |keys| :: keys[i] in groups) &&
        (keys != [] ==> tupleDesc.Some?) &&
        forall i | 0 <= i < |keys| :: r.value[i] == Row(tupleDesc.value, keys[i], groups[keys[i]])
    {
      keys := [];
      if gbfield == NoGrouping {
        if None !in groups {
          return Err(NullPointer), keys;
        }
        return Ok([Row(tupleDesc.value, None, groups[None])]), keys;
      }
      var rows := [];
      var left := groups.Keys;
      while left != {}
        invariant left <= groups.Keys && |rows| == |keys|
        invariant forall i, j | 0 <= i < j < |keys| :: keys[i] != keys[j]
        invariant forall i | 0 <= i < |keys| :: keys[i] in groups && keys[i] !in left
        invariant forall k | k in groups :: k in keys || k in left
        invariant keys != [] ==> tupleDesc.Some?
        invariant forall i | 0 <= i < |keys| :: rows[i] == Row(tupleDesc.value, keys[i], groups[keys[i]])
        decreases left
      {
        var k :| k in left;
        rows := rows + [Row(tupleDesc.value, k, groups[k])];
        keys := keys + [k];
        left := left - {k};
      }
      r := Ok(rows);
    }
  }
}
