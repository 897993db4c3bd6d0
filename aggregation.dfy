/** What the two aggregators share: the aggregate operators, the group key of a tuple and the
    tuples a group collects. */
module Aggregation {
  import opened Wrappers
  import opened JavaInts
  import opened DbTypes

  /** `Aggregator.Op`. */
  datatype Op = Min | Max | Sum | Avg | Count | SumCount | ScAvg

  /** `Aggregator.NO_GROUPING`. */
  const NoGrouping: int := -1

  /** The field indexes an aggregator reads exist in the tuple and in its schema; `Tuple.java`
      is not part of this model, and with `NO_GROUPING` the group field is null. */
  predicate Readable(tup: Tuple, gbfield: int, afield: int) {
    0 <= afield < |tup.fields| && afield < |tup.desc.names| &&
    (gbfield == NoGrouping || (0 <= gbfield < |tup.fields| && gbfield < |tup.desc.names|))
  }

  /** `tup.getField(gbfield)`: the group of a tuple, null without grouping. */
  function KeyOf(tup: Tuple, gbfield: int): Option<Field>
    requires gbfield == NoGrouping || 0 <= gbfield < |tup.fields|
  {
    if gbfield == NoGrouping then None else Some(tup.fields[gbfield])
  }

  /** The tuples of `ts` that fall in group `k`, in merge order. */
  function InGroup(ts: seq<Tuple>, gbfield: int, k: Option<Field>): (r: seq<Tuple>)
    requires forall t | t in ts :: gbfield == NoGrouping || 0 <= gbfield < |t.fields|
    ensures |r| <= |ts|
  {
    if ts == [] then []
    else
      var last := ts[|ts| - 1];
      assert last in ts;
      InGroup(ts[..|ts| - 1], gbfield, k) + (if KeyOf(last, gbfield) == k then [last] else [])
  }

  /** A group has tuples exactly when some merged tuple carries its key. */
  lemma {:induction false} InGroupEmpty(ts: seq<Tuple>, gbfield: int, k: Option<Field>)
    requires forall t | t in ts :: gbfield == NoGrouping || 0 <= gbfield < |t.fields|
    ensures InGroup(ts, gbfield, k) != [] <==> exists t | t in ts :: KeyOf(t, gbfield) == k
  {
    if ts != [] {
      var front, last := ts[..|ts| - 1], ts[|ts| - 1];
      assert ts == front + [last];
      assert forall t | t in front :: t in ts;
      InGroupEmpty(front, gbfield, k);
    }
  }

  /** With grouping, the schema names `generateTupleDesc` reads exist. */
  predicate NamesReadable(td: TupleDesc, gbfield: int, afield: int) {
    gbfield == NoGrouping || (0 <= gbfield < |td.names| && 0 <= afield < |td.names|)
  }

  /** The output schema `generateTupleDesc` builds from the first merged tuple's schema: one
      unnamed integer column without grouping, else the group column (of the declared group
      type) and the aggregate column, named after the input's columns. The string
      aggregator's own version differs without grouping (`StringAggregators`). */
  function OutputDesc(td: TupleDesc, gbfield: int, gbfieldtype: FieldType, afield: int): TupleDesc
    requires NamesReadable(td, gbfield, afield)
  {
    if gbfield == NoGrouping then TupleDesc([IntType], [None])
    else TupleDesc([gbfieldtype, IntType], [td.names[gbfield], td.names[afield]])
  }

  /** The output tuple of one group: the key (with grouping) and the aggregate. */
  function Row(desc: TupleDesc, key: Option<Field>, x: Int32): Tuple {
    match key
    case None => Tuple(desc, [IntField(x)], None)
    case Some(f) => Tuple(desc, [f, IntField(x)], None)
  }

  /** The type of a field's value. */
  function TypeOf(f: Field): FieldType {
    match f
    case IntField(_) => IntType
    case StringField(_) => StringType
  }

  /** A tuple whose fields have the types its schema declares. */
  predicate Conforms(t: Tuple) {
    |t.fields| == |t.desc.types| && forall i | 0 <= i < |t.fields| :: TypeOf(t.fields[i]) == t.desc.types[i]
  }

  /** The rows an aggregator outputs fit its output schema: always without grouping, and with
      grouping when the group key has the declared group type. */
  lemma RowConforms(td: TupleDesc, gbfield: int, gbfieldtype: FieldType, afield: int, key: Option<Field>, x: Int32)
    requires NamesReadable(td, gbfield, afield)
    requires key.None? <==> gbfield == NoGrouping
    requires key.Some? ==> TypeOf(key.value) == gbfieldtype
    ensures Conforms(Row(OutputDesc(td, gbfield, gbfieldtype, afield), key, x))
  {
  }
}
