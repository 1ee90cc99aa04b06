/**
  internal/store/store.go, the field lists of truncate.go and the size
  estimates of chunk.go: a query-log row, its statement arguments and what
  each of them may add to a statement.
*/
module Rows {
  import opened ByteStrings
  import opened Sums
  import opened Truncation

  datatype Option<+T> = None | Some(value: T)

  type Int64 = v: int | -0x8000_0000_0000_0000 <= v < 0x8000_0000_0000_0000

  /** A time.Time, as nanoseconds since the Unix epoch. */
  type Instant = int

  const TEXT_FIELDS := 21
  const COUNTER_FIELDS := 17

  datatype RowData = RowData(
    text: seq<Bytes>,                 // the varchar columns, in schema order
    createTime: Instant,
    executionStart: Option<Instant>,
    endTime: Option<Instant>,
    counters: seq<Int64>)             // the bigint columns, in schema order

  type Row = r: RowData | |r.text| == TEXT_FIELDS && |r.counters| == COUNTER_FIELDS
    witness RowData(seq(TEXT_FIELDS, _ => []), 0, None, None, seq(COUNTER_FIELDS, _ => 0))

  // Positions of the varchar columns in Row.text.
  const QUERY_ID := 0
  const QUERY_STATE := 1
  const QUERY_TYPE := 2
  const USER_NAME := 3
  const SOURCE := 4
  const PRINCIPAL := 5
  const CLIENT_TAGS := 6
  const CATALOG := 7
  const SCHEMA_NAME := 8
  const QUERY_TEXT := 9
  const QUERY_PREVIEW := 10
  const UPDATE_TYPE := 11
  const ERROR_CODE := 12
  const ERROR_TYPE := 13
  const ERROR_MESSAGE := 14
  const PLAN := 15
  const JSON_PLAN := 16
  const INPUTS_JSON := 17
  const RESOURCE_GROUP := 18
  const SERVER_VERSION := 19
  const ENVIRONMENT := 20

  const LARGE_FIELDS: seq<nat> := [PLAN, JSON_PLAN, QUERY_TEXT, ERROR_MESSAGE, INPUTS_JSON]

  const SMALL_FIELDS: seq<nat> := [
    QUERY_ID, QUERY_STATE, QUERY_TYPE, USER_NAME, SOURCE, PRINCIPAL,
    CLIENT_TAGS, CATALOG, SCHEMA_NAME, QUERY_PREVIEW, UPDATE_TYPE, ERROR_CODE, ERROR_TYPE,
    RESOURCE_GROUP, SERVER_VERSION, ENVIRONMENT]

  const STRING_FIELDS: seq<nat> := LARGE_FIELDS + SMALL_FIELDS

  function Id(r: Row): Bytes {
    r.text[QUERY_ID]
  }

  // ---------------------------------------------------------------- arguments

  datatype Arg = Str(s: Bytes) | Num(v: Int64) | Stamp(t: Instant) | Null

  function TimeArg(t: Option<Instant>): Arg {
    match t
    case None => Null
    case Some(v) => Stamp(v)
  }

  function StrArgs(text: seq<Bytes>): seq<Arg> {
    seq(|text|, i requires 0 <= i < |text| => Str(text[i]))
  }

  function NumArgs(counters: seq<Int64>): seq<Arg> {
    seq(|counters|, i requires 0 <= i < |counters| => Num(counters[i]))
  }

  /** The 41 column values in schema order. */
  function Args(r: Row): (a: seq<Arg>)
    ensures |a| == 41
  {
    StrArgs(r.text[..12]) + [Stamp(r.createTime), TimeArg(r.executionStart), TimeArg(r.endTime)]
    + NumArgs(r.counters) + StrArgs(r.text[12..])
  }

  /** The table's columns. */
  const SCHEMA: seq<string> := [
    "query_id", "query_state", "query_type", "user_name", "source", "principal",
    "client_tags", "catalog", "schema_name", "query_text", "query_preview", "update_type",
    "create_time", "execution_start_time", "end_time",
    "queued_ms", "analysis_ms", "planning_ms", "execution_ms", "wall_ms", "cpu_ms",
    "peak_user_memory_bytes", "peak_total_memory_bytes", "physical_input_bytes", "physical_input_rows",
    "processed_input_bytes", "processed_input_rows", "output_bytes", "output_rows",
    "written_bytes", "written_rows", "completed_splits",
    "error_code", "error_type", "error_message", "plan", "json_plan", "inputs_json",
    "resource_group", "server_version", "environment"]

  /** Column by column: the strings around the three times and the counters. */
  lemma ArgsColumns(r: Row)
    ensures |Args(r)| == |SCHEMA| == 41
    ensures forall i: nat | i < 12 :: Args(r)[i] == Str(r.text[i])
    ensures SCHEMA[12] == "create_time" && Args(r)[12] == Stamp(r.createTime)
    ensures SCHEMA[13] == "execution_start_time"
            && Args(r)[13] == if r.executionStart.Some? then Stamp(r.executionStart.value) else Null
    ensures SCHEMA[14] == "end_time"
            && Args(r)[14] == if r.endTime.Some? then Stamp(r.endTime.value) else Null
    ensures forall i: nat | i < COUNTER_FIELDS :: Args(r)[15 + i] == Num(r.counters[i])
    ensures forall i: nat | 12 <= i < TEXT_FIELDS :: Args(r)[20 + i] == Str(r.text[i])
  {}

  /** The column of a string field. */
  function TextColumn(field: nat): nat {
    if field < 12 then field else 20 + field
  }

  /** The pointers of truncate.go by column name: the payloads in clampRow's order of preference, then the rest. */
  lemma PointerColumns()
    ensures forall j: nat | j < |LARGE_FIELDS| :: TextColumn(LARGE_FIELDS[j]) < |SCHEMA|
    ensures forall j: nat | j < |SMALL_FIELDS| :: TextColumn(SMALL_FIELDS[j]) < |SCHEMA|
    ensures |LARGE_FIELDS| == 5 && |SMALL_FIELDS| == 16
    ensures forall j: nat | j < 5 :: SCHEMA[TextColumn(LARGE_FIELDS[j])] ==
              ["plan", "json_plan", "query_text", "error_message", "inputs_json"][j]
    ensures forall j: nat | j < 16 :: SCHEMA[TextColumn(SMALL_FIELDS[j])] ==
              ["query_id", "query_state", "query_type", "user_name", "source", "principal",
               "client_tags", "catalog", "schema_name", "query_preview", "update_type", "error_code", "error_type",
               "resource_group", "server_version", "environment"][j]
    ensures forall j: nat | j < 21 :: STRING_FIELDS[j] == if j < 5 then LARGE_FIELDS[j] else SMALL_FIELDS[j - 5]
  {}

  /** A row can be read back from its arguments. */
  lemma ArgsInjective(r: Row, q: Row)
    requires Args(r) == Args(q)
    ensures r == q
  {
    var a, b := Args(r), Args(q);
    forall i | 0 <= i < TEXT_FIELDS ensures r.text[i] == q.text[i] {
      var column := if i < 12 then i else i + 20;
      assert a[column] == Str(r.text[i]) && b[column] == Str(q.text[i]);
    }
    forall i | 0 <= i < COUNTER_FIELDS ensures r.counters[i] == q.counters[i] {
      assert a[15 + i] == Num(r.counters[i]) && b[15 + i] == Num(q.counters[i]);
    }
    assert a[12] == Stamp(r.createTime) && b[12] == Stamp(q.createTime);
    assert a[13] == TimeArg(r.executionStart) && b[13] == TimeArg(q.executionStart);
    assert a[14] == TimeArg(r.endTime) && b[14] == TimeArg(q.endTime);
  }

  /** The arguments of several rows, as insertChunk appends them. */
  function AllArgs(rows: seq<Row>): seq<Arg> {
    if rows == [] then [] else Args(rows[0]) + AllArgs(rows[1..])
  }

  /** What is left of an integer stored in an int64. */
  function Wrap64(v: int): Int64 {
    (v + 0x8000_0000_0000_0000) % 0x1_0000_0000_0000_0000 - 0x8000_0000_0000_0000
  }

  /** It differs by a multiple of 2^64, which among the int64 values only one does. */
  lemma WrapCongruent(v: int)
    ensures (v - Wrap64(v)) % 0x1_0000_0000_0000_0000 == 0
    ensures -0x8000_0000_0000_0000 <= v < 0x8000_0000_0000_0000 ==> Wrap64(v) == v
  {
    var w := v + 0x8000_0000_0000_0000;
    assert v - Wrap64(v) == w / 0x1_0000_0000_0000_0000 * 0x1_0000_0000_0000_0000;
  }

  // ---------------------------------------------------------------- estimates

  function EstimateArg(a: Arg): int {
    match a
    case Str(s) => |s| + QuoteCount(s) + 4
    case Null => 6
    case Stamp(_) => 64
    case Num(_) => 24
  }

  /** clickhouseRowBytes. */
  function ArgsBytes(r: Row): int {
    Sum(Args(r), EstimateArg)
  }

  const PLACEHOLDER_LENGTH := 83  // "(" + 41 question marks joined by "," + ")"

  /** (*TrinoStore).estimateRowBytes. */
  function RowBytes(r: Row): int {
    PLACEHOLDER_LENGTH + 2 + ArgsBytes(r)
  }

  method EstimateRowBytes(r: Row) returns (n: int)
    ensures n == RowBytes(r)
  {
    n := PLACEHOLDER_LENGTH + 2;
    var args := Args(r);
    for i := 0 to |args|
      invariant n == PLACEHOLDER_LENGTH + 2 + Sum(args[..i], EstimateArg)
    {
      assert args[..i + 1] == args[..i] + [args[i]];
      SumSnoc(args[..i], args[i], EstimateArg);
      n := n + EstimateArg(args[i]);
    }
    assert args[..|args|] == args;
  }

  /** What the content of a string field adds to a row's estimate. */
  function TextCost(s: Bytes): int {
    |s| + QuoteCount(s)
  }

  function WithText(r: Row, text: seq<Bytes>): Row
    requires |text| == TEXT_FIELDS
  {
    r.(text := text)
  }

  function Emptied(r: Row): Row {
    WithText(r, seq(TEXT_FIELDS, _ => []))
  }

  lemma {:induction false} StrArgsSum(text: seq<Bytes>)
    ensures Sum(StrArgs(text), EstimateArg) == Sum(text, TextCost) + 4 * |text|
  {
    if text != [] {
      assert StrArgs(text)[1..] == StrArgs(text[1..]);
      StrArgsSum(text[1..]);
    }
  }

  lemma NumArgsSum(counters: seq<Int64>)
    ensures Sum(NumArgs(counters), EstimateArg) == 24 * |counters|
  {
    SumBounds(NumArgs(counters), EstimateArg, 24, 24);
  }

  /** The estimate is a part fixed by the times, at most 684, plus the cost of the strings. */
  lemma ArgsBytesSplit(r: Row)
    ensures ArgsBytes(r) == ArgsBytes(Emptied(r)) + Sum(r.text, TextCost)
    ensures ArgsBytes(Emptied(r)) <= 21 * 4 + 17 * 24 + 3 * 64
  {
    ArgsBytesParts(r);
    ArgsBytesParts(Emptied(r));
    SumBounds(Emptied(r).text, TextCost, 0, 0);
  }

  function TimesBytes(r: Row): int {
    64 + EstimateArg(TimeArg(r.executionStart)) + EstimateArg(TimeArg(r.endTime))
  }

  lemma ArgsBytesParts(r: Row)
    ensures ArgsBytes(r) == Sum(r.text, TextCost) + 21 * 4 + 17 * 24 + TimesBytes(r)
  {
    var early, late := r.text[..12], r.text[12..];
    var times := [Stamp(r.createTime), TimeArg(r.executionStart), TimeArg(r.endTime)];
    SumConcat(StrArgs(early) + times + NumArgs(r.counters), StrArgs(late), EstimateArg);
    SumConcat(StrArgs(early) + times, NumArgs(r.counters), EstimateArg);
    SumConcat(StrArgs(early), times, EstimateArg);
    StrArgsSum(early);
    StrArgsSum(late);
    NumArgsSum(r.counters);
    SumSnoc(times[..2], times[2], EstimateArg);
    SumSnoc(times[..1], times[1], EstimateArg);
    assert times == times[..2] + [times[2]] && times[..2] == times[..1] + [times[1]];
    SumConcat(early, late, TextCost);
    assert r.text == early + late;
  }

  /** The estimates themselves: each string costs its bytes and quotes, the rest is fixed by which times are there. */
  lemma EstimatesExact(r: Row)
    ensures ArgsBytes(r) == Sum(r.text, TextCost) + 21 * 4 + 17 * 24 + 64
              + (if r.executionStart.Some? then 64 else 6) + (if r.endTime.Some? then 64 else 6)
    ensures RowBytes(r) == ArgsBytes(r) + 85
    ensures forall i: nat | i < TEXT_FIELDS :: TextCost(r.text[i]) == |r.text[i]| + multiset(r.text[i])[QUOTE]
  {
    ArgsBytesParts(r);
    forall i: nat | i < TEXT_FIELDS ensures TextCost(r.text[i]) == |r.text[i]| + multiset(r.text[i])[QUOTE] {
      QuoteCountCounts(r.text[i]);
    }
  }

  // ---------------------------------------------------------------- TruncateFields

  const MAX_SMALL_FIELD_BYTES := 16_384

  /** The cap TruncateFields puts on the string field at position i. */
  function FieldCap(i: nat, max: int): int {
    if i in LARGE_FIELDS || max < MAX_SMALL_FIELD_BYTES then max else MAX_SMALL_FIELD_BYTES
  }

  function TruncatedFields(r: Row, max: int): Row {
    if max <= 0 then r
    else WithText(r, seq(TEXT_FIELDS, i requires 0 <= i < TEXT_FIELDS => Truncate(r.text[i], FieldCap(i, max))))
  }

  /** One of TruncateFields' two loops: cap the fields a pointer list names. */
  method CapFields(text: seq<Bytes>, fields: seq<nat>, cap: int) returns (out: seq<Bytes>)
    requires forall j | 0 <= j < |fields| :: fields[j] < |text|
    requires forall j, k | 0 <= j < k < |fields| :: fields[j] != fields[k]
    ensures |out| == |text|
    ensures forall i: nat | i < |text| :: out[i] == if i in fields then Truncate(text[i], cap) else text[i]
  {
    hide Truncate;
    out := text;
    for j := 0 to |fields|
      invariant |out| == |text|
      invariant forall i: nat | i < |text| :: out[i] == if i in fields[..j] then Truncate(text[i], cap) else text[i]
    {
      assert fields[j] !in fields[..j];
      assert fields[..j + 1] == fields[..j] + [fields[j]];
      out := out[fields[j] := Truncate(out[fields[j]], cap)];
    }
    assert fields[..|fields|] == fields;
  }

  /** Every string field is in exactly one of the two lists. */
  lemma FieldLists()
    ensures |STRING_FIELDS| == TEXT_FIELDS
    ensures forall i: nat | i < TEXT_FIELDS :: i in STRING_FIELDS && (i in LARGE_FIELDS <==> i !in SMALL_FIELDS)
  {
    assert |SMALL_FIELDS| == 16;
    assert forall k | 0 <= k < 16 :: SMALL_FIELDS[k] == [0, 1, 2, 3, 4, 5, 6, 7, 8, 10, 11, 12, 13, 18, 19, 20][k];
  }

  method TruncateFields(r: Row, max: int) returns (out: Row)
    ensures out == TruncatedFields(r, max)
  {
    if max <= 0 {
      return r;
    }
    FieldLists();
    var small := if max < MAX_SMALL_FIELD_BYTES then max else MAX_SMALL_FIELD_BYTES;
    var text := CapFields(r.text, LARGE_FIELDS, max);
    text := CapFields(text, SMALL_FIELDS, small);
    out := r.(text := text);
    assert out.text == TruncatedFields(r, max).text;
  }

  /** By name: the five payloads are truncated to max, every other string to the smaller of max and 16 KiB. */
  lemma TruncateFieldsNames(r: Row, max: int)
    ensures max <= 0 ==> TruncatedFields(r, max) == r
    ensures max > 0 ==> forall i: nat | i < TEXT_FIELDS ::
              TruncatedFields(r, max).text[i] ==
              Truncate(r.text[i], if SCHEMA[TextColumn(i)] in {"plan", "json_plan", "query_text", "error_message", "inputs_json"}
                                  then max else Min(max, 16 * 1024))
  {
    hide Truncate;
    forall i: nat | i < TEXT_FIELDS
      ensures SCHEMA[TextColumn(i)] in {"plan", "json_plan", "query_text", "error_message", "inputs_json"} <==> i in LARGE_FIELDS
    {
      PayloadNames(i);
    }
  }

  lemma PayloadNames(i: nat)
    requires i < TEXT_FIELDS
    ensures SCHEMA[TextColumn(i)] in {"plan", "json_plan", "query_text", "error_message", "inputs_json"} <==> i in LARGE_FIELDS
  {}

  /** Every string field of the result obeys its cap, only the strings change, and a second pass is the identity. */
  lemma TruncateFieldsCaps(r: Row, max: int)
    requires max > 0
    ensures forall i: nat | i < TEXT_FIELDS :: |TruncatedFields(r, max).text[i]| <= FieldCap(i, max)
    ensures forall i: nat | i < TEXT_FIELDS && |r.text[i]| <= FieldCap(i, max) ::
              TruncatedFields(r, max).text[i] == r.text[i]
    ensures forall i: nat | i < TEXT_FIELDS && ValidUtf8(r.text[i]) :: ValidUtf8(TruncatedFields(r, max).text[i])
    ensures Emptied(TruncatedFields(r, max)) == Emptied(r)
    ensures TruncatedFields(TruncatedFields(r, max), max) == TruncatedFields(r, max)
  {
    forall i: nat | i < TEXT_FIELDS
      ensures |TruncatedFields(r, max).text[i]| <= FieldCap(i, max)
      ensures TruncatedFields(TruncatedFields(r, max), max).text[i] == TruncatedFields(r, max).text[i]
    {
      TruncateBound(r.text[i], FieldCap(i, max));
      TruncateIdempotent(r.text[i], FieldCap(i, max));
    }
    forall i: nat | i < TEXT_FIELDS && ValidUtf8(r.text[i]) ensures ValidUtf8(TruncatedFields(r, max).text[i]) {
      TruncateValid(r.text[i], FieldCap(i, max));
    }
    assert TruncatedFields(TruncatedFields(r, max), max).text == TruncatedFields(r, max).text;
  }
}
