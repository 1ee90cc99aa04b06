/**
  batchToken and hashArg of internal/store/clickhouse.go: the bytes fed to
  SHA-256 to make a batch's insert_deduplication_token. The hash is taken to be
  injective, so the encoding itself stands for the token.
*/
module Tokens {
  import opened ByteStrings
  import opened Rows
  import opened Dedup

  /** time.Time.UnixNano: nanoseconds in an int64, wrapping outside the years 1678 to 2262. */
  function UnixNano(t: Instant): Int64 {
    Wrap64(t)
  }

  const SEMICOLON: Byte := 59
  const COLON: Byte := 58

  /** What hashArg writes. */
  function EncodeArg(a: Arg): (e: Bytes)
    ensures |e| >= 2
  {
    match a
    case Str(s) => [115] + (Decimal(|s|) + ([COLON] + (s + [SEMICOLON])))
    case Num(v) => [105] + (Signed(v) + [SEMICOLON])
    case Stamp(t) => [116] + (Signed(UnixNano(t)) + [SEMICOLON])
    case Null => [110, SEMICOLON]
  }

  function EncodeArgs(args: seq<Arg>): Bytes {
    if args == [] then [] else EncodeArg(args[0]) + EncodeArgs(args[1..])
  }

  lemma {:induction false} EncodeArgsConcat(a: seq<Arg>, b: seq<Arg>)
    ensures EncodeArgs(a + b) == EncodeArgs(a) + EncodeArgs(b)
  {
    if a == [] {
      assert a + b == b;
    } else {
      assert (a + b)[1..] == a[1..] + b;
      EncodeArgsConcat(a[1..], b);
    }
  }

  // ---------------------------------------------------------------- decoding

  /** What the encoding can tell apart: an argument up to the wrap-around of UnixNano. */
  function Canon(a: Arg): Arg {
    if a.Stamp? then Stamp(UnixNano(a.t)) else a
  }

  function CanonAll(args: seq<Arg>): seq<Arg> {
    seq(|args|, i requires 0 <= i < |args| => Canon(args[i]))
  }

  lemma EncodeStrThen(s: Bytes, x: Bytes)
    ensures EncodeArg(Str(s)) + x == [115] + (Decimal(|s|) + ([COLON] + (s + ([SEMICOLON] + x))))
  {
    hide Decimal;
    var end := [SEMICOLON];
    Reassociate([115], Decimal(|s|) + ([COLON] + (s + end)), x);
    Reassociate(Decimal(|s|), [COLON] + (s + end), x);
    Reassociate([COLON], s + end, x);
    Reassociate(s, end, x);
  }

  lemma StrPrefix(s: Bytes, t: Bytes, x: Bytes, y: Bytes)
    requires EncodeArg(Str(s)) + x == EncodeArg(Str(t)) + y
    ensures s == t && x == y
  {
    hide Decimal;
    hide EncodeArg;
    EncodeStrThen(s, x);
    EncodeStrThen(t, y);
    var u, v := s + ([SEMICOLON] + x), t + ([SEMICOLON] + y);
    CancelPrefix([115], [115], Decimal(|s|) + ([COLON] + u), Decimal(|t|) + ([COLON] + v));
    DecimalPrefix(|s|, |t|, COLON, u, v);
    CancelPrefix(s, t, [SEMICOLON] + x, [SEMICOLON] + y);
    CancelPrefix([SEMICOLON], [SEMICOLON], x, y);
  }

  lemma TaggedSignedPrefix(tag: Byte, v: int, w: int, x: Bytes, y: Bytes)
    requires [tag] + (Signed(v) + [SEMICOLON]) + x == [tag] + (Signed(w) + [SEMICOLON]) + y
    ensures v == w && x == y
  {
    hide Signed;
    assert ([tag] + (Signed(v) + [SEMICOLON]) + x)[1..] == Signed(v) + ([SEMICOLON] + x);
    assert ([tag] + (Signed(w) + [SEMICOLON]) + y)[1..] == Signed(w) + ([SEMICOLON] + y);
    SignedPrefix(v, w, SEMICOLON, x, y);
  }

  /** An encoded argument can be read off the front of any byte string. */
  lemma EncodeArgPrefix(a: Arg, b: Arg, x: Bytes, y: Bytes)
    requires EncodeArg(a) + x == EncodeArg(b) + y
    ensures Canon(a) == Canon(b) && x == y
  {
    hide Decimal;
    hide Signed;
    hide Wrap64;
    assert EncodeArg(a)[0] == (EncodeArg(a) + x)[0] == (EncodeArg(b) + y)[0] == EncodeArg(b)[0];
    match a
    case Str(s) => StrPrefix(s, b.s, x, y);
    case Num(v) => TaggedSignedPrefix(105, v, b.v, x, y);
    case Stamp(t) => TaggedSignedPrefix(116, UnixNano(t), UnixNano(b.t), x, y);
    case Null =>
      assert x == (EncodeArg(a) + x)[2..] == (EncodeArg(b) + y)[2..] == y;
  }

  lemma WrapIdempotent(v: int)
    ensures Wrap64(Wrap64(v)) == Wrap64(v)
  {}

  lemma EncodeArgCanon(a: Arg)
    ensures EncodeArg(Canon(a)) == EncodeArg(a)
  {
    if a.Stamp? {
      WrapIdempotent(a.t);
      hide Wrap64;
    }
  }

  lemma {:induction false} EncodeCanon(a: seq<Arg>)
    ensures EncodeArgs(CanonAll(a)) == EncodeArgs(a)
  {
    if a != [] {
      hide EncodeArg;
      hide Canon;
      assert CanonAll(a)[1..] == CanonAll(a[1..]);
      EncodeCanon(a[1..]);
      EncodeArgCanon(a[0]);
    }
  }

  /** The hashed bytes determine the argument list, exactly up to the wrap-around of times. */
  lemma {:induction false} EncodingUnique(a: seq<Arg>, b: seq<Arg>)
    ensures EncodeArgs(a) == EncodeArgs(b) <==> CanonAll(a) == CanonAll(b)
  {
    EncodeCanon(a);
    EncodeCanon(b);
    if EncodeArgs(a) == EncodeArgs(b) {
      EncodingDecodes(a, b);
    }
  }

  lemma {:induction false} EncodingDecodes(a: seq<Arg>, b: seq<Arg>)
    requires EncodeArgs(a) == EncodeArgs(b)
    ensures CanonAll(a) == CanonAll(b)
  {
    hide EncodeArg;
    hide Canon;
    if a != [] && b != [] {
      EncodeArgPrefix(a[0], b[0], EncodeArgs(a[1..]), EncodeArgs(b[1..]));
      EncodingDecodes(a[1..], b[1..]);
      assert CanonAll(a) == [Canon(a[0])] + CanonAll(a[1..]);
      assert CanonAll(b) == [Canon(b[0])] + CanonAll(b[1..]);
    }
  }

  // ---------------------------------------------------------------- the sort

  /** Insertion in front of the first row that is not smaller. */
  function InsertById(r: Row, rows: seq<Row>): seq<Row> {
    if rows == [] || !Less(Id(rows[0]), Id(r)) then [r] + rows
    else [rows[0]] + InsertById(r, rows[1..])
  }

  /** sort.SliceStable by QueryID; StableSortUnique says that its contract leaves no choice. */
  function SortById(rows: seq<Row>): seq<Row> {
    if rows == [] then [] else InsertById(rows[0], SortById(rows[1..]))
  }

  predicate Sorted(rows: seq<Row>) {
    forall i, j | 0 <= i < j < |rows| :: !Less(Id(rows[j]), Id(rows[i]))
  }

  function WithId(rows: seq<Row>, id: Bytes): seq<Row> {
    if rows == [] then []
    else (if Id(rows[0]) == id then [rows[0]] else []) + WithId(rows[1..], id)
  }

  lemma {:induction false} InsertByIdRows(r: Row, rows: seq<Row>)
    ensures multiset(InsertById(r, rows)) == multiset{r} + multiset(rows)
  {
    hide Less;
    if rows != [] && Less(Id(rows[0]), Id(r)) {
      InsertByIdRows(r, rows[1..]);
      assert rows == [rows[0]] + rows[1..];
    }
  }

  lemma InsertByIdMember(r: Row, rows: seq<Row>, x: Row)
    requires x in InsertById(r, rows)
    ensures x == r || x in rows
  {
    InsertByIdRows(r, rows);
    hide InsertById;
    assert x in multiset(InsertById(r, rows));
  }

  predicate NoneBelow(rows: seq<Row>, id: Bytes) {
    forall i | 0 <= i < |rows| :: !Less(Id(rows[i]), id)
  }

  lemma SortedCons(r: Row, rows: seq<Row>)
    requires Sorted(rows) && NoneBelow(rows, Id(r))
    ensures Sorted([r] + rows)
  {
    hide Less;
    forall i, j | 0 <= i < j < |rows| + 1 ensures !Less(Id(([r] + rows)[j]), Id(([r] + rows)[i])) {
      assert ([r] + rows)[j] == rows[j - 1];
    }
  }

  lemma SortedHead(rows: seq<Row>)
    requires Sorted(rows) && rows != []
    ensures NoneBelow(rows, Id(rows[0])) && Sorted(rows[1..])
  {
    LessTotal(Id(rows[0]), Id(rows[0]));
    hide Less;
  }

  lemma {:induction false} InsertByIdSorted(r: Row, rows: seq<Row>)
    requires Sorted(rows)
    ensures Sorted(InsertById(r, rows))
  {
    hide Less;
    hide Sorted;
    if rows == [] {
      SortedNil(r);
    } else if !Less(Id(rows[0]), Id(r)) {
      SortedHead(rows);
      forall i | 0 <= i < |rows| ensures !Less(Id(rows[i]), Id(r)) {
        NotLessTransitive(Id(rows[i]), Id(rows[0]), Id(r));
      }
      SortedCons(r, rows);
    } else {
      var rest := InsertById(r, rows[1..]);
      SortedHead(rows);
      InsertByIdSorted(r, rows[1..]);
      LessTotal(Id(rows[0]), Id(r));
      forall i | 0 <= i < |rest| ensures !Less(Id(rest[i]), Id(rows[0])) {
        InsertByIdMember(r, rows[1..], rest[i]);
      }
      SortedCons(rows[0], rest);
    }
  }

  lemma SortedNil(r: Row)
    ensures Sorted([]) && Sorted([r]) && [r] + [] == [r]
  {}

  lemma {:induction false} InsertByIdStable(r: Row, rows: seq<Row>, id: Bytes)
    ensures WithId(InsertById(r, rows), id) == (if Id(r) == id then [r] else []) + WithId(rows, id)
  {
    if rows == [] || !Less(Id(rows[0]), Id(r)) {
      assert InsertById(r, rows)[1..] == rows;
    } else {
      InsertByIdStable(r, rows[1..], id);
      assert InsertById(r, rows)[1..] == InsertById(r, rows[1..]);
      LessTotal(Id(r), Id(r));
      assert Id(r) != Id(rows[0]);
    }
  }

  lemma NotLessTransitive(a: Bytes, b: Bytes, c: Bytes)
    requires !Less(a, b) && !Less(b, c)
    ensures !Less(a, c)
  {
    LessTotal(a, b);
    LessTotal(b, c);
    LessTotal(a, c);
    if Less(b, a) && Less(c, b) {
      LessTransitive(c, b, a);
    }
  }

  /** The contract of a stable sort: ordered by id, a permutation, equal ids in their original order. */
  lemma {:induction false} SortContract(rows: seq<Row>, id: Bytes)
    ensures Sorted(SortById(rows))
    ensures multiset(SortById(rows)) == multiset(rows)
    ensures |SortById(rows)| == |rows|
    ensures WithId(SortById(rows), id) == WithId(rows, id)
  {
    if rows != [] {
      SortContract(rows[1..], id);
      InsertByIdSorted(rows[0], SortById(rows[1..]));
      InsertByIdRows(rows[0], SortById(rows[1..]));
      InsertByIdStable(rows[0], SortById(rows[1..]), id);
      assert rows == [rows[0]] + rows[1..];
    }
    assert |multiset(SortById(rows))| == |multiset(rows)|;
  }

  lemma {:induction false} WithIdNonEmpty(rows: seq<Row>, id: Bytes)
    ensures WithId(rows, id) != [] ==> exists i | 0 <= i < |rows| :: Id(rows[i]) == id
  {
    if rows != [] && Id(rows[0]) != id {
      WithIdNonEmpty(rows[1..], id);
    }
  }

  lemma SortedHeadLeast(p: seq<Row>, q: seq<Row>)
    requires p != [] && Sorted(q) && WithId(q, Id(p[0])) == WithId(p, Id(p[0]))
    ensures q != [] && !Less(Id(p[0]), Id(q[0]))
  {
    WithIdNonEmpty(q, Id(p[0]));
    var i :| 0 <= i < |q| && Id(q[i]) == Id(p[0]);
    LessTotal(Id(q[0]), Id(q[0]));
  }

  /** Two sorted sequences that agree on the rows of every id are equal. */
  lemma {:induction false} SortedUnique(p: seq<Row>, q: seq<Row>)
    requires Sorted(p) && Sorted(q)
    requires forall id :: WithId(p, id) == WithId(q, id)
    ensures p == q
  {
    if p != [] || q != [] {
      if p != [] { SortedHeadLeast(p, q); }
      if q != [] { SortedHeadLeast(q, p); }
      LessTotal(Id(p[0]), Id(q[0]));
      var id := Id(p[0]);
      assert Id(q[0]) == id;
      assert WithId(p, id)[0] == p[0] && WithId(q, id)[0] == q[0];
      forall other ensures WithId(p[1..], other) == WithId(q[1..], other) {
        var a, b := WithId(p, other), WithId(q, other);
        assert a == b;
        if other == id {
          assert a == [p[0]] + WithId(p[1..], other) && b == [q[0]] + WithId(q[1..], other);
          assert WithId(p[1..], other) == a[1..] == b[1..] == WithId(q[1..], other);
        } else {
          assert a == [] + WithId(p[1..], other) == WithId(p[1..], other);
          assert b == [] + WithId(q[1..], other) == WithId(q[1..], other);
        }
      }
      SortedUnique(p[1..], q[1..]);
      assert p == [p[0]] + p[1..] && q == [q[0]] + q[1..];
    }
  }

  /** Whatever algorithm a stable sort uses, it returns SortById's result. */
  lemma StableSortUnique(rows: seq<Row>, sorted: seq<Row>)
    requires Sorted(sorted) && forall id :: WithId(sorted, id) == WithId(rows, id)
    ensures sorted == SortById(rows)
  {
    forall id ensures WithId(SortById(rows), id) == WithId(sorted, id) {
      SortContract(rows, id);
    }
    SortContract(rows, []);
    SortedUnique(sorted, SortById(rows));
  }

  // ---------------------------------------------------------------- the token

  function Token(rows: seq<Row>): Bytes {
    EncodeArgs(AllArgs(SortById(rows)))
  }

  method BatchToken(rows: seq<Row>) returns (h: Bytes)
    ensures h == Token(rows)
  {
    hide EncodeArg;
    hide Args;
    var order := SortById(rows);
    h := [];
    for i := 0 to |order|
      invariant h + EncodeArgs(AllArgs(order[i..])) == Token(rows)
    {
      var args := Args(order[i]);
      ghost var later := AllArgs(order[i + 1..]);
      assert order[i..][0] == order[i] && order[i..][1..] == order[i + 1..];
      assert args[0..] == args;
      for j := 0 to |args|
        invariant h + EncodeArgs(args[j..] + later) == Token(rows)
      {
        assert (args[j..] + later)[0] == args[j] && (args[j..] + later)[1..] == args[j + 1..] + later;
        h := h + EncodeArg(args[j]);
      }
      assert args[|args|..] + later == later;
    }
  }

  /** A row up to the wrap-around of its times. */
  function CanonTime(t: Option<Instant>): Option<Instant> {
    if t.Some? then Some(UnixNano(t.value)) else None
  }

  function CanonRow(r: Row): Row {
    r.(createTime := UnixNano(r.createTime), executionStart := CanonTime(r.executionStart), endTime := CanonTime(r.endTime))
  }

  function CanonRows(rows: seq<Row>): seq<Row> {
    seq(|rows|, i requires 0 <= i < |rows| => CanonRow(rows[i]))
  }

  lemma CanonArgs(r: Row)
    ensures CanonAll(Args(r)) == Args(CanonRow(r))
  {
    hide Wrap64;
  }

  lemma CanonAllConcat(a: seq<Arg>, b: seq<Arg>)
    ensures CanonAll(a + b) == CanonAll(a) + CanonAll(b)
  {}

  lemma CanonRowsCons(rows: seq<Row>)
    requires rows != []
    ensures CanonRows(rows) == [CanonRow(rows[0])] + CanonRows(rows[1..])
  {
    hide CanonRow;
  }

  lemma {:induction false} CanonAllArgs(rows: seq<Row>)
    ensures CanonAll(AllArgs(rows)) == AllArgs(CanonRows(rows))
    ensures |AllArgs(rows)| == 41 * |rows|
  {
    if rows != [] {
      assert |Args(rows[0])| == 41;
      hide Args;
      hide CanonRow;
      CanonArgs(rows[0]);
      CanonAllArgs(rows[1..]);
      CanonRowsCons(rows);
      CanonAllConcat(Args(rows[0]), AllArgs(rows[1..]));
      hide CanonAll;
      hide CanonRows;
    }
  }

  lemma {:induction false} AllArgsInjective(p: seq<Row>, q: seq<Row>)
    requires AllArgs(p) == AllArgs(q)
    ensures p == q
  {
    hide Args;
    CanonAllArgs(p);
    CanonAllArgs(q);
    if p != [] && q != [] {
      assert Args(p[0]) == AllArgs(p)[..41] == AllArgs(q)[..41] == Args(q[0]);
      assert AllArgs(p[1..]) == AllArgs(p)[41..] == AllArgs(q)[41..] == AllArgs(q[1..]);
      ArgsInjective(p[0], q[0]);
      AllArgsInjective(p[1..], q[1..]);
      assert p == [p[0]] + p[1..] && q == [q[0]] + q[1..];
    }
  }

  /** Two batches share a token exactly when their id-sorted rows agree, times compared as wrapped nanoseconds. */
  lemma TokenDetermines(p: seq<Row>, q: seq<Row>)
    ensures Token(p) == Token(q) <==> CanonRows(SortById(p)) == CanonRows(SortById(q))
  {
    hide SortById;
    EncodingUnique(AllArgs(SortById(p)), AllArgs(SortById(q)));
    CanonAllArgs(SortById(p));
    CanonAllArgs(SortById(q));
    if AllArgs(CanonRows(SortById(p))) == AllArgs(CanonRows(SortById(q))) {
      AllArgsInjective(CanonRows(SortById(p)), CanonRows(SortById(q)));
    }
  }

  predicate FitsInt64(t: Instant) {
    -0x8000_0000_0000_0000 <= t < 0x8000_0000_0000_0000
  }

  /** Times UnixNano can represent, in the years 1678 to 2262: then a token misses nothing. */
  predicate InNanoRange(r: Row) {
    && FitsInt64(r.createTime)
    && (r.executionStart.Some? ==> FitsInt64(r.executionStart.value))
    && (r.endTime.Some? ==> FitsInt64(r.endTime.value))
  }

  lemma CanonInRange(r: Row)
    ensures CanonRow(r) == r <==> InNanoRange(r)
  {}

  lemma TokenInjectiveInRange(p: seq<Row>, q: seq<Row>)
    requires (forall r | r in p :: InNanoRange(r)) && (forall r | r in q :: InNanoRange(r))
    ensures Token(p) == Token(q) <==> SortById(p) == SortById(q)
  {
    TokenDetermines(p, q);
    hide CanonRow;
    hide SortById;
    hide Token;
    SortContract(p, []);
    SortContract(q, []);
    forall i | 0 <= i < |p| ensures CanonRow(SortById(p)[i]) == SortById(p)[i] {
      assert SortById(p)[i] in multiset(SortById(p));
      assert SortById(p)[i] in p;
      CanonInRange(SortById(p)[i]);
    }
    forall i | 0 <= i < |q| ensures CanonRow(SortById(q)[i]) == SortById(q)[i] {
      assert SortById(q)[i] in multiset(SortById(q));
      assert SortById(q)[i] in q;
      CanonInRange(SortById(q)[i]);
    }
    assert CanonRows(SortById(p)) == SortById(p) && CanonRows(SortById(q)) == SortById(q);
  }

  /** Outside that range the token is blind: 2^64 ns more on a create time go unnoticed. */
  lemma TokenBlindToWrap(r: Row)
    ensures r.(createTime := r.createTime + 0x1_0000_0000_0000_0000) != r
    ensures Token([r.(createTime := r.createTime + 0x1_0000_0000_0000_0000)]) == Token([r])
  {
    var late := r.(createTime := r.createTime + 0x1_0000_0000_0000_0000);
    TokenDetermines([late], [r]);
    assert SortById([late]) == [late] && SortById([r]) == [r];
    assert CanonRow(late) == CanonRow(r);
  }

  lemma {:induction false} WithIdOfDistinct(rows: seq<Row>, id: Bytes)
    requires Distinct(rows)
    ensures forall i | 0 <= i < |rows| && Id(rows[i]) == id :: WithId(rows, id) == [rows[i]]
    ensures !HasId(rows, id) ==> WithId(rows, id) == []
  {
    if rows != [] {
      WithIdOfDistinct(rows[1..], id);
      if Id(rows[0]) == id {
        assert !HasId(rows[1..], id);
      } else {
        assert forall i | 0 < i < |rows| :: rows[i] == rows[1..][i - 1];
        assert HasId(rows[1..], id) ==> HasId(rows, id) by {
          if HasId(rows[1..], id) {
            var i :| 0 <= i < |rows| - 1 && Id(rows[1..][i]) == id;
            assert Id(rows[i + 1]) == id;
          }
        }
      }
    }
  }

  lemma PermutationHasId(p: seq<Row>, q: seq<Row>, id: Bytes)
    requires multiset(p) == multiset(q)
    ensures HasId(q, id) ==> HasId(p, id)
  {
    if HasId(q, id) {
      var j :| 0 <= j < |q| && Id(q[j]) == id;
      assert q[j] in multiset(p);
    }
  }

  lemma OccursOnce(p: seq<Row>, x: Row, y: Row)
    requires Distinct(p) && x in p && y in p && Id(x) == Id(y)
    ensures x == y && multiset(p)[x] == 1
  {
    var k :| 0 <= k < |p| && p[k] == x;
    assert p == p[..k] + [x] + p[k + 1..];
    assert x !in p[..k] && x !in p[k + 1..];
  }

  lemma OccursTwice(q: seq<Row>, i: nat, j: nat)
    requires i < j < |q| && q[i] == q[j]
    ensures multiset(q)[q[i]] >= 2
  {
    assert q == q[..i] + [q[i]] + q[i + 1..j] + [q[i]] + q[j + 1..];
  }

  lemma PermutationDistinct(p: seq<Row>, q: seq<Row>)
    requires Distinct(p) && multiset(p) == multiset(q)
    ensures Distinct(q)
  {
    forall i, j | 0 <= i < j < |q| ensures Id(q[i]) != Id(q[j]) {
      assert q[i] in multiset(q) && q[j] in multiset(q);
      assert q[i] in p && q[j] in p;
      if Id(q[i]) == Id(q[j]) {
        OccursOnce(p, q[i], q[j]);
        OccursTwice(q, i, j);
      }
    }
  }

  /** With distinct ids the token does not depend on the order of the batch. */
  lemma TokenOfPermutation(p: seq<Row>, q: seq<Row>)
    requires Distinct(p) && multiset(p) == multiset(q)
    ensures Token(p) == Token(q)
  {
    PermutationDistinct(p, q);
    forall id ensures WithId(SortById(q), id) == WithId(p, id) {
      SortContract(q, id);
      PermutationHasId(p, q, id);
      WithIdOfDistinct(p, id);
      WithIdOfDistinct(q, id);
      if HasId(p, id) {
        var i :| 0 <= i < |p| && Id(p[i]) == id;
        assert p[i] in multiset(q);
        var j :| 0 <= j < |q| && q[j] == p[i];
      }
    }
    SortContract(q, []);
    StableSortUnique(p, SortById(q));
  }

  /** Batches that share a token share an id, so chunks of a deduplicated batch never do. */
  lemma TokenSharesId(p: seq<Row>, q: seq<Row>) returns (r: Row, s: Row)
    requires p != [] && Token(p) == Token(q)
    ensures r in p && s in q && Id(r) == Id(s)
  {
    TokenDetermines(p, q);
    var a, b := SortById(p), SortById(q);
    SortContract(p, []);
    SortContract(q, []);
    assert |a| == |CanonRows(a)| == |CanonRows(b)| == |b|;
    r, s := a[0], b[0];
    assert r in multiset(a) && s in multiset(b);
    assert CanonRow(r) == CanonRows(a)[0] == CanonRows(b)[0] == CanonRow(s);
  }
}
