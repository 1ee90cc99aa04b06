/**
  The statement insertChunk ships to Trino (internal/store/trino.go): the
  insert text and its arguments as one EXECUTE IMMEDIATE string, whose size the
  budget has to bound.
*/
module Statements {
  import opened ByteStrings
  import opened Sums
  import opened Rows
  import opened Chunking
  import opened Splitting

  /** A string literal's body: every single quote doubled. */
  function Doubled(s: Bytes): (r: Bytes)
    ensures |r| == |s| + QuoteCount(s)
  {
    if s == [] then []
    else (if s[0] == QUOTE then [QUOTE, QUOTE] else [s[0]]) + Doubled(s[1..])
  }

  function Join(parts: seq<Bytes>): Bytes {
    if parts == [] then []
    else if |parts| == 1 then parts[0]
    else parts[0] + [44, 32] + Join(parts[1..])
  }

  function Marks(n: nat): (r: Bytes)
    ensures |r| == 2 * n
    ensures QUOTE !in r
  {
    if n == 0 then [] else [63, 44] + Marks(n - 1)
  }

  /** rowPlaceholder: a question mark per column, without the last comma. */
  function Placeholder(): (r: Bytes)
    ensures |r| == PLACEHOLDER_LENGTH && QUOTE !in r
  {
    [40] + Marks(41)[..81] + [41]
  }

  /** The driver's timestamp literals, TIMESTAMP '...', of at most 50 bytes. */
  type TimeLiteral = f: Instant -> Bytes | forall t :: |f(t)| <= 50
    ghost witness (t: Instant) => []

  /** An argument as the driver writes it. */
  function Serial(a: Arg, literal: TimeLiteral): Bytes {
    match a
    case Str(s) => [QUOTE] + Doubled(s) + [QUOTE]
    case Num(v) => Signed(v)
    case Stamp(t) => literal(t)
    case Null => Ascii("NULL")
  }

  function Serials(args: seq<Arg>, literal: TimeLiteral): seq<Bytes> {
    seq(|args|, i requires 0 <= i < |args| => Serial(args[i], literal))
  }

  /** The query text, before the driver quotes it. */
  function InsertText(prefix: Bytes, n: nat): Bytes {
    prefix + Join(seq(n, _ => Placeholder()))
  }

  function Opening(): (r: Bytes)
    ensures |r| == 19
  {
    Ascii("EXECUTE IMMEDIATE '")
  }

  function Using(): (r: Bytes)
    ensures |r| == 7 && r[0] != QUOTE
  {
    Ascii(" USING ")
  }

  function Statement(prefix: Bytes, rows: seq<Row>, literal: TimeLiteral): Bytes {
    Opening() + Doubled(InsertText(prefix, |rows|)) + [QUOTE] + Using() + Join(Serials(AllArgs(rows), literal))
  }

  // ---------------------------------------------------------------- what the statement says

  lemma {:induction false} MarksAt(n: nat, j: nat)
    requires j < 2 * n
    ensures Marks(n)[j] == if j % 2 == 0 then 63 else 44
  {
    if j >= 2 {
      MarksAt(n - 1, j - 2);
    }
  }

  /** A group in parentheses, 41 question marks with commas between them. */
  predicate IsGroup(g: Bytes) {
    && |g| == 83 && g[0] == 40 && g[82] == 41
    && forall j | 1 <= j < 82 :: g[j] == if j % 2 == 1 then 63 else 44
  }

  lemma PlaceholderIsGroup()
    ensures IsGroup(Placeholder())
  {
    hide Marks;
    forall j: nat | j < 82 ensures Marks(41)[j] == if j % 2 == 0 then 63 else 44 {
      MarksAt(41, j);
    }
    GroupOf(Marks(41));
  }

  lemma GroupOf(marks: Bytes)
    requires |marks| == 82 && forall j: nat | j < 82 :: marks[j] == if j % 2 == 0 then 63 else 44
    ensures IsGroup([40] + marks[..81] + [41])
  {
    var g := [40] + marks[..81] + [41];
    forall j | 1 <= j < 82 ensures g[j] == if j % 2 == 1 then 63 else 44 {
      assert g[j] == marks[j - 1];
    }
  }

  lemma {:induction false} GroupAt(n: nat, i: nat)
    requires i < n
    ensures var text := Join(seq(n, _ => Placeholder()));
            && |text| == 85 * n - 2
            && text[85 * i..85 * i + 83] == Placeholder()
            && (i + 1 < n ==> text[85 * i + 83..85 * i + 85] == [44, 32])
  {
    hide Placeholder;
    var groups := seq(n, _ => Placeholder());
    if n > 1 {
      var rest := seq(n - 1, _ => Placeholder());
      assert groups[1..] == rest;
      var first := Placeholder() + [44, 32];
      assert Join(groups) == first + Join(rest);
      GroupAt(n - 1, if i == 0 then 0 else i - 1);
      hide Join;
      if i == 0 {
        FirstGroup(Placeholder(), Join(rest));
      } else {
        SliceBehind(first, Join(rest), 85 * (i - 1), 85 * (i - 1) + 83);
        if i + 1 < n {
          SliceBehind(first, Join(rest), 85 * (i - 1) + 83, 85 * (i - 1) + 85);
        }
      }
    } else {
      assert groups[0] == Placeholder();
    }
  }

  lemma FirstGroup(g: Bytes, rest: Bytes)
    requires |g| == 83
    ensures (g + [44, 32] + rest)[0..83] == g && (g + [44, 32] + rest)[83..85] == [44, 32]
  {}

  /** The query text is the prefix and one group per row, separated by a comma and a blank. */
  lemma InsertTextGroups(prefix: Bytes, n: nat, i: nat)
    requires i < n
    ensures |InsertText(prefix, n)| == |prefix| + 85 * n - 2 && InsertText(prefix, n)[..|prefix|] == prefix
    ensures var at := |prefix| + 85 * i;
            && IsGroup(InsertText(prefix, n)[at..at + 83])
            && (i + 1 < n ==> InsertText(prefix, n)[at + 83..at + 85] == [44, 32])
  {
    hide Placeholder;
    hide Join;
    hide IsGroup;
    GroupAt(n, i);
    PlaceholderIsGroup();
    var text := Join(seq(n, _ => Placeholder()));
    SliceBehind(prefix, text, 85 * i, 85 * i + 83);
    if i + 1 < n {
      SliceBehind(prefix, text, 85 * i + 83, 85 * i + 85);
    }
  }

  lemma SliceBehind(prefix: Bytes, text: Bytes, lo: nat, hi: nat)
    requires lo <= hi <= |text|
    ensures (prefix + text)[|prefix| + lo..|prefix| + hi] == text[lo..hi]
  {}

  /** TIMESTAMP literals start with a T and hold no comma. */
  ghost predicate Plain(literal: TimeLiteral) {
    forall t :: literal(t) != [] && literal(t)[0] == 84 && 44 !in literal(t)
  }

  /** Arguments that differ at most in times with the same literal. */
  predicate SameArg(a: Arg, b: Arg, literal: TimeLiteral) {
    if a.Stamp? then b.Stamp? && literal(a.t) == literal(b.t) else a == b
  }

  /** Behind an argument: nothing, or a comma. */
  predicate Rest(x: Bytes) {
    x == [] || x[0] == 44
  }

  lemma NotShorter(p: Bytes, q: Bytes, x: Bytes, y: Bytes)
    requires 44 !in q && Rest(x) && p + x == q + y
    ensures |p| >= |q|
  {
    if x != [] {
      assert (p + x)[|p|] == 44;
    }
  }

  lemma CommaFreePrefix(p: Bytes, q: Bytes, x: Bytes, y: Bytes)
    requires 44 !in p && 44 !in q && Rest(x) && Rest(y) && p + x == q + y
    ensures p == q && x == y
  {
    NotShorter(p, q, x, y);
    NotShorter(q, p, y, x);
    CancelPrefix(p, q, x, y);
  }

  /** The body of a string literal ends at its first single quote that is not doubled. */
  lemma {:induction false} DoubledPrefix(s: Bytes, t: Bytes, x: Bytes, y: Bytes)
    requires Doubled(s) + ([QUOTE] + x) == Doubled(t) + ([QUOTE] + y)
    requires (x == [] || x[0] != QUOTE) && (y == [] || y[0] != QUOTE)
    ensures s == t && x == y
  {
    DoubledHead(s, [QUOTE] + x);
    DoubledHead(t, [QUOTE] + y);
    if s == [] && t == [] {
      assert ([QUOTE] + x)[1..] == x && ([QUOTE] + y)[1..] == y;
    } else if s != [] && t != [] {
      hide Doubled;
      DoubledPrefix(s[1..], t[1..], x, y);
      assert s == [s[0]] + s[1..] && t == [t[0]] + t[1..];
    }
  }

  lemma DoubledHead(s: Bytes, z: Bytes)
    ensures s == [] ==> Doubled(s) + z == z
    ensures s != [] && s[0] == QUOTE ==>
              |Doubled(s) + z| >= 2 && (Doubled(s) + z)[0] == (Doubled(s) + z)[1] == QUOTE
              && (Doubled(s) + z)[2..] == Doubled(s[1..]) + z
    ensures s != [] && s[0] != QUOTE ==>
              |Doubled(s) + z| >= 1 && (Doubled(s) + z)[0] == s[0]
              && (Doubled(s) + z)[1..] == Doubled(s[1..]) + z
  {
    if s != [] {
      var head: Bytes := if s[0] == QUOTE then [QUOTE, QUOTE] else [s[0]];
      assert Doubled(s) == head + Doubled(s[1..]);
      hide Doubled;
      Reassociate(head, Doubled(s[1..]), z);
    }
  }

  lemma SerialHead(a: Arg, literal: TimeLiteral)
    requires Plain(literal)
    ensures Serial(a, literal) != []
    ensures match a
            case Str(_) => Serial(a, literal)[0] == QUOTE
            case Num(_) => Serial(a, literal)[0] == 45 || IsDigit(Serial(a, literal)[0])
            case Stamp(_) => Serial(a, literal)[0] == 84
            case Null => Serial(a, literal)[0] == 78
    ensures !a.Str? ==> 44 !in Serial(a, literal)
  {
    hide Doubled;
  }

  lemma SignedText(v: int, w: int)
    requires Signed(v) == Signed(w)
    ensures v == w
  {
    SignedPrefix(v, w, 44, [], []);
  }

  /** A serialized argument can be read off the front of the USING list. */
  lemma SerialPrefix(a: Arg, b: Arg, literal: TimeLiteral, x: Bytes, y: Bytes)
    requires Plain(literal) && Rest(x) && Rest(y)
    requires Serial(a, literal) + x == Serial(b, literal) + y
    ensures SameArg(a, b, literal) && x == y
  {
    SerialHead(a, literal);
    SerialHead(b, literal);
    var p, q := Serial(a, literal), Serial(b, literal);
    assert p[0] == (p + x)[0] == (q + y)[0] == q[0];
    hide Doubled;
    hide Signed;
    if a.Str? {
      assert b.Str?;
      StrSerialPrefix(a.s, b.s, literal, x, y);
    } else {
      assert !b.Str?;
      CommaFreePrefix(p, q, x, y);
      if a.Num? && b.Num? {
        SignedText(a.v, b.v);
      }
    }
  }

  lemma StrSerialThen(s: Bytes, literal: TimeLiteral, x: Bytes)
    ensures Serial(Str(s), literal) + x == [QUOTE] + (Doubled(s) + ([QUOTE] + x))
  {
    hide Doubled;
    Reassociate([QUOTE] + Doubled(s), [QUOTE], x);
    Reassociate([QUOTE], Doubled(s), [QUOTE] + x);
  }

  lemma StrSerialPrefix(s: Bytes, t: Bytes, literal: TimeLiteral, x: Bytes, y: Bytes)
    requires Rest(x) && Rest(y) && Serial(Str(s), literal) + x == Serial(Str(t), literal) + y
    ensures s == t && x == y
  {
    StrSerialThen(s, literal, x);
    StrSerialThen(t, literal, y);
    hide Serial;
    hide Doubled;
    CancelPrefix([QUOTE], [QUOTE], Doubled(s) + ([QUOTE] + x), Doubled(t) + ([QUOTE] + y));
    DoubledPrefix(s, t, x, y);
  }

  /** A USING list is its first argument and the rest. */
  lemma JoinHead(args: seq<Arg>, literal: TimeLiteral) returns (rest: Bytes)
    requires args != [] && Plain(literal)
    ensures Rest(rest) && Join(Serials(args, literal)) == Serial(args[0], literal) + rest
    ensures |args| == 1 <==> rest == []
    ensures |args| > 1 ==> rest == [44, 32] + Join(Serials(args[1..], literal))
  {
    hide Serial;
    var parts := Serials(args, literal);
    assert parts[1..] == Serials(args[1..], literal);
    if |args| == 1 {
      rest := [];
    } else {
      rest := [44, 32] + Join(parts[1..]);
      hide Join;
      assert parts[0] + [44, 32] + Join(parts[1..]) == parts[0] + rest;
    }
  }

  /** So the list can be read back, up to what its time literals leave out. */
  lemma {:induction false} UsingReads(a: seq<Arg>, b: seq<Arg>, literal: TimeLiteral)
    requires Plain(literal) && Join(Serials(a, literal)) == Join(Serials(b, literal))
    ensures |a| == |b| && forall i | 0 <= i < |a| :: SameArg(a[i], b[i], literal)
  {
    hide Serial;
    hide SameArg;
    if a == [] || b == [] {
      if a != [] {
        var x := JoinHead(a, literal);
        SerialHead(a[0], literal);
      }
      if b != [] {
        var y := JoinHead(b, literal);
        SerialHead(b[0], literal);
      }
    } else {
      var x := JoinHead(a, literal);
      var y := JoinHead(b, literal);
      hide Join;
      hide Plain;
      SerialPrefix(a[0], b[0], literal, x, y);
      if |a| > 1 {
        CancelPrefix([44, 32], [44, 32], Join(Serials(a[1..], literal)), Join(Serials(b[1..], literal)));
        UsingReads(a[1..], b[1..], literal);
        assert a == [a[0]] + a[1..] && b == [b[0]] + b[1..];
      }
    }
  }

  lemma {:induction false} AllArgsAt(rows: seq<Row>, i: nat, j: nat)
    requires i < |rows| && j < 41
    ensures |AllArgs(rows)| == 41 * |rows| && AllArgs(rows)[41 * i + j] == Args(rows[i])[j]
  {
    hide Args;
    AllArgsLength(rows);
    if i > 0 {
      AllArgsLength(rows[1..]);
      AllArgsAt(rows[1..], i - 1, j);
      assert AllArgs(rows)[41 * i + j] == AllArgs(rows[1..])[41 * (i - 1) + j];
    }
  }

  lemma {:induction false} AllArgsLength(rows: seq<Row>)
    ensures |AllArgs(rows)| == 41 * |rows|
  {
    hide Args;
    if rows != [] {
      AllArgsLength(rows[1..]);
    }
  }

  /** Rows that differ at most in times with the same literal. */
  predicate SameRow(r: Row, q: Row, literal: TimeLiteral) {
    && r.text == q.text && r.counters == q.counters
    && literal(r.createTime) == literal(q.createTime)
    && SameArg(TimeArg(r.executionStart), TimeArg(q.executionStart), literal)
    && SameArg(TimeArg(r.endTime), TimeArg(q.endTime), literal)
  }

  lemma SameArgsRow(r: Row, q: Row, literal: TimeLiteral)
    requires forall j: nat | j < 41 :: SameArg(Args(r)[j], Args(q)[j], literal)
    ensures SameRow(r, q, literal)
  {
    ArgsColumns(r);
    ArgsColumns(q);
    hide Args;
    forall i: nat | i < TEXT_FIELDS ensures r.text[i] == q.text[i] {
      assert SameArg(Args(r)[TextColumn(i)], Args(q)[TextColumn(i)], literal);
    }
    forall i: nat | i < COUNTER_FIELDS ensures r.counters[i] == q.counters[i] {
      assert SameArg(Args(r)[15 + i], Args(q)[15 + i], literal);
    }
    assert SameArg(Args(r)[12], Args(q)[12], literal);
    assert SameArg(Args(r)[13], Args(q)[13], literal);
    assert SameArg(Args(r)[14], Args(q)[14], literal);
  }

  lemma StatementParts(prefix: Bytes, rows: seq<Row>, literal: TimeLiteral)
    ensures Statement(prefix, rows, literal) ==
            Opening() + (Doubled(InsertText(prefix, |rows|)) + ([QUOTE] + (Using()
            + Join(Serials(AllArgs(rows), literal)))))
  {
    hide Doubled;
    hide InsertText;
    hide Join;
    hide AllArgs;
    hide Serials;
    hide Opening;
    hide Using;
    InFive(Opening(), Doubled(InsertText(prefix, |rows|)), [QUOTE], Using(),
           Join(Serials(AllArgs(rows), literal)));
  }

  lemma InFive(a: Bytes, b: Bytes, c: Bytes, d: Bytes, e: Bytes)
    ensures a + b + c + d + e == a + (b + (c + (d + e)))
  {
    Reassociate(a + b + c, d, e);
    Reassociate(a + b, c, d + e);
    Reassociate(a, b, c + (d + e));
  }

  lemma BetweenQuotes(head: Bytes, using: Bytes, s: Bytes, t: Bytes, x: Bytes, y: Bytes)
    requires using != [] && using[0] != QUOTE
    requires head + (Doubled(s) + ([QUOTE] + (using + x))) == head + (Doubled(t) + ([QUOTE] + (using + y)))
    ensures s == t && x == y
  {
    hide Doubled;
    CancelPrefix(head, head, Doubled(s) + ([QUOTE] + (using + x)), Doubled(t) + ([QUOTE] + (using + y)));
    DoubledPrefix(s, t, using + x, using + y);
    CancelPrefix(using, using, x, y);
  }

  /** The statement determines its rows, up to what the time literals leave out: nothing in a string can pass for syntax. */
  lemma StatementReads(prefix: Bytes, p: seq<Row>, q: seq<Row>, literal: TimeLiteral)
    requires Plain(literal) && Statement(prefix, p, literal) == Statement(prefix, q, literal)
    ensures |p| == |q| && forall i | 0 <= i < |p| :: SameRow(p[i], q[i], literal)
  {
    StatementParts(prefix, p, literal);
    StatementParts(prefix, q, literal);
    var x, y := Join(Serials(AllArgs(p), literal)), Join(Serials(AllArgs(q), literal));
    var s, t := InsertText(prefix, |p|), InsertText(prefix, |q|);
    hide Statement;
    hide InsertText;
    hide Join;
    hide Serials;
    hide AllArgs;
    hide Doubled;
    hide Plain;
    hide SameRow;
    hide Opening;
    hide Using;
    BetweenQuotes(Opening(), Using(), s, t, x, y);
    UsingReads(AllArgs(p), AllArgs(q), literal);
    AllArgsLength(p);
    AllArgsLength(q);
    hide SameArg;
    forall i | 0 <= i < |p| ensures SameRow(p[i], q[i], literal) {
      RowReads(p, q, i, literal);
    }
  }

  lemma RowReads(p: seq<Row>, q: seq<Row>, i: nat, literal: TimeLiteral)
    requires i < |p| == |q| && |AllArgs(p)| == |AllArgs(q)|
    requires forall j | 0 <= j < |AllArgs(p)| :: SameArg(AllArgs(p)[j], AllArgs(q)[j], literal)
    ensures SameRow(p[i], q[i], literal)
  {
    hide AllArgs;
    hide Args;
    hide SameArg;
    hide SameRow;
    forall j: nat | j < 41 ensures SameArg(Args(p[i])[j], Args(q[i])[j], literal) {
      AllArgsAt(p, i, j);
      AllArgsAt(q, i, j);
      assert SameArg(AllArgs(p)[41 * i + j], AllArgs(q)[41 * i + j], literal);
    }
    SameArgsRow(p[i], q[i], literal);
  }

  // ---------------------------------------------------------------- how long it is

  function PartLength(s: Bytes): int {
    |s| + 2
  }

  lemma {:induction false} JoinLength(parts: seq<Bytes>)
    requires parts != []
    ensures |Join(parts)| == Sum(parts, PartLength) - 2
  {
    if |parts| > 1 {
      JoinLength(parts[1..]);
    } else {
      assert parts[1..] == [];
    }
  }

  lemma {:induction false} GroupsLength(n: nat)
    requires n > 0
    ensures |Join(seq(n, _ => Placeholder()))| == n * (PLACEHOLDER_LENGTH + 2) - 2
    ensures QUOTE !in Join(seq(n, _ => Placeholder()))
  {
    var groups := seq(n, _ => Placeholder());
    if n > 1 {
      assert groups[1..] == seq(n - 1, _ => Placeholder());
      GroupsLength(n - 1);
    }
  }

  /** estimateArgBytes bounds what an argument and its separator occupy. */
  lemma SerialBound(a: Arg, literal: TimeLiteral)
    ensures PartLength(Serial(a, literal)) <= EstimateArg(a)
  {
    if a.Num? {
      assert Pow10(5) == 100_000;
      assert Pow10(10) == 10_000_000_000;
      assert Pow10(15) == 1_000_000_000_000_000;
      assert Pow10(19) == 10_000_000_000_000_000_000;
      var magnitude: int := if a.v < 0 then -(a.v as int) else a.v;
      DecimalWidth(magnitude, 19);
    }
  }

  lemma {:induction false} SerialsBound(args: seq<Arg>, literal: TimeLiteral)
    ensures Sum(Serials(args, literal), PartLength) <= Sum(args, EstimateArg)
  {
    if args != [] {
      SerialBound(args[0], literal);
      assert Serials(args, literal)[1..] == Serials(args[1..], literal);
      SerialsBound(args[1..], literal);
    }
  }

  lemma {:induction false} AllArgsEstimate(rows: seq<Row>)
    ensures Sum(rows, RowBytes) == |rows| * (PLACEHOLDER_LENGTH + 2) + Sum(AllArgs(rows), EstimateArg)
    ensures rows != [] ==> AllArgs(rows) != []
  {
    if rows != [] {
      SumConcat(Args(rows[0]), AllArgs(rows[1..]), EstimateArg);
      AllArgsEstimate(rows[1..]);
    }
  }

  /** A statement is no longer than its framing plus the estimates of its rows. */
  lemma StatementBound(prefix: Bytes, rows: seq<Row>, literal: TimeLiteral)
    requires rows != []
    ensures |Statement(prefix, rows, literal)| <= StmtOverhead(prefix) + Sum(rows, RowBytes)
  {
    var groups := Join(seq(|rows|, _ => Placeholder()));
    GroupsLength(|rows|);
    QuoteCountConcat(prefix, groups);
    NoQuotes(groups);
    AllArgsEstimate(rows);
    JoinLength(Serials(AllArgs(rows), literal));
    SerialsBound(AllArgs(rows), literal);
  }

  /**
    Every statement built from a SplitBatch chunk is within MaxStatementBytes,
    provided the framing leaves at least the minimum budget.
  */
  lemma StatementsFit(b: Backend, rows: seq<Row>, i: nat, literal: TimeLiteral)
    requires b.Trino? && Splittable(b, rows) && i < |Split(b, rows)|
    requires b.maxStmtBytes - StmtOverhead(b.insertPrefix) >= MIN_STATEMENT_BUDGET
    ensures |Statement(b.insertPrefix, Split(b, rows)[i], literal)| <= b.maxStmtBytes
  {
    SplitKeepsRows(b, rows);
    TrinoChunksFit(b, rows, i);
    assert Split(b, rows)[i] in Split(b, rows);
    hide Statement;
    hide Split;
    StatementBound(b.insertPrefix, Split(b, rows)[i], literal);
  }
}
