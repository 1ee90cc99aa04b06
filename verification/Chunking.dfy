/**
  chunkRows of internal/store/chunk.go: greedy, order-preserving packing of
  rows into chunks under a size budget.
*/
module Chunking {
  import opened Sums

  function Flatten<T>(cs: seq<seq<T>>): seq<T> {
    if cs == [] then [] else cs[0] + Flatten(cs[1..])
  }

  lemma {:induction false} FlattenConcat<T>(a: seq<seq<T>>, b: seq<seq<T>>)
    ensures Flatten(a + b) == Flatten(a) + Flatten(b)
  {
    if a == [] {
      assert a + b == b;
    } else {
      assert (a + b)[1..] == a[1..] + b;
      FlattenConcat(a[1..], b);
    }
  }

  lemma SliceToEnd<T>(s: seq<T>, k: nat)
    requires k <= |s|
    ensures s[k..|s|] == s[k..]
  {}

  lemma FlattenSplit<T>(cs: seq<seq<T>>, k: nat)
    requires k <= |cs|
    ensures Flatten(cs) == Flatten(cs[..k]) + Flatten(cs[k..])
  {
    hide Flatten;
    FlattenConcat(cs[..k], cs[k..]);
    assert cs == cs[..k] + cs[k..];
  }

  lemma FlattenSnoc<T>(cs: seq<seq<T>>, c: seq<T>)
    ensures Flatten(cs + [c]) == Flatten(cs) + c
  {
    FlattenConcat(cs, [c]);
    assert Flatten([c]) == c;
  }

  lemma FlattenNext<T>(cs: seq<seq<T>>, k: nat)
    requires k < |cs|
    ensures Flatten(cs[..k + 1]) == Flatten(cs[..k]) + cs[k]
  {
    FlattenSnoc(cs[..k], cs[k]);
    assert cs[..k + 1] == cs[..k] + [cs[k]];
  }

  /** The chunks still to come when cur is the open chunk and rows are unread. */
  function ChunksFrom<T>(cur: seq<T>, rows: seq<T>, budget: int, estimate: T -> int): seq<seq<T>>
    decreases |rows|
  {
    if rows == [] then
      if cur == [] then [] else [cur]
    else if cur != [] && Sum(cur, estimate) + estimate(rows[0]) > budget then
      [cur] + ChunksFrom([rows[0]], rows[1..], budget, estimate)
    else
      ChunksFrom(cur + [rows[0]], rows[1..], budget, estimate)
  }

  function ChunksOf<T>(rows: seq<T>, budget: int, estimate: T -> int): seq<seq<T>> {
    ChunksFrom([], rows, budget, estimate)
  }

  method ChunkRows<T>(rows: seq<T>, budget: int, estimate: T -> int) returns (chunks: seq<seq<T>>)
    ensures chunks == ChunksOf(rows, budget, estimate)
  {
    chunks := [];
    var cur: seq<T> := [];
    var size := 0;
    for i := 0 to |rows|
      invariant size == Sum(cur, estimate)
      invariant chunks + ChunksFrom(cur, rows[i..], budget, estimate) == ChunksOf(rows, budget, estimate)
    {
      var r := rows[i];
      assert rows[i..][0] == r && rows[i..][1..] == rows[i + 1..];
      var n := estimate(r);
      SumSnoc(cur, r, estimate);
      if |cur| > 0 && size + n > budget {
        chunks := chunks + [cur];
        cur, size := [], 0;
      }
      assert cur == [] ==> cur + [r] == [r];
      cur := cur + [r];
      size := size + n;
    }
    if |cur| > 0 {
      chunks := chunks + [cur];
    }
  }

  // ---------------------------------------------------------------- what the chunks are

  /** A chunk every row of which, after the first, was let in by the budget. */
  predicate Packed<T>(c: seq<T>, budget: int, estimate: T -> int) {
    c != [] && forall j | 1 <= j < |c| :: Sum(c[..j], estimate) + estimate(c[j]) <= budget
  }

  /** Packed chunks, none of which had room for the next one's first row. */
  predicate Greedy<T>(cs: seq<seq<T>>, budget: int, estimate: T -> int) {
    && (forall i | 0 <= i < |cs| :: Packed(cs[i], budget, estimate))
    && (forall i | 0 < i < |cs| :: Sum(cs[i - 1], estimate) + estimate(cs[i][0]) > budget)
  }

  lemma PackedSnoc<T>(cur: seq<T>, x: T, budget: int, estimate: T -> int)
    requires cur == [] || (Packed(cur, budget, estimate) && Sum(cur, estimate) + estimate(x) <= budget)
    ensures Packed(cur + [x], budget, estimate)
  {
    var more := cur + [x];
    forall j | 1 <= j < |more| ensures Sum(more[..j], estimate) + estimate(more[j]) <= budget {
      assert more[..j] == if j < |cur| then cur[..j] else cur;
    }
  }

  lemma GreedyCons<T>(c: seq<T>, rest: seq<seq<T>>, budget: int, estimate: T -> int)
    requires Packed(c, budget, estimate) && Greedy(rest, budget, estimate)
    requires rest != [] ==> Sum(c, estimate) + estimate(rest[0][0]) > budget
    ensures Greedy([c] + rest, budget, estimate)
    ensures Flatten([c] + rest) == c + Flatten(rest)
  {
    assert ([c] + rest)[1..] == rest;
    hide Sum;
  }

  lemma {:induction false} ChunksFromGreedy<T>(cur: seq<T>, rows: seq<T>, budget: int, estimate: T -> int)
    requires cur == [] || Packed(cur, budget, estimate)
    ensures Greedy(ChunksFrom(cur, rows, budget, estimate), budget, estimate)
    ensures Flatten(ChunksFrom(cur, rows, budget, estimate)) == cur + rows
    ensures cur != [] ==> ChunksFrom(cur, rows, budget, estimate) != [] && cur <= ChunksFrom(cur, rows, budget, estimate)[0]
    decreases |rows|
  {
    if rows == [] {
      if cur != [] {
        GreedyCons(cur, [], budget, estimate);
      }
    } else {
      var x, later := rows[0], rows[1..];
      assert rows == [x] + later && cur + rows == cur + [x] + later;
      if cur != [] && Sum(cur, estimate) + estimate(x) > budget {
        assert ChunksFrom(cur, rows, budget, estimate) == [cur] + ChunksFrom([x], later, budget, estimate);
        PackedSnoc([], x, budget, estimate);
        assert [] + [x] == [x];
        hide ChunksFrom;
        hide Greedy;
        hide Flatten;
        hide Packed;
        hide Sum;
        ChunksFromGreedy([x], later, budget, estimate);
        GreedyCons(cur, ChunksFrom([x], later, budget, estimate), budget, estimate);
      } else {
        assert ChunksFrom(cur, rows, budget, estimate) == ChunksFrom(cur + [x], later, budget, estimate);
        hide ChunksFrom;
        hide Greedy;
        hide Flatten;
        PackedSnoc(cur, x, budget, estimate);
        hide Packed;
        hide Sum;
        ChunksFromGreedy(cur + [x], later, budget, estimate);
      }
    }
  }

  /** ChunkRows packs greedily and loses, adds and moves nothing. */
  lemma ChunksGreedy<T>(rows: seq<T>, budget: int, estimate: T -> int)
    ensures Greedy(ChunksOf(rows, budget, estimate), budget, estimate)
    ensures Flatten(ChunksOf(rows, budget, estimate)) == rows
  {
    ChunksFromGreedy([], rows, budget, estimate);
    assert [] + rows == rows;
  }

  lemma {:induction false} GreedyFrom<T>(cur: seq<T>, cs: seq<seq<T>>, budget: int, estimate: T -> int)
    requires Greedy(cs, budget, estimate) && cs != [] && cur <= cs[0]
    ensures ChunksFrom(cur, cs[0][|cur|..] + Flatten(cs[1..]), budget, estimate) == cs
    decreases |cs|, |cs[0]| - |cur|
  {
    var c, later := cs[0], Flatten(cs[1..]);
    var rows := c[|cur|..] + later;
    if |cur| < |c| {
      var j := |cur|;
      assert c[..j] == cur;
      assert rows[0] == c[j] && rows[1..] == c[j + 1..] + later;
      hide Flatten;
      GreedyFrom(cur + [c[j]], cs, budget, estimate);
    } else {
      assert cur == c && rows == later;
      if |cs| > 1 {
        GreedyNext(cs, budget, estimate);
        GreedyFrom([cs[1][0]], cs[1..], budget, estimate);
        hide Flatten;
        hide Greedy;
        assert [cs[0]] + cs[1..] == cs;
      }
    }
  }

  /** Between two chunks, the next chunk's first row opens it. */
  lemma GreedyNext<T>(cs: seq<seq<T>>, budget: int, estimate: T -> int)
    requires Greedy(cs, budget, estimate) && |cs| > 1
    ensures Greedy(cs[1..], budget, estimate)
    ensures cs[1] != [] && Flatten(cs[1..]) == [cs[1][0]] + (cs[1][1..] + Flatten(cs[1..][1..]))
    ensures Sum(cs[0], estimate) + estimate(cs[1][0]) > budget && cs[0] != []
  {
    assert Packed(cs[0], budget, estimate) && Packed(cs[1], budget, estimate);
    SliceToEnd(cs, 1);
    GreedySlice(cs, 1, |cs|, budget, estimate);
    hide Sum;
    assert cs[1] == [cs[1][0]] + cs[1][1..];
  }

  lemma GreedySlice<T>(cs: seq<seq<T>>, lo: nat, hi: nat, budget: int, estimate: T -> int)
    requires lo <= hi <= |cs| && Greedy(cs, budget, estimate)
    ensures Greedy(cs[lo..hi], budget, estimate)
  {
    forall i | 0 < i < hi - lo
      ensures Sum(cs[lo..hi][i - 1], estimate) + estimate(cs[lo..hi][i][0]) > budget
    {
      assert Packed(cs[lo + i], budget, estimate);
      assert cs[lo..hi][i] == cs[lo + i] && cs[lo..hi][i - 1] == cs[lo + i - 1];
    }
  }

  /** There is only one greedy packing of a row sequence: the one ChunkRows returns. */
  lemma GreedyUnique<T>(cs: seq<seq<T>>, budget: int, estimate: T -> int)
    requires Greedy(cs, budget, estimate)
    ensures ChunksOf(Flatten(cs), budget, estimate) == cs
  {
    if cs != [] {
      GreedyFrom([], cs, budget, estimate);
      assert cs[0][0..] == cs[0];
    }
  }

  /** Chunking what any run of consecutive chunks held gives those chunks again. */
  lemma ChunksStable<T>(rows: seq<T>, budget: int, estimate: T -> int, lo: nat, hi: nat)
    requires lo <= hi <= |ChunksOf(rows, budget, estimate)|
    ensures ChunksOf(Flatten(ChunksOf(rows, budget, estimate)[lo..hi]), budget, estimate)
            == ChunksOf(rows, budget, estimate)[lo..hi]
  {
    ChunksGreedy(rows, budget, estimate);
    GreedySlice(ChunksOf(rows, budget, estimate), lo, hi, budget, estimate);
    GreedyUnique(ChunksOf(rows, budget, estimate)[lo..hi], budget, estimate);
  }

  // ---------------------------------------------------------------- optimality

  /** A split into non-empty chunks that fit the budget or are a single row. */
  predicate Feasible<T>(cs: seq<seq<T>>, budget: int, estimate: T -> int) {
    forall i | 0 <= i < |cs| :: cs[i] != [] && (|cs[i]| == 1 || Sum(cs[i], estimate) <= budget)
  }

  predicate NonNegative<T>(rows: seq<T>, estimate: T -> int) {
    forall i | 0 <= i < |rows| :: 0 <= estimate(rows[i])
  }

  lemma {:induction false} SumNonNegative<T>(rows: seq<T>, estimate: T -> int)
    requires NonNegative(rows, estimate)
    ensures Sum(rows, estimate) >= 0
  {
    if rows != [] {
      SumNonNegative(rows[1..], estimate);
    }
  }

  lemma PackedFits<T>(c: seq<T>, budget: int, estimate: T -> int)
    requires Packed(c, budget, estimate)
    ensures |c| == 1 || Sum(c, estimate) <= budget
  {
    var n := |c| - 1;
    SumSnoc(c[..n], c[n], estimate);
    assert c[..n] + [c[n]] == c;
  }

  /** Greedy stays ahead: behind a head start it never needs more chunks than a feasible split. */
  lemma {:induction false} GreedyAhead<T>(start: seq<T>, gs: seq<seq<T>>, ps: seq<seq<T>>, budget: int, estimate: T -> int)
    requires Greedy(gs, budget, estimate) && Feasible(ps, budget, estimate)
    requires Flatten(ps) == start + Flatten(gs)
    requires NonNegative(Flatten(ps), estimate)
    ensures |gs| <= |ps|
    decreases |ps|
  {
    if gs != [] {
      var g, p := gs[0], ps[0];
      var reached := |start| + |g|;
      var rows := Flatten(ps);
      assert rows == p + Flatten(ps[1..]);
      assert rows == start + (g + Flatten(gs[1..]));
      assert |p| <= reached by {
        if reached < |p| {
          assert p <= rows && NonNegative(p, estimate);
          NextRow(gs, budget, estimate);
          FirstChunkMaximal(start, g, Flatten(gs[1..]), p, budget, estimate);
        }
      }
      var ahead := rows[|p|..reached];
      assert Flatten(ps[1..]) == rows[|p|..] == ahead + rows[reached..];
      assert rows[reached..] == Flatten(gs[1..]);
      GreedySlice(gs, 1, |gs|, budget, estimate);
      GreedyAhead(ahead, gs[1..], ps[1..], budget, estimate);
    }
  }

  /** A chunk holding start, the first greedy chunk and one more row does not fit. */
  lemma FirstChunkMaximal<T>(start: seq<T>, g: seq<T>, later: seq<T>, p: seq<T>, budget: int, estimate: T -> int)
    requires g != [] && (later != [] ==> Sum(g, estimate) + estimate(later[0]) > budget)
    requires NonNegative(p, estimate)
    requires |start| + |g| < |p| && p <= start + (g + later)
    ensures |p| > 1 && Sum(p, estimate) > budget
  {
    var reached := |start| + |g|;
    PrefixPast(start, g, later, p);
    hide NonNegative;
    hide Sum;
    SumMiddle(start, g, p[reached], p[reached + 1..], estimate);
  }

  /** A prefix that reaches past start and g. */
  lemma PrefixPast<T>(start: seq<T>, g: seq<T>, later: seq<T>, p: seq<T>)
    requires p <= start + (g + later) && |start| + |g| < |p|
    ensures later != [] && p[|start| + |g|] == later[0]
    ensures p == start + g + ([p[|start| + |g|]] + p[|start| + |g| + 1..])
  {
    var all := start + (g + later);
    assert all == start + g + later;
    assert p[|start| + |g|] == all[|start| + |g|];
  }

  lemma SumMiddle<T>(start: seq<T>, g: seq<T>, x: T, rest: seq<T>, estimate: T -> int)
    requires NonNegative(start + g + ([x] + rest), estimate)
    ensures Sum(start + g + ([x] + rest), estimate) >= Sum(g, estimate) + estimate(x)
  {
    var all := start + g + ([x] + rest);
    assert all[..|start|] == start && all[|start + g| + 1..] == rest;
    SumNonNegative(start, estimate);
    SumNonNegative(rest, estimate);
    SumConcat(start + g, [x] + rest, estimate);
    SumConcat(start, g, estimate);
    assert ([x] + rest)[1..] == rest;
  }

  /** The first row of the second greedy chunk had no room in the first. */
  lemma NextRow<T>(gs: seq<seq<T>>, budget: int, estimate: T -> int)
    requires Greedy(gs, budget, estimate) && gs != []
    ensures |gs[0]| > 0
    ensures |gs| == 1 ==> Flatten(gs[1..]) == []
    ensures |gs| > 1 ==> Flatten(gs[1..]) != [] && Sum(gs[0], estimate) + estimate(Flatten(gs[1..])[0]) > budget
  {
    assert Packed(gs[0], budget, estimate);
    if |gs| > 1 {
      assert Packed(gs[1], budget, estimate);
      assert Flatten(gs[1..]) == gs[1] + Flatten(gs[1..][1..]);
    }
  }

  /** ChunkRows yields a feasible split with the fewest chunks of all feasible splits. */
  lemma ChunksOptimal<T>(rows: seq<T>, budget: int, estimate: T -> int, other: seq<seq<T>>)
    requires NonNegative(rows, estimate)
    requires Feasible(other, budget, estimate) && Flatten(other) == rows
    ensures Feasible(ChunksOf(rows, budget, estimate), budget, estimate)
    ensures |ChunksOf(rows, budget, estimate)| <= |other|
  {
    var cs := ChunksOf(rows, budget, estimate);
    ChunksGreedy(rows, budget, estimate);
    forall i | 0 <= i < |cs| ensures cs[i] != [] && (|cs[i]| == 1 || Sum(cs[i], estimate) <= budget) {
      PackedFits(cs[i], budget, estimate);
    }
    assert rows == [] + Flatten(cs);
    GreedyAhead([], cs, other, budget, estimate);
  }
}
