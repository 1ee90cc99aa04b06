/**
  (*TrinoStore).clampRow of internal/store/trino.go: shrink the largest string
  of a row until the row's estimate fits the statement budget, within an
  iteration cap.
*/
module Clamping {
  import opened ByteStrings
  import opened Sums
  import opened Truncation
  import opened Rows

  const CLAMP_MAX_ITERATIONS := 1000

  predicate Pointers(text: seq<Bytes>, fields: seq<nat>) {
    fields != [] && forall j | 0 <= j < |fields| :: fields[j] < |text|
  }

  /** The position clampRow's inner loop holds after the first n of a list of field pointers. */
  function LargestAmong(text: seq<Bytes>, fields: seq<nat>, n: nat): (k: nat)
    requires Pointers(text, fields) && 1 <= n <= |fields|
    ensures k < |text|
  {
    if n == 1 then fields[0]
    else
      var best := LargestAmong(text, fields, n - 1);
      if |text[fields[n - 1]]| > |text[best]| then fields[n - 1] else best
  }

  function LargestField(text: seq<Bytes>): (k: nat)
    requires |text| == TEXT_FIELDS
    ensures k < TEXT_FIELDS
  {
    FieldLists();
    LargestAmong(text, STRING_FIELDS, |STRING_FIELDS|)
  }

  method FindLargest(text: seq<Bytes>) returns (largest: nat)
    requires |text| == TEXT_FIELDS
    ensures largest == LargestField(text)
  {
    FieldLists();
    var fields := STRING_FIELDS;
    largest := fields[0];
    for n := 1 to |fields|
      invariant largest == LargestAmong(text, fields, n)
    {
      if |text[fields[n]]| > |text[largest]| {
        largest := fields[n];
      }
    }
  }

  /** The w-th pointer is the first of the first n that is as long as any of them. */
  predicate FirstLongest(text: seq<Bytes>, fields: seq<nat>, w: nat, n: nat)
    requires Pointers(text, fields) && w < n <= |fields|
  {
    && (forall j | 0 <= j < w :: |text[fields[j]]| < |text[fields[w]]|)
    && (forall j | w < j < n :: |text[fields[j]]| <= |text[fields[w]]|)
  }

  /** The victim is the first longest field in pointer order, so with stringFields the payloads win ties. */
  lemma {:induction false} LargestAmongWins(text: seq<Bytes>, fields: seq<nat>, n: nat) returns (w: nat)
    requires Pointers(text, fields) && 1 <= n <= |fields|
    ensures w < n && fields[w] == LargestAmong(text, fields, n) && FirstLongest(text, fields, w, n)
  {
    w := 0;
    if n > 1 {
      w := LargestAmongWins(text, fields, n - 1);
      if |text[fields[n - 1]]| > |text[fields[w]]| {
        w := n - 1;
      }
    }
  }

  lemma LargestFieldIsLargest(text: seq<Bytes>)
    requires |text| == TEXT_FIELDS
    ensures forall i | 0 <= i < TEXT_FIELDS :: |text[i]| <= |text[LargestField(text)]|
  {
    FieldLists();
    var w := LargestAmongWins(text, STRING_FIELDS, |STRING_FIELDS|);
    forall i: nat | i < TEXT_FIELDS ensures |text[i]| <= |text[LargestField(text)]| {
      assert i in STRING_FIELDS;
      var j :| 0 <= j < |STRING_FIELDS| && STRING_FIELDS[j] == i;
    }
  }

  /** The cap one iteration puts on the largest field. */
  function Target(r: Row, budget: int): int {
    var length := |r.text[LargestField(r.text)]|;
    Max(length - (RowBytes(r) - budget), length / 2)
  }

  /** One iteration's assignment through the pointer to the largest field. */
  function Shrink(r: Row, budget: int): Row {
    var k := LargestField(r.text);
    r.(text := r.text[k := Truncate(r.text[k], Target(r, budget))])
  }

  /** The loop with so many iterations left. */
  function ClampFrom(r: Row, budget: int, left: nat): Row
    decreases left
  {
    if RowBytes(r) <= budget || left == 0 || r.text[LargestField(r.text)] == [] then r
    else
      var next := Shrink(r, budget);
      if RowBytes(next) >= RowBytes(r) then next else ClampFrom(next, budget, left - 1)
  }

  function Clamp(r: Row, budget: int): Row {
    ClampFrom(r, budget, CLAMP_MAX_ITERATIONS)
  }

  method ClampRow(row: Row, budget: int) returns (r: Row)
    ensures r == Clamp(row, budget)
  {
    hide RowBytes;
    hide LargestField;
    hide Truncate;
    r := row;
    var est := EstimateRowBytes(r);
    var i := 0;
    while est > budget && i < CLAMP_MAX_ITERATIONS
      invariant i <= CLAMP_MAX_ITERATIONS && est == RowBytes(r)
      invariant ClampFrom(r, budget, CLAMP_MAX_ITERATIONS - i) == Clamp(row, budget)
    {
      var largest := FindLargest(r.text);
      if r.text[largest] == [] {
        break;
      }
      var target := Max(|r.text[largest]| - (est - budget), |r.text[largest]| / 2);
      r := r.(text := r.text[largest := Truncate(r.text[largest], target)]);
      var next := EstimateRowBytes(r);
      if next >= est {
        return;
      }
      est := next;
      i := i + 1;
    }
  }

  // ---------------------------------------------------------------- one iteration

  lemma TruncateCost(s: Bytes, cap: int)
    ensures QuoteCount(Truncate(s, cap)) <= QuoteCount(s)
    ensures 0 <= cap < |s| ==> TextCost(Truncate(s, cap)) <= TextCost(s) - (|s| - cap)
  {
    hide Marker;
    hide Truncate;
    var cut := TruncateShape(s, cap);
    TruncateBound(s, cap);
    if |s| > cap && s != [] {
      QuoteCountConcat(s[..cut], s[cut..]);
      assert s == s[..cut] + s[cut..];
      QuoteCountConcat(s[..cut], Marker(|s| - cut));
      MarkerUnquoted(|s| - cut);
    }
  }

  lemma MarkerUnquoted(removed: nat)
    ensures QuoteCount(Marker(removed)) == 0
  {
    hide MarkerText;
    var head: Bytes := [10, 0xE2, 0x80, 0xA6];
    NoQuotes(head);
    NoQuotes(MarkerText(removed));
    QuoteCountConcat(head, MarkerText(removed));
  }

  lemma RowBytesSplit(r: Row)
    ensures RowBytes(r) == RowBytes(Emptied(r)) + Sum(r.text, TextCost)
    ensures RowBytes(Emptied(r)) <= 769
  {
    ArgsBytesSplit(r);
  }

  /**
    An iteration on a row over budget strictly lowers the estimate (so the
    `next >= est` exit is dead), and either reaches the budget or at least
    halves the largest field.
  */
  lemma ShrinkProgress(r: Row, budget: int)
    requires RowBytes(r) > budget && r.text[LargestField(r.text)] != []
    ensures RowBytes(Shrink(r, budget)) < RowBytes(r)
    ensures RowBytes(Shrink(r, budget)) <= budget
         || |Shrink(r, budget).text[LargestField(r.text)]| <= |r.text[LargestField(r.text)]| / 2
    ensures Emptied(Shrink(r, budget)) == Emptied(r)
  {
    var k, out := LargestField(r.text), Shrink(r, budget);
    RowBytesSplit(r);
    RowBytesSplit(out);
    assert Emptied(out) == Emptied(r);
    TruncateCost(r.text[k], Target(r, budget));
    TruncateBound(r.text[k], Target(r, budget));
    SumUpdate(r.text, k, out.text[k], TextCost);
  }

  /**
    Nor does it cut more than it must: of the victim it keeps a prefix of all but
    the deficit, or of half if that is more, less the marker and a split rune.
  */
  lemma ShrinkKeepsMost(r: Row, budget: int) returns (cut: nat)
    requires RowBytes(r) > budget && ValidUtf8(r.text[LargestField(r.text)])
    ensures var k := LargestField(r.text);
            var s, deficit := r.text[k], RowBytes(r) - budget;
            && cut <= |s| && s[..cut] <= Shrink(r, budget).text[k]
            && cut >= |s| - deficit - |Marker(|s|)| - 3
            && cut >= |s| / 2 - |Marker(|s|)| - 3
            && forall i | 0 <= i < TEXT_FIELDS && i != k :: Shrink(r, budget).text[i] == r.text[i]
  {
    hide Marker;
    hide Truncate;
    hide RowBytes;
    var s, target := r.text[LargestField(r.text)], Target(r, budget);
    cut := 0;
    if 0 < target < |s| {
      cut := TruncateLoss(s, target);
    }
  }

  // ---------------------------------------------------------------- the whole loop

  /** How often a length can be halved before it is 0. */
  function Halvings(n: nat): nat {
    if n == 0 then 0 else 1 + Halvings(n / 2)
  }

  lemma {:induction false} HalvingsBound(n: nat, k: nat)
    requires n < Pow2(k)
    ensures Halvings(n) <= k
  {
    if n > 0 {
      HalvingsBound(n / 2, k - 1);
    }
  }

  lemma {:induction false} HalvingsMonotone(m: nat, n: nat)
    requires m <= n
    ensures Halvings(m) <= Halvings(n)
  {
    if m > 0 {
      HalvingsMonotone(m / 2, n / 2);
    }
  }

  function FieldHalvings(s: Bytes): int {
    Halvings(|s|)
  }

  /** What the theorem asks of a row: strings shorter than 2^47 bytes, the size of a process's address space. */
  predicate Addressable(r: Row) {
    forall i | 0 <= i < |r.text| :: |r.text[i]| < Pow2(47)
  }

  lemma AddressableHalvings(r: Row)
    requires Addressable(r)
    ensures Sum(r.text, FieldHalvings) <= 987
  {
    forall i | 0 <= i < |r.text| ensures 0 <= FieldHalvings(r.text[i]) <= 47 {
      HalvingsBound(|r.text[i]|, 47);
    }
    SumBounds(r.text, FieldHalvings, 0, 47);
  }

  /**
    With more iterations left than halvings in the row, the loop meets its goal
    with iterations to spare: more of them would change nothing.
  */
  lemma {:induction false} ClampFromGoal(r: Row, budget: int, left: nat, more: nat)
    requires Sum(r.text, FieldHalvings) < left <= more
    ensures RowBytes(ClampFrom(r, budget, left)) <= Max(budget, RowBytes(Emptied(r)))
    ensures ClampFrom(r, budget, more) == ClampFrom(r, budget, left)
    decreases left
  {
    hide RowBytes;
    hide LargestField;
    hide Truncate;
    hide FieldHalvings;
    SumHalvingsNonNegative(r.text);
    if RowBytes(r) > budget {
      var k := LargestField(r.text);
      if r.text[k] == [] {
        LargestFieldIsLargest(r.text);
        assert r.text == Emptied(r).text;
      } else {
        var out := Shrink(r, budget);
        ShrinkProgress(r, budget);
        if RowBytes(out) > budget {
          HalvingsDrop(r.text, k, out.text[k]);
          ClampFromGoal(out, budget, left - 1, more - 1);
        }
      }
    }
  }

  lemma HalvingsDrop(text: seq<Bytes>, k: nat, shorter: Bytes)
    requires k < |text| && text[k] != [] && |shorter| <= |text[k]| / 2
    ensures Sum(text[k := shorter], FieldHalvings) < Sum(text, FieldHalvings)
  {
    HalvingsMonotone(|shorter|, |text[k]| / 2);
    SumUpdate(text, k, shorter, FieldHalvings);
  }

  lemma {:induction false} SumHalvingsNonNegative(text: seq<Bytes>)
    ensures Sum(text, FieldHalvings) >= 0
  {
    if text != [] {
      SumHalvingsNonNegative(text[1..]);
    }
  }

  /**
    clampRow meets its goal, the budget or all that emptying the strings can do,
    and meets it before the iteration cap: any cap from 988 on gives the same row.
  */
  lemma ClampMeetsGoal(r: Row, budget: int)
    requires Addressable(r)
    ensures RowBytes(Clamp(r, budget)) <= Max(budget, RowBytes(Emptied(r)))
    ensures budget >= 769 ==> RowBytes(Clamp(r, budget)) <= budget
    ensures forall cap: nat | cap >= 988 :: ClampFrom(r, budget, cap) == Clamp(r, budget)
  {
    AddressableHalvings(r);
    ClampFromGoal(r, budget, 988, CLAMP_MAX_ITERATIONS);
    RowBytesSplit(r);
    forall cap: nat | cap >= 988 ensures ClampFrom(r, budget, cap) == Clamp(r, budget) {
      ClampFromGoal(r, budget, 988, cap);
    }
  }

  /** What every step of the loop keeps: non-string columns, lengths at most as before, valid UTF-8. */
  lemma {:induction false} ClampFromKeeps(r: Row, budget: int, left: nat)
    ensures Emptied(ClampFrom(r, budget, left)) == Emptied(r)
    ensures forall j | 0 <= j < TEXT_FIELDS :: |ClampFrom(r, budget, left).text[j]| <= |r.text[j]|
    ensures forall j | 0 <= j < TEXT_FIELDS && ValidUtf8(r.text[j]) :: ValidUtf8(ClampFrom(r, budget, left).text[j])
    decreases left
  {
    hide RowBytes;
    hide LargestField;
    hide Truncate;
    if RowBytes(r) <= budget || left == 0 || r.text[LargestField(r.text)] == [] {
    } else {
      var k, next := LargestField(r.text), Shrink(r, budget);
      ShrinkProgress(r, budget);
      TruncateBound(r.text[k], Target(r, budget));
      if ValidUtf8(r.text[k]) {
        TruncateValid(r.text[k], Target(r, budget));
      }
      ClampFromKeeps(next, budget, left - 1);
    }
  }

  /** Clamping a clamped row changes nothing; a row within the budget is never touched. */
  lemma ClampStable(r: Row, budget: int)
    requires Addressable(r)
    ensures Clamp(Clamp(r, budget), budget) == Clamp(r, budget)
    ensures RowBytes(r) <= budget ==> Clamp(r, budget) == r
  {
    var out := Clamp(r, budget);
    if RowBytes(out) > budget {
      ClampMeetsGoal(r, budget);
      ClampFromKeeps(r, budget, CLAMP_MAX_ITERATIONS);
      RowBytesSplit(out);
      AllEmpty(out.text, LargestField(out.text));
    }
  }

  // ---------------------------------------------------------------- what the loop does to the row

  /** The first longest string in pointer order. */
  predicate Victim(text: seq<Bytes>, k: nat) {
    && k < |text| && Pointers(text, STRING_FIELDS)
    && exists w: nat | w < |STRING_FIELDS| ::
         STRING_FIELDS[w] == k && FirstLongest(text, STRING_FIELDS, w, |STRING_FIELDS|)
  }

  /**
    One iteration, seen from outside: the first longest string in pointer order
    is truncated by the deficit or to half, whichever keeps more; all else stays.
  */
  predicate Shrunk(r: Row, budget: int, next: Row) {
    exists k: nat | k < TEXT_FIELDS && Victim(r.text, k) ::
      next == r.(text := r.text[k := Truncate(r.text[k], Max(|r.text[k]| - (RowBytes(r) - budget), |r.text[k]| / 2))])
  }

  /** Rows of which each but the last is over budget and followed by its one-iteration shrinking. */
  predicate Chain(rs: seq<Row>, budget: int) {
    && rs != []
    && (forall i | 0 <= i < |rs| - 1 :: RowBytes(rs[i]) > budget && Shrunk(rs[i], budget, rs[i + 1]))
  }

  lemma ShrinkIsShrunk(r: Row, budget: int)
    ensures Shrunk(r, budget, Shrink(r, budget))
  {
    hide Victim;
    hide LargestField;
    hide RowBytes;
    hide Truncate;
    LargestIsVictim(r.text);
    ShrinkIs(r, budget);
    hide Shrink;
    hide Max;
  }

  lemma ShrinkIs(r: Row, budget: int)
    ensures var k := LargestField(r.text);
            Shrink(r, budget) ==
            r.(text := r.text[k := Truncate(r.text[k], Max(|r.text[k]| - (RowBytes(r) - budget), |r.text[k]| / 2))])
  {
    hide LargestField;
    hide RowBytes;
    hide Truncate;
    hide Max;
  }

  lemma LargestIsVictim(text: seq<Bytes>)
    requires |text| == TEXT_FIELDS
    ensures Victim(text, LargestField(text))
  {
    FieldLists();
    var w := LargestAmongWins(text, STRING_FIELDS, |STRING_FIELDS|);
    hide FirstLongest;
    hide LargestAmong;
  }

  lemma ChainCons(r: Row, rs: seq<Row>, budget: int)
    requires Chain(rs, budget) && RowBytes(r) > budget && Shrunk(r, budget, rs[0])
    ensures Chain([r] + rs, budget)
  {
    hide RowBytes;
    hide Shrunk;
    var all := [r] + rs;
    forall i | 0 <= i < |all| - 1 ensures RowBytes(all[i]) > budget && Shrunk(all[i], budget, all[i + 1]) {
      if i > 0 {
        assert all[i] == rs[i - 1] && all[i + 1] == rs[i];
      }
    }
  }

  /** The loop takes only such steps, and stops at the budget, at an empty row, or at the cap. */
  lemma {:induction false} ClampFromChain(r: Row, budget: int, left: nat) returns (rs: seq<Row>)
    ensures Chain(rs, budget) && rs[0] == r && rs[|rs| - 1] == ClampFrom(r, budget, left)
    ensures |rs| <= left + 1
    ensures var out := ClampFrom(r, budget, left);
            RowBytes(out) <= budget || out == Emptied(r) || |rs| == left + 1
    decreases left
  {
    hide RowBytes;
    hide LargestField;
    hide Truncate;
    hide Shrunk;
    rs := [r];
    if RowBytes(r) > budget && left > 0 {
      var k := LargestField(r.text);
      if r.text[k] == [] {
        LargestFieldIsLargest(r.text);
        assert r.text == Emptied(r).text;
      } else {
        ShrinkProgress(r, budget);
        ShrinkIsShrunk(r, budget);
        var rest := ClampFromChain(Shrink(r, budget), budget, left - 1);
        ChainCons(r, rest, budget);
        rs := [r] + rest;
      }
    }
  }

  /**
    clampRow from outside: a chain of such steps leads from the row to the
    result, each from a row over budget, and ends within the budget or with
    nothing left to cut; the iteration cap never matters.
  */
  lemma ClampChain(r: Row, budget: int) returns (rs: seq<Row>)
    ensures Chain(rs, budget) && rs[0] == r && rs[|rs| - 1] == Clamp(r, budget)
    ensures |rs| <= CLAMP_MAX_ITERATIONS + 1
    ensures RowBytes(Clamp(r, budget)) <= budget || Clamp(r, budget) == Emptied(r) || |rs| == CLAMP_MAX_ITERATIONS + 1
    ensures Addressable(r) ==> RowBytes(Clamp(r, budget)) <= budget || Clamp(r, budget) == Emptied(r)
  {
    rs := ClampFromChain(r, budget, CLAMP_MAX_ITERATIONS);
    if Addressable(r) && RowBytes(Clamp(r, budget)) > budget {
      ClampToEmpty(r, budget);
    }
  }

  lemma ClampToEmpty(r: Row, budget: int)
    requires Addressable(r) && RowBytes(Clamp(r, budget)) > budget
    ensures Clamp(r, budget) == Emptied(r)
  {
    var out := Clamp(r, budget);
    ClampMeetsGoal(r, budget);
    ClampFromKeeps(r, budget, CLAMP_MAX_ITERATIONS);
    RowBytesSplit(out);
    hide RowBytes;
    hide Clamp;
    forall k: nat | k < TEXT_FIELDS ensures out.text[k] == [] {
      AllEmpty(out.text, k);
    }
    assert out.text == Emptied(r).text;
  }

  /** A row whose excess is at most half of its longest string loses exactly the excess from that string, and nothing else. */
  lemma ClampOnce(r: Row, budget: int, k: nat)
    requires k < TEXT_FIELDS && Victim(r.text, k)
    requires 0 < RowBytes(r) - budget <= |r.text[k]| - |r.text[k]| / 2
    ensures Clamp(r, budget) == r.(text := r.text[k := Truncate(r.text[k], |r.text[k]| - (RowBytes(r) - budget))])
  {
    VictimIsLargest(r.text, k);
    hide Victim;
    hide LargestField;
    hide RowBytes;
    hide Truncate;
    hide Clamp;
    assert Target(r, budget) == |r.text[k]| - (RowBytes(r) - budget);
    OneIterationFits(r, budget);
    ClampedByOne(r, budget);
  }

  /** What is left of it, if it was valid UTF-8: all but the excess, the marker and a split rune. */
  lemma ClampOnceKeeps(r: Row, budget: int, k: nat) returns (cut: nat)
    requires k < TEXT_FIELDS && Victim(r.text, k)
    requires 0 < RowBytes(r) - budget <= |r.text[k]| - |r.text[k]| / 2
    requires ValidUtf8(r.text[k]) && RowBytes(r) - budget < |r.text[k]|
    ensures cut <= |r.text[k]| && cut >= |r.text[k]| - (RowBytes(r) - budget) - |Marker(|r.text[k]|)| - 3
    ensures r.text[k][..cut] <= Clamp(r, budget).text[k]
  {
    hide *;
    ClampOnce(r, budget, k);
    cut := TruncateLoss(r.text[k], |r.text[k]| - (RowBytes(r) - budget));
  }

  lemma VictimIsLargest(text: seq<Bytes>, k: nat)
    requires |text| == TEXT_FIELDS && Victim(text, k)
    ensures LargestField(text) == k
  {
    FieldLists();
    var w: nat :| w < |STRING_FIELDS| && STRING_FIELDS[w] == k && FirstLongest(text, STRING_FIELDS, w, |STRING_FIELDS|);
    FirstLongestUnique(text, STRING_FIELDS, w);
  }

  lemma OneIterationFits(r: Row, budget: int)
    requires var s := r.text[LargestField(r.text)]; 0 < RowBytes(r) - budget <= |s| - |s| / 2
    ensures RowBytes(Shrink(r, budget)) <= budget
  {
    var k, next := LargestField(r.text), Shrink(r, budget);
    RowBytesSplit(r);
    RowBytesSplit(next);
    hide RowBytes;
    hide LargestField;
    hide Truncate;
    hide TextCost;
    assert Emptied(next) == Emptied(r);
    TruncateCost(r.text[k], Target(r, budget));
    SumUpdate(r.text, k, next.text[k], TextCost);
  }

  lemma ClampedByOne(r: Row, budget: int)
    requires RowBytes(r) > budget && RowBytes(Shrink(r, budget)) <= budget && r.text[LargestField(r.text)] != []
    ensures Clamp(r, budget) == Shrink(r, budget)
  {
    hide RowBytes;
    hide LargestField;
    hide Shrink;
    ClampWithin(Shrink(r, budget), budget, CLAMP_MAX_ITERATIONS - 1);
  }

  lemma ClampWithin(r: Row, budget: int, left: nat)
    requires RowBytes(r) <= budget
    ensures ClampFrom(r, budget, left) == r
  {}

  lemma FirstLongestUnique(text: seq<Bytes>, fields: seq<nat>, w: nat)
    requires Pointers(text, fields) && w < |fields| && FirstLongest(text, fields, w, |fields|)
    ensures LargestAmong(text, fields, |fields|) == fields[w]
  {
    var v := LargestAmongWins(text, fields, |fields|);
    assert v == w;
  }

  /** A row whose strings cost nothing has only empty strings. */
  lemma {:induction false} AllEmpty(text: seq<Bytes>, k: nat)
    requires k < |text| && Sum(text, TextCost) <= 0
    ensures text[k] == []
  {
    SumUpdate(text, k, [], TextCost);
    SumTextNonNegative(text[k := []]);
  }

  lemma {:induction false} SumTextNonNegative(text: seq<Bytes>)
    ensures Sum(text, TextCost) >= 0
  {
    if text != [] {
      SumTextNonNegative(text[1..]);
    }
  }
}
