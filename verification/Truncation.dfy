/**
  internal/store/truncate.go: cutting a string to a byte cap on a rune
  boundary, with a marker that says how many bytes are gone.
*/
module Truncation {
  import opened ByteStrings

  /** A byte that continues a multi-byte UTF-8 sequence; utf8.RuneStart is its negation. */
  predicate Continuation(b: Byte) {
    0x80 <= b <= 0xBF
  }

  /**
    The length of the well-formed UTF-8 sequence that s starts with, 0 if there
    is none (the UTF8-1 to UTF8-4 rules in section 4 of RFC 3629).
  */
  function CharLength(s: Bytes): (n: nat)
    ensures n <= 4 && n <= |s|
    ensures forall i | 1 <= i < n :: Continuation(s[i])
    ensures n > 0 ==> !Continuation(s[0])
  {
    if s == [] then 0
    else if s[0] <= 0x7F then 1
    else if 0xC2 <= s[0] <= 0xDF && |s| >= 2 && Continuation(s[1]) then 2
    else if 0xE0 <= s[0] <= 0xEF && |s| >= 3 && Continuation(s[1]) && Continuation(s[2])
         && (s[0] == 0xE0 ==> s[1] >= 0xA0) && (s[0] == 0xED ==> s[1] <= 0x9F) then 3
    else if 0xF0 <= s[0] <= 0xF4 && |s| >= 4 && Continuation(s[1]) && Continuation(s[2]) && Continuation(s[3])
         && (s[0] == 0xF0 ==> s[1] >= 0x90) && (s[0] == 0xF4 ==> s[1] <= 0x8F) then 4
    else 0
  }

  predicate ValidUtf8(s: Bytes) {
    s == [] || (CharLength(s) > 0 && ValidUtf8(s[CharLength(s)..]))
  }

  /** The largest rune start at or below cut, or 0. */
  function RuneCut(s: Bytes, cut: int): (r: int)
    requires cut < |s|
    decreases cut
  {
    if cut > 0 && Continuation(s[cut]) then RuneCut(s, cut - 1) else cut
  }

  lemma {:induction false} RuneCutIsLargest(s: Bytes, cut: int)
    requires 0 <= cut < |s|
    ensures 0 <= RuneCut(s, cut) <= cut
    ensures RuneCut(s, cut) > 0 ==> !Continuation(s[RuneCut(s, cut)])
    ensures forall j | RuneCut(s, cut) < j <= cut :: Continuation(s[j])
  {
    if cut > 0 && Continuation(s[cut]) {
      RuneCutIsLargest(s, cut - 1);
    }
  }

  method RuneSafeCut(s: Bytes, cut: int) returns (r: int)
    requires cut < |s|
    ensures r == RuneCut(s, cut)
  {
    r := cut;
    while r > 0 && Continuation(s[r])
      invariant r <= cut
      invariant RuneCut(s, r) == RuneCut(s, cut)
    {
      r := r - 1;
    }
  }

  function MarkerText(removed: nat): (m: Bytes)
    ensures |m| == 18 + |Decimal(removed)|
    ensures forall i | 0 <= i < |m| :: m[i] <= 0x7F && m[i] != QUOTE
  {
    Ascii("[truncated ") + Decimal(removed) + Ascii(" bytes]")
  }

  /** "\n…[truncated N bytes]". */
  function Marker(removed: nat): (m: Bytes)
    ensures |m| == 22 + |Decimal(removed)|
  {
    [10, 0xE2, 0x80, 0xA6] + MarkerText(removed)
  }

  function Truncate(s: Bytes, cap: int): Bytes {
    if |s| <= cap then s
    else if cap <= 0 then []
    else
      var room := cap - |Marker(|s|)|;
      RuneCutIsLargest(s, cap);
      if room <= 0 then s[..RuneCut(s, cap)]
      else
        RuneCutIsLargest(s, room);
        var cut := RuneCut(s, room);
        s[..cut] + Marker(|s| - cut)
  }

  /**
    The result is s itself, a proper prefix (only when even the widest marker
    leaves no room), or a prefix followed by a marker naming exactly the bytes
    that are missing; the cut is the best one a rune boundary allows.
  */
  lemma TruncateShape(s: Bytes, cap: int) returns (cut: nat)
    ensures |s| <= cap || s == [] ==> Truncate(s, cap) == s
    ensures |s| > cap && s != [] && cap <= |Marker(|s|)| ==>
      BestCut(s, cap, cut) && Truncate(s, cap) == s[..cut]
    ensures |s| > cap && s != [] && cap > |Marker(|s|)| ==>
      BestCut(s, cap - |Marker(|s|)|, cut) && Truncate(s, cap) == s[..cut] + Marker(|s| - cut)
  {
    hide Marker;
    cut := 0;
    if 0 < cap < |s| {
      var room := cap - |Marker(|s|)|;
      var limit := if room > 0 then room else cap;
      RuneCutIsLargest(s, limit);
      cut := RuneCut(s, limit);
    }
  }

  /** What the marker says can be read off it: the one decimal of the number of bytes removed, in this text. */
  lemma MarkerReads(removed: nat) returns (digits: Bytes)
    ensures Marker(removed) ==
            [10, 0xE2, 0x80, 0xA6] + (Ascii("[truncated ") + (digits + Ascii(" bytes]")))
    ensures digits != [] && (forall i | 0 <= i < |digits| :: IsDigit(digits[i])) && (|digits| > 1 ==> digits[0] != 48)
    ensures DecimalValue(digits) == removed
  {
    digits := Decimal(removed);
    DecimalRoundTrip(removed);
    DecimalPlain(removed);
    hide Decimal;
    hide DecimalValue;
    Reassociate(Ascii("[truncated "), digits, Ascii(" bytes]"));
  }

  /** Wherever the cap leaves room, the result is a prefix, and behind it the number of bytes that are not in the prefix. */
  lemma TruncateReads(s: Bytes, cap: int) returns (cut: nat, digits: Bytes)
    requires 22 + |Decimal(|s|)| < cap < |s|
    ensures cut < |s| && cut + 22 + |Decimal(|s|)| <= cap
    ensures Truncate(s, cap) ==
            s[..cut] + ([10, 0xE2, 0x80, 0xA6] + (Ascii("[truncated ") + (digits + Ascii(" bytes]"))))
    ensures digits != [] && (forall i | 0 <= i < |digits| :: IsDigit(digits[i])) && (|digits| > 1 ==> digits[0] != 48)
    ensures DecimalValue(digits) == |s| - cut
  {
    hide *;
    cut := TruncateShape(s, cap);
    BestCutWithin(s, cap - |Marker(|s|)|, cut);
    digits := MarkerReads(|s| - cut);
  }

  lemma BestCutWithin(s: Bytes, limit: int, cut: nat)
    requires BestCut(s, limit, cut) && limit > 0
    ensures cut <= limit && cut < |s|
  {}

  /** cut is 0 or a rune start within the limit, and no later rune start is. */
  predicate BestCut(s: Bytes, limit: int, cut: nat) {
    && cut < |s|
    && (cut > 0 ==> cut <= limit && !Continuation(s[cut]))
    && (forall j | cut < j < |s| && j <= limit :: Continuation(s[j]))
  }

  lemma TruncateBound(s: Bytes, cap: int)
    ensures |Truncate(s, cap)| <= if cap > 0 then cap else 0
  {
    hide Marker;
    if |s| > cap && cap > 0 {
      var room := cap - |Marker(|s|)|;
      RuneCutIsLargest(s, cap);
      if room > 0 {
        RuneCutIsLargest(s, room);
        DecimalLengthMonotone(|s| - RuneCut(s, room), |s|);
      }
    }
  }

  lemma TruncateIdempotent(s: Bytes, cap: int)
    ensures Truncate(Truncate(s, cap), cap) == Truncate(s, cap)
  {
    TruncateBound(s, cap);
  }

  lemma CharLengthConcat(s: Bytes, t: Bytes)
    requires CharLength(s) > 0
    ensures CharLength(s + t) == CharLength(s)
  {
    assert forall i | 0 <= i < |s| :: (s + t)[i] == s[i];
  }

  lemma {:induction false} ValidConcat(s: Bytes, t: Bytes)
    requires ValidUtf8(s) && ValidUtf8(t)
    ensures ValidUtf8(s + t)
  {
    if s == [] {
      assert s + t == t;
    } else {
      var n := CharLength(s);
      CharLengthConcat(s, t);
      hide CharLength;
      assert (s + t)[n..] == s[n..] + t;
      ValidConcat(s[n..], t);
    }
  }

  lemma {:induction false} AsciiValid(s: Bytes)
    requires forall i | 0 <= i < |s| :: s[i] <= 0x7F
    ensures ValidUtf8(s)
  {
    if s != [] {
      AsciiValid(s[1..]);
    }
  }

  lemma MarkerValid(removed: nat)
    ensures ValidUtf8(Marker(removed))
  {
    hide MarkerText;
    var newline: Bytes, ellipsis: Bytes := [10], [0xE2, 0x80, 0xA6];
    AsciiValid(newline);
    assert CharLength(ellipsis) == 3 && ellipsis[3..] == [];
    ValidConcat(newline, ellipsis);
    AsciiValid(MarkerText(removed));
    ValidConcat(newline + ellipsis, MarkerText(removed));
    assert Marker(removed) == newline + ellipsis + MarkerText(removed);
  }

  lemma TakeThenDrop(s: Bytes, n: nat, cut: nat)
    requires n <= cut <= |s|
    ensures s[..cut][n..] == s[n..][..cut - n]
  {}

  /** A valid string cut at 0 or at a rune start is valid. */
  lemma {:induction false} CutValid(s: Bytes, cut: int)
    requires ValidUtf8(s) && 0 <= cut < |s|
    requires cut > 0 ==> !Continuation(s[cut])
    ensures ValidUtf8(s[..cut])
    decreases |s|
  {
    if cut > 0 {
      var n := CharLength(s);
      assert cut >= n;
      assert CharLength(s[..cut]) == n;
      if cut == n {
        assert s[..cut][n..] == [];
      } else {
        CutValid(s[n..], cut - n);
        TakeThenDrop(s, n, cut);
      }
    }
  }

  lemma {:induction false} RuneStartNear(s: Bytes, at: int)
    requires ValidUtf8(s) && 0 <= at < |s|
    ensures exists j | 0 <= j <= at :: at - 3 <= j && !Continuation(s[j])
    decreases |s|
  {
    var n := CharLength(s);
    if at < n {
      assert !Continuation(s[0]);
    } else {
      RuneStartNear(s[n..], at - n);
      var j :| 0 <= j <= at - n && at - n - 3 <= j && !Continuation(s[n..][j]);
      assert !Continuation(s[n + j]);
    }
  }

  lemma TruncateValid(s: Bytes, cap: int)
    requires ValidUtf8(s)
    ensures ValidUtf8(Truncate(s, cap))
  {
    hide Marker;
    hide Truncate;
    var cut := TruncateShape(s, cap);
    if |s| > cap && s != [] {
      CutValid(s, cut);
      MarkerValid(|s| - cut);
      ValidConcat(s[..cut], Marker(|s| - cut));
    }
  }

  /** Truncating valid UTF-8 keeps all the cap allows but the marker's width and at most 3 bytes of a split rune. */
  lemma TruncateLoss(s: Bytes, cap: int) returns (cut: nat)
    requires ValidUtf8(s) && 0 < cap < |s|
    ensures cut < |s| && s[..cut] <= Truncate(s, cap)
    ensures cut >= cap - |Marker(|s|)| - 3
  {
    hide Marker;
    hide Truncate;
    cut := TruncateShape(s, cap);
    var limit := if cap > |Marker(|s|)| then cap - |Marker(|s|)| else cap;
    RuneStartNear(s, limit);
    var j :| 0 <= j <= limit && limit - 3 <= j && !Continuation(s[j]);
    assert j <= cut;
  }
}
