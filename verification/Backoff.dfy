/** The waits between a flush's attempts (internal/ingest/buffer.go). */
module Backoff {
  import opened Rows
  import opened Sums

  datatype Config = Config(maxRetries: nat, retryBackoff: Int64, retryMaxBackoff: Int64)

  /** The timer of the k-th retry, doubling in an int64. */
  function Wait(cfg: Config, k: nat): Int64 {
    if k == 0 then cfg.retryBackoff
    else Min(Wrap64(Wait(cfg, k - 1) * 2), cfg.retryMaxBackoff)
  }

  /** Exponential backoff with a cap, as documented. */
  function CappedBackoff(cfg: Config, k: nat): int {
    Min(cfg.retryBackoff * Pow2(k), cfg.retryMaxBackoff)
  }

  lemma {:induction false} Pow2Positive(k: nat)
    ensures Pow2(k) >= 1
  {
    if k > 0 {
      Pow2Positive(k - 1);
    }
  }

  lemma ScaledPow2(b: int, k: nat)
    requires b > 0
    ensures b * Pow2(k) >= b
    ensures b * Pow2(k + 1) == 2 * (b * Pow2(k))
  {
    Pow2Positive(k);
    var p := Pow2(k);
    assert Pow2(k + 1) == 2 * p;
    assert b * (2 * p) == 2 * (b * p);
  }

  lemma CappedBackoffDoubles(cfg: Config, k: nat)
    requires 0 < cfg.retryBackoff <= cfg.retryMaxBackoff
    ensures 0 < CappedBackoff(cfg, k) <= CappedBackoff(cfg, k + 1) <= cfg.retryMaxBackoff
    ensures CappedBackoff(cfg, k + 1) == Min(2 * CappedBackoff(cfg, k), cfg.retryMaxBackoff)
  {
    ScaledPow2(cfg.retryBackoff, k);
    hide Pow2;
  }

  /** Doubling a positive int64: exact below 2^62, negative from there on. */
  lemma WrapDouble(v: Int64)
    requires v > 0
    ensures if v < 0x4000_0000_0000_0000 then Wrap64(v * 2) == v * 2 else Wrap64(v * 2) < 0
  {}

  /**
    The waits up to the k-th follow the documented formula exactly when no
    doubling before it leaves the int64 range: the wait before it is below 2^62 ns
    (146 years), as it always is when the cap is.
  */
  lemma {:induction false} WaitsFollowFormula(cfg: Config, k: nat)
    requires 0 < cfg.retryBackoff <= cfg.retryMaxBackoff
    ensures (forall j: nat | j <= k :: Wait(cfg, j) == CappedBackoff(cfg, j))
            <==> (k == 0 || CappedBackoff(cfg, k - 1) < 0x4000_0000_0000_0000)
    ensures cfg.retryMaxBackoff < 0x4000_0000_0000_0000 ==> Wait(cfg, k) == CappedBackoff(cfg, k)
  {
    if k == 0 {
      assert cfg.retryBackoff * Pow2(0) == cfg.retryBackoff;
    } else {
      hide Wrap64;
      hide CappedBackoff;
      WaitsFollowFormula(cfg, k - 1);
      CappedBackoffDoubles(cfg, k - 1);
      if k >= 2 {
        CappedBackoffDoubles(cfg, k - 2);
      }
      var before := CappedBackoff(cfg, k - 1);
      if Wait(cfg, k - 1) == before {
        WrapDouble(before);
        assert Wait(cfg, k) == CappedBackoff(cfg, k) <==> before < 0x4000_0000_0000_0000;
      }
    }
  }

  /** A configuration that breaks the formula: with 2^62 ns for both settings the second wait is negative. */
  lemma WaitOverflows()
    ensures var cfg := Config(2, 0x4000_0000_0000_0000, 0x4000_0000_0000_0000);
            Wait(cfg, 1) < 0 && CappedBackoff(cfg, 1) == 0x4000_0000_0000_0000
  {
    assert Pow2(1) == 2 * Pow2(0);
  }

  function Waits(cfg: Config, n: nat): seq<int> {
    seq(n, k requires 0 <= k < n => Wait(cfg, k))
  }

  /** How long a timer really waits: a negative one fires at once. */
  function Elapsed(timer: int): int {
    Max(0, timer)
  }

  lemma {:induction false} WaitsSum(cfg: Config, n: nat)
    requires 0 <= cfg.retryBackoff <= cfg.retryMaxBackoff
    ensures Sum(Waits(cfg, n), Elapsed) <= n * cfg.retryMaxBackoff
  {
    if n > 0 {
      hide Wrap64;
      assert Waits(cfg, n) == Waits(cfg, n - 1) + [Wait(cfg, n - 1)];
      assert Wait(cfg, n - 1) <= cfg.retryMaxBackoff;
      hide Wait;
      hide Waits;
      WaitsSum(cfg, n - 1);
      SumSnoc(Waits(cfg, n - 1), Wait(cfg, n - 1), Elapsed);
      var c: int := cfg.retryMaxBackoff;
      assert n * c == (n - 1) * c + c;
    }
  }

  /** All the waiting of one flush together, even where a doubling overflows. */
  lemma TotalWait(cfg: Config, n: nat)
    requires 0 < cfg.retryBackoff <= cfg.retryMaxBackoff && n <= cfg.maxRetries
    ensures Sum(Waits(cfg, n), Elapsed) <= cfg.maxRetries * cfg.retryMaxBackoff
  {
    WaitsSum(cfg, n);
    ProductMonotone(n, cfg.maxRetries, cfg.retryMaxBackoff);
  }

  lemma ProductMonotone(a: nat, b: nat, c: nat)
    requires a <= b
    ensures a * c <= b * c
  {
    assert b * c == a * c + (b - a) * c;
  }
}
