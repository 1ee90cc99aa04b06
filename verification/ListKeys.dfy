/**
  listKey of internal/store/cache.go: the canonical string of a list filter, and
  which filters share one.
*/
module ListKeys {
  import opened ByteStrings
  import opened Rows
  import opened Quoting

  datatype Filter = Filter(
    since: Instant, until: Instant,
    user: Bytes, catalog: Bytes, state: Bytes, sort: Bytes,
    desc: bool, limit: int, offset: int)

  const SECOND: int := 1_000_000_000
  const ZERO_TIME: Instant := -62_135_596_800 * SECOND  // the zero time.Time, 1 January of year 1

  /** time.Time.Sub: saturates at the range of a Duration. */
  function Sub(t: Instant, u: Instant): Int64 {
    if t - u > 0x7FFF_FFFF_FFFF_FFFF then 0x7FFF_FFFF_FFFF_FFFF
    else if t - u < -0x8000_0000_0000_0000 then -0x8000_0000_0000_0000
    else t - u
  }

  /** time.Time.Truncate: down to a multiple of d since the zero time. */
  function TruncateTime(t: Instant, d: Int64): Instant {
    if d <= 0 then t else t - (t - ZERO_TIME) % d
  }

  /** What a key depends on besides the filter: the list TTL, and which runes %q leaves alone. */
  datatype Keys = Keys(ttl: Int64, printable: Printable)

  function BucketUntil(k: Keys, f: Filter): Instant {
    TruncateTime(f.until, k.ttl)
  }

  function BucketSince(k: Keys, f: Filter): Instant {
    BucketUntil(k, f) + Wrap64(0 - Sub(f.until, f.since) as int)
  }

  function Unix(t: Instant): int {
    t / SECOND
  }

  const BAR: Byte := 124

  function Truth(b: bool): (r: Bytes)
    ensures BAR !in r
  {
    if b then [116, 114, 117, 101] else [102, 97, 108, 115, 101]
  }

  /** sort|desc|limit|offset */
  function KeyTail(f: Filter): Bytes {
    ((f.sort + ([BAR] + Truth(f.desc))) + ([BAR] + Signed(f.limit))) + ([BAR] + Signed(f.offset))
  }

  /** listKey's canonical string; the SHA-256 of it is taken to be injective. */
  function ListKey(k: Keys, f: Filter): Bytes {
    Signed(Unix(BucketSince(k, f))) + ([BAR] +
    (Signed(Unix(BucketUntil(k, f))) + ([BAR] +
    (Quoted(k.printable, f.user) + ([BAR] + (Quoted(k.printable, f.catalog) + ([BAR] +
    (Quoted(k.printable, f.state) + ([BAR] + KeyTail(f))))))))))
  }

  lemma BarThen(x: Bytes, y: Bytes)
    requires [BAR] + x == [BAR] + y
    ensures x == y
  {
    assert ([BAR] + x)[1..] == x && ([BAR] + y)[1..] == y;
  }

  /** A bar-free last field can be cut off the end. */
  lemma LastField(x: Bytes, y: Bytes, a: Bytes, b: Bytes)
    requires BAR !in a && BAR !in b && x + ([BAR] + a) == y + ([BAR] + b)
    ensures x == y && a == b
  {
    var s, t := x + ([BAR] + a), y + ([BAR] + b);
    assert s[|x|] == BAR && t[|y|] == BAR;
    assert |x| == |y|;
    assert x == s[..|x|] && y == t[..|y|] && a == s[|x| + 1..] && b == t[|y| + 1..];
  }

  lemma SignedHasNoBar(v: int)
    ensures BAR !in Signed(v)
  {}

  lemma SignedUnique(v: int, w: int)
    requires Signed(v) == Signed(w)
    ensures v == w
  {
    SignedPrefix(v, w, BAR, [], []);
  }

  /** Sort is written without quotes, yet the fields behind it cannot be mistaken for part of it. */
  lemma KeyTailUnique(f: Filter, g: Filter)
    requires KeyTail(f) == KeyTail(g)
    ensures f.sort == g.sort && f.desc == g.desc && f.limit == g.limit && f.offset == g.offset
  {
    hide Signed;
    SignedHasNoBar(f.limit);
    SignedHasNoBar(g.limit);
    SignedHasNoBar(f.offset);
    SignedHasNoBar(g.offset);
    var a, b := f.sort + ([BAR] + Truth(f.desc)), g.sort + ([BAR] + Truth(g.desc));
    LastField(a + ([BAR] + Signed(f.limit)), b + ([BAR] + Signed(g.limit)), Signed(f.offset), Signed(g.offset));
    LastField(a, b, Signed(f.limit), Signed(g.limit));
    LastField(f.sort, g.sort, Truth(f.desc), Truth(g.desc));
    SignedUnique(f.limit, g.limit);
    SignedUnique(f.offset, g.offset);
  }

  predicate SameSearch(f: Filter, g: Filter) {
    && f.user == g.user && f.catalog == g.catalog && f.state == g.state
    && f.sort == g.sort && f.desc == g.desc && f.limit == g.limit && f.offset == g.offset
  }

  /** Equal keys are equal in all that is printed into them, and in nothing less. */
  lemma ListKeyUnique(k: Keys, f: Filter, g: Filter)
    ensures ListKey(k, f) == ListKey(k, g) <==>
              && SameSearch(f, g)
              && Unix(BucketUntil(k, f)) == Unix(BucketUntil(k, g))
              && Unix(BucketSince(k, f)) == Unix(BucketSince(k, g))
  {
    hide Signed;
    hide Quoted;
    hide KeyTail;
    hide Unix;
    hide BucketUntil;
    hide BucketSince;
    if ListKey(k, f) == ListKey(k, g) {
      var p := k.printable;
      var z, z' := KeyTail(f), KeyTail(g);
      var y, y' := Quoted(p, f.state) + ([BAR] + z), Quoted(p, g.state) + ([BAR] + z');
      var x, x' := Quoted(p, f.catalog) + ([BAR] + y), Quoted(p, g.catalog) + ([BAR] + y');
      var w, w' := Quoted(p, f.user) + ([BAR] + x), Quoted(p, g.user) + ([BAR] + x');
      var v, v' := Signed(Unix(BucketUntil(k, f))) + ([BAR] + w), Signed(Unix(BucketUntil(k, g))) + ([BAR] + w');
      SignedPrefix(Unix(BucketSince(k, f)), Unix(BucketSince(k, g)), BAR, v, v');
      SignedPrefix(Unix(BucketUntil(k, f)), Unix(BucketUntil(k, g)), BAR, w, w');
      QuotedPrefix(p, f.user, g.user, [BAR] + x, [BAR] + x');
      BarThen(x, x');
      QuotedPrefix(p, f.catalog, g.catalog, [BAR] + y, [BAR] + y');
      BarThen(y, y');
      QuotedPrefix(p, f.state, g.state, [BAR] + z, [BAR] + z');
      BarThen(z, z');
      KeyTailUnique(f, g);
    }
    if SameSearch(f, g) {
      SameTail(f, g);
    }
  }

  lemma SameTail(f: Filter, g: Filter)
    requires SameSearch(f, g)
    ensures KeyTail(f) == KeyTail(g)
  {}

  // ---------------------------------------------------------------- windows

  lemma UnixNear(t: Instant, u: Instant)
    requires Unix(t) == Unix(u)
    ensures -SECOND < t - u < SECOND
  {}

  /** The bucket's end is a multiple of the TTL since the zero time, at most a TTL before the window's end. */
  lemma BucketBounds(k: Keys, f: Filter)
    requires k.ttl > 0
    ensures BucketUntil(k, f) <= f.until < BucketUntil(k, f) + k.ttl
    ensures BucketUntil(k, f) == ZERO_TIME + (f.until - ZERO_TIME) / k.ttl * k.ttl
  {}

  /** The edges: no TTL, no bucket; and widths outside a Duration are saturated, the most negative one even negated. */
  lemma BucketEdges(k: Keys, f: Filter)
    ensures k.ttl <= 0 ==> BucketUntil(k, f) == f.until
    ensures var width := f.until - f.since;
            BucketSince(k, f) - BucketUntil(k, f) ==
              if width >= 0x8000_0000_0000_0000 then -0x7FFF_FFFF_FFFF_FFFF
              else if width <= -0x8000_0000_0000_0000 then -0x8000_0000_0000_0000
              else -width
  {}

  /** Different multiples of d are at least d apart. */
  lemma MultiplesFar(m: int, n: int, d: int)
    requires d > 0 && m > n
    ensures m * d - n * d >= d
  {
    assert m * d - n * d == d + (m - n - 1) * d;
    assert (m - n - 1) * d >= 0;
  }

  lemma MultiplesApart(m: int, n: int, d: int)
    requires d > 0 && -d < m * d - n * d < d
    ensures m == n
  {
    if m > n {
      MultiplesFar(m, n, d);
    } else if m < n {
      MultiplesFar(n, m, d);
    }
  }

  /** With a TTL of a second or more, one key has one bucket, so ends lie less than a TTL apart. */
  lemma ListKeyBucket(k: Keys, f: Filter, g: Filter)
    requires k.ttl >= SECOND && ListKey(k, f) == ListKey(k, g)
    ensures BucketUntil(k, f) == BucketUntil(k, g)
    ensures -k.ttl < f.until - g.until < k.ttl
  {
    ListKeyUnique(k, f, g);
    UnixNear(BucketUntil(k, f), BucketUntil(k, g));
    BucketBounds(k, f);
    BucketBounds(k, g);
    hide ListKey;
    hide BucketUntil;
    hide BucketSince;
    MultiplesApart((f.until - ZERO_TIME) / k.ttl, (g.until - ZERO_TIME) / k.ttl, k.ttl);
  }

  /** And its windows are equally wide to within a second, widths of 292 years and more counting as that. */
  lemma ListKeyWidth(k: Keys, f: Filter, g: Filter)
    requires k.ttl >= SECOND && ListKey(k, f) == ListKey(k, g)
    requires f.until - f.since > -0x8000_0000_0000_0000 && g.until - g.since > -0x8000_0000_0000_0000
    ensures -SECOND < Sub(f.until, f.since) - Sub(g.until, g.since) < SECOND
  {
    ListKeyUnique(k, f, g);
    ListKeyBucket(k, f, g);
    BucketSinceIs(k, f);
    BucketSinceIs(k, g);
    UnixNear(BucketSince(k, f), BucketSince(k, g));
  }

  lemma BucketSinceIs(k: Keys, f: Filter)
    requires f.until - f.since > -0x8000_0000_0000_0000
    ensures BucketSince(k, f) == BucketUntil(k, f) - Sub(f.until, f.since)
  {
    hide BucketUntil;
  }

  /** A window of whole seconds, short enough for a Duration (292 years). */
  predicate WholeWindow(f: Filter) {
    (f.until - f.since) % SECOND == 0 && -0x8000_0000_0000_0000 < f.until - f.since < 0x8000_0000_0000_0000
  }

  lemma WholeApart(a: int, b: int)
    requires a % SECOND == 0 && b % SECOND == 0 && -SECOND < a - b < SECOND
    ensures a == b
  {
    var m, n := a / SECOND, b / SECOND;
    assert a == m * SECOND && b == n * SECOND;
  }

  /** The same search over a window of the same width, its end less than a TTL away. */
  predicate Interchangeable(k: Keys, f: Filter, g: Filter) {
    var ttl: int := k.ttl;
    && SameSearch(f, g)
    && f.until - f.since == g.until - g.since
    && -ttl < f.until - g.until < ttl
  }

  /** For windows of whole seconds and a TTL of a second or more, keys are equal exactly for the same search, width and bucket. */
  lemma ListKeyWindow(k: Keys, f: Filter, g: Filter)
    requires k.ttl >= SECOND && WholeWindow(f) && WholeWindow(g)
    ensures ListKey(k, f) == ListKey(k, g) <==>
              && SameSearch(f, g)
              && f.until - f.since == g.until - g.since
              && BucketUntil(k, f) == BucketUntil(k, g)
    ensures ListKey(k, f) == ListKey(k, g) ==> Interchangeable(k, f, g)
  {
    ListKeyUnique(k, f, g);
    BucketSinceIs(k, f);
    BucketSinceIs(k, g);
    hide BucketUntil;
    hide BucketSince;
    if ListKey(k, f) == ListKey(k, g) {
      ListKeyBucket(k, f, g);
      ListKeyWidth(k, f, g);
      hide ListKey;
      WholeApart(f.until - f.since, g.until - g.since);
    }
  }

  /** Two empty windows one TTL apart, starting with the zero time. */
  function Window(f: Filter, end: Instant): Filter {
    f.(since := end, until := end)
  }

  lemma ShortTTLAliases(k: Keys, f: Filter)
    requires 0 < k.ttl < SECOND
    ensures WholeWindow(Window(f, ZERO_TIME)) && WholeWindow(Window(f, ZERO_TIME + k.ttl))
    ensures ListKey(k, Window(f, ZERO_TIME)) == ListKey(k, Window(f, ZERO_TIME + k.ttl))
    ensures !Interchangeable(k, Window(f, ZERO_TIME + k.ttl), Window(f, ZERO_TIME))
  {
    hide BucketUntil;
    hide BucketSince;
    hide Unix;
    hide ListKey;
    ShortWindow(k, f, 0);
    ShortWindow(k, f, k.ttl);
    ListKeyUnique(k, Window(f, ZERO_TIME), Window(f, ZERO_TIME + k.ttl));
  }

  /** The two windows' ends are their own buckets, in the same second. */
  lemma ShortWindow(k: Keys, f: Filter, later: int)
    requires 0 < k.ttl < SECOND && (later == 0 || later == k.ttl)
    ensures Unix(BucketUntil(k, Window(f, ZERO_TIME + later))) == -62_135_596_800
    ensures Unix(BucketSince(k, Window(f, ZERO_TIME + later))) == -62_135_596_800
  {
    var end := ZERO_TIME + later;
    BucketSinceIs(k, Window(f, end));
    SelfMod(k.ttl);
    hide BucketSince;
    assert BucketUntil(k, Window(f, end)) == end;
    hide BucketUntil;
  }

  lemma SelfMod(d: int)
    requires d > 0
    ensures d % d == 0
  {}

  /** Windows of whole seconds with one key are interchangeable if and only if the TTL is a second or more. */
  lemma ListKeyExact(k: Keys)
    requires k.ttl > 0
    ensures (forall f, g | WholeWindow(f) && WholeWindow(g) && ListKey(k, f) == ListKey(k, g) :: Interchangeable(k, f, g))
            <==> k.ttl >= SECOND
  {
    hide ListKey;
    hide Interchangeable;
    hide WholeWindow;
    if k.ttl >= SECOND {
      forall f, g | WholeWindow(f) && WholeWindow(g) && ListKey(k, f) == ListKey(k, g) ensures Interchangeable(k, f, g) {
        ListKeyWindow(k, f, g);
      }
    } else {
      ShortTTLAliases(k, Filter(0, 0, [], [], [], [], false, 0, 0));
    }
  }

  /** Beyond whole windows a key is coarser: widths within a second, and widths from 292 years on, can share one. */
  lemma ListKeyAliases(k: Keys, f: Filter)
    requires k.ttl == SECOND
    ensures ListKey(k, f.(since := -200_000_000, until := 0)) == ListKey(k, f.(since := -400_000_000, until := 0))
    ensures ListKey(k, f.(since := ZERO_TIME, until := 0)) == ListKey(k, f.(since := ZERO_TIME + SECOND, until := 0))
  {
    hide ListKey;
    Alias(k, f.(since := -200_000_000, until := 0), f.(since := -400_000_000, until := 0));
    Alias(k, f.(since := ZERO_TIME, until := 0), f.(since := ZERO_TIME + SECOND, until := 0));
  }

  lemma Alias(k: Keys, f: Filter, g: Filter)
    requires SameSearch(f, g)
    requires Unix(BucketUntil(k, f)) == Unix(BucketUntil(k, g))
    requires Unix(BucketSince(k, f)) == Unix(BucketSince(k, g))
    ensures ListKey(k, f) == ListKey(k, g)
  {
    ListKeyUnique(k, f, g);
  }
}
