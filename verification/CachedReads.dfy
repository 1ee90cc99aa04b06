/**
  The read-through cache of internal/store/cache.go: what callers can be given
  over a run with a cache that may miss, fail, corrupt or expire anything, but
  never makes up a value that decodes.
*/
module CachedReads {
  import opened ByteStrings
  import opened Rows
  import opened ListKeys

  datatype Read = ListQueries(f: Filter) | GetQuery(id: Bytes)

  /** Cache keys of both kinds; the prefixes differ before anything a caller supplies. */
  function CacheKey(k: Keys, c: Read): Bytes {
    match c
    case ListQueries(f) => Ascii("qls:v2:list:") + ListKey(k, f)
    case GetQuery(id) => Ascii("qls:v2:query:") + id
  }

  lemma CacheKeyKinds(k: Keys, c: Read, d: Read)
    requires CacheKey(k, c) == CacheKey(k, d)
    ensures match c
            case ListQueries(f) => d.ListQueries? && ListKey(k, f) == ListKey(k, d.f)
            case GetQuery(id) => d.GetQuery? && id == d.id
  {
    hide ListKey;
    var list, query := Ascii("qls:v2:list:"), Ascii("qls:v2:query:");
    assert list[7] == 108 && query[7] == 113;
    assert CacheKey(k, c)[7] == if c.ListQueries? then 108 else 113;
    assert CacheKey(k, d)[7] == if d.ListQueries? then 108 else 113;
    if c.ListQueries? {
      assert CacheKey(k, c)[12..] == ListKey(k, c.f) && CacheKey(k, d)[12..] == ListKey(k, d.f);
    } else {
      assert CacheKey(k, c)[13..] == c.id && CacheKey(k, d)[13..] == d.id;
    }
  }

  /** What the inner store says: an answer, no such row (GetQuery only), or an error. */
  datatype Inner<T> = Answers(v: T) | NoRow | Errs

  /** What cache.Get says: some bytes, ErrMiss, or another error. */
  datatype Reply = Got(b: Bytes) | NotThere | Down

  datatype Result<T> = Returned(v: T) | NotFound | Failed

  /** One read of the run: what it returned, whether the inner store was asked, and what it said. */
  datatype Access<T> = Access(read: Read, result: Result<T>, asked: bool, inner: Inner<T>)

  /** json.Marshal, which may fail, and json.Unmarshal. */
  datatype Codec<!T(!new)> = Codec(encode: T -> Option<Bytes>, decode: Bytes -> Option<T>) {
    ghost predicate RoundTrips() {
      forall v :: encode(v).Some? ==> decode(encode(v).value) == Some(v)
    }
  }

  function Asked<T>(history: seq<Access<T>>): (n: nat)
    ensures n <= |history|
  {
    if history == [] then 0
    else Asked(history[..|history| - 1]) + if history[|history| - 1].asked then 1 else 0
  }

  lemma AskedSnoc<T>(history: seq<Access<T>>, a: Access<T>)
    ensures Asked(history + [a]) == Asked(history) + if a.asked then 1 else 0
  {
    assert (history + [a])[..|history|] == history;
  }

  class CachedStore<T(==,!new)> {
    const keys: Keys
    const codec: Codec<T>

    // Observer totals.
    var hits: nat
    var misses: nat
    var errors: nat

    ghost var history: seq<Access<T>>       // every read of the run
    ghost var written: set<(Bytes, Bytes)>  // every entry ever sent to the cache
    ghost var failedSets: nat               // Set errors, which count as cache errors too

    /** Cache entries are inner answers, results are explained, and each read was counted once. */
    ghost predicate Valid()
      reads this
    {
      && codec.RoundTrips()
      && (forall e | e in written :: FromEntry(keys, codec, history, e.0, e.1))
      && (forall i | 0 <= i < |history| :: Explained(keys, history, i))
      && hits == |history| - Asked(history)
      && misses + errors == Asked(history) + failedSets
      && failedSets <= Asked(history)
    }

    constructor (keys: Keys, codec: Codec<T>)
      requires codec.RoundTrips()
      ensures Valid() && history == [] && this.keys == keys && this.codec == codec
    {
      this.keys, this.codec := keys, codec;
      hits, misses, errors, failedSets := 0, 0, 0, 0;
      history, written := [], {};
    }

    /** The cache is trusted in this only: bytes that decode were once written under the key. */
    ghost predicate Honest(key: Bytes, reply: Reply)
      reads this
    {
      reply.Got? && codec.decode(reply.b).Some? ==> (key, reply.b) in written
    }

    /** getCached: a hit is an answer the inner store gave earlier under this key, and is counted as one. */
    method GetCached(read: Read, reply: Reply) returns (v: Option<T>)
      requires Valid() && Honest(CacheKey(keys, read), reply)
      modifies this`hits, this`misses, this`errors
      ensures v == if reply.Got? then codec.decode(reply.b) else None
      ensures v.Some? ==> FromInner(keys, history, |history|, CacheKey(keys, read), v.value)
      ensures hits == old(hits) + if v.Some? then 1 else 0
      ensures misses + errors == old(misses + errors) + if v.Some? then 0 else 1
      ensures misses == old(misses) + if reply.NotThere? then 1 else 0
      ensures errors == old(errors) + if reply.Down? || (reply.Got? && v.None?) then 1 else 0
    {
      hide CacheKey;
      match reply
      case NotThere => misses := misses + 1; v := None;
      case Down => errors := errors + 1; v := None;
      case Got(b) =>
        v := codec.decode(b);
        if v.None? {
          errors := errors + 1;
        } else {
          hits := hits + 1;
          EntryIsInner(keys, codec, history, CacheKey(keys, read), b, v.value);
        }
    }

    /** ListQueries and GetQuery: they differ only in the key and in the row that may be missing. */
    method Serve(read: Read, reply: Reply, inner: Inner<T>, setFails: bool) returns (r: Result<T>)
      requires Valid() && Honest(CacheKey(keys, read), reply)
      requires read.ListQueries? ==> !inner.NoRow?
      modifies this
      ensures Valid()
      ensures var asked := !(reply.Got? && codec.decode(reply.b).Some?);
              && history == old(history) + [Access(read, r, asked, inner)]
              && (!asked ==> r == Returned(codec.decode(reply.b).value))
              && (asked ==> r == match inner case Answers(v) => Returned(v) case NoRow => NotFound case Errs => Failed)
              && written == old(written) +
                   if asked && inner.Answers? && codec.encode(inner.v).Some?
                   then {(CacheKey(keys, read), codec.encode(inner.v).value)} else {}
      ensures var found := reply.Got? && codec.decode(reply.b).Some?;
              var setError := !found && inner.Answers? && codec.encode(inner.v).Some? && setFails;
              && hits == old(hits) + (if found then 1 else 0)
              && misses == old(misses) + (if reply.NotThere? then 1 else 0)
              && errors == old(errors) + (if !found && !reply.NotThere? then 1 else 0) + (if setError then 1 else 0)
              && failedSets == old(failedSets) + (if setError then 1 else 0)
    {
      hide CacheKey;
      hide FromInner;
      hide FromEntry;
      hide Explained;
      hide Asked;
      var key := CacheKey(keys, read);
      ghost var before := history;
      var cached := GetCached(read, reply);
      if cached.Some? {
        r := Returned(cached.value);
        ReadAdded(keys, codec, before, Access(read, r, false, inner));
        history := history + [Access(read, r, false, inner)];
      } else {
        r := match inner case Answers(v) => Returned(v) case NoRow => NotFound case Errs => Failed;
        ReadAdded(keys, codec, before, Access(read, r, true, inner));
        history := history + [Access(read, r, true, inner)];
        if inner.Answers? {
          SetCached(key, inner.v, setFails);
        }
      }
    }

    /** setCached: the entry may be there afterwards whether or not Set reports an error. */
    method SetCached(key: Bytes, val: T, setFails: bool)
      requires Valid() && history != []
      requires failedSets < Asked(history)
      requires var last := history[|history| - 1]; last.asked && last.inner == Answers(val) && CacheKey(keys, last.read) == key
      modifies this`written, this`errors, this`failedSets
      ensures Valid()
      ensures written == old(written) + if codec.encode(val).Some? then {(key, codec.encode(val).value)} else {}
      ensures errors == old(errors) + if codec.encode(val).Some? && setFails then 1 else 0
      ensures failedSets == old(failedSets) + if codec.encode(val).Some? && setFails then 1 else 0
    {
      hide CacheKey;
      var b := codec.encode(val);
      if b.None? {
        return;
      }
      written := written + {(key, b.value)};
      if setFails {
        errors := errors + 1;
        failedSets := failedSets + 1;
      }
    }
  }

  /** Before the n-th read, the inner store was asked under this key and gave this answer. */
  ghost predicate FromInner<T(!new)>(k: Keys, history: seq<Access<T>>, n: nat, key: Bytes, v: T)
    requires n <= |history|
  {
    exists j | 0 <= j < n ::
      CacheKey(k, history[j].read) == key && history[j].asked && history[j].inner == Answers(v)
  }

  /** A cache entry is an encoded answer of the inner store under its key. */
  ghost predicate FromEntry<T(!new)>(k: Keys, codec: Codec<T>, history: seq<Access<T>>, key: Bytes, b: Bytes) {
    exists j | 0 <= j < |history| ::
      CacheKey(k, history[j].read) == key && history[j].asked && history[j].inner.Answers?
      && codec.encode(history[j].inner.v) == Some(b)
  }

  lemma EntryIsInner<T(!new)>(k: Keys, codec: Codec<T>, history: seq<Access<T>>, key: Bytes, b: Bytes, v: T)
    requires codec.RoundTrips() && FromEntry(k, codec, history, key, b) && codec.decode(b) == Some(v)
    ensures FromInner(k, history, |history|, key, v)
  {}

  /** A returned value is the inner store's answer to this read or to an earlier one under the same key. */
  ghost predicate Explained<T(!new)>(k: Keys, history: seq<Access<T>>, i: nat)
    requires i < |history|
  {
    var a := history[i];
    match a.result
    case Returned(v) =>
      (a.asked && a.inner == Answers(v)) || (!a.asked && FromInner(k, history, i, CacheKey(k, a.read), v))
    case NotFound => a.asked && a.inner == NoRow
    case Failed => a.asked && a.inner == Errs
  }

  lemma HistoryGrows<T(!new)>(k: Keys, codec: Codec<T>, history: seq<Access<T>>, a: Access<T>)
    ensures forall n: nat, key, v | n <= |history| && FromInner(k, history, n, key, v) ::
              FromInner(k, history + [a], n, key, v)
    ensures forall key, b | FromEntry(k, codec, history, key, b) :: FromEntry(k, codec, history + [a], key, b)
    ensures forall i | 0 <= i < |history| && Explained(k, history, i) :: Explained(k, history + [a], i)
  {
    hide CacheKey;
    var more := history + [a];
    assert forall j | 0 <= j < |history| :: more[j] == history[j];
    forall n: nat, key, v | n <= |history| && FromInner(k, history, n, key, v) ensures FromInner(k, more, n, key, v) {
      var j :| 0 <= j < n && CacheKey(k, history[j].read) == key && history[j].asked && history[j].inner == Answers(v);
      assert more[j].asked && CacheKey(k, more[j].read) == key && more[j].inner == Answers(v);
    }
    forall key, b | FromEntry(k, codec, history, key, b) ensures FromEntry(k, codec, more, key, b) {
      var j :| 0 <= j < |history| && CacheKey(k, history[j].read) == key && history[j].asked
               && history[j].inner.Answers? && codec.encode(history[j].inner.v) == Some(b);
      assert more[j].asked && CacheKey(k, more[j].read) == key && codec.encode(more[j].inner.v) == Some(b);
    }
  }

  /** One more read: what was explained stays explained, and the read itself is, if it returned what it should. */
  lemma ReadAdded<T(!new)>(k: Keys, codec: Codec<T>, history: seq<Access<T>>, a: Access<T>)
    requires match a.result
             case Returned(v) =>
               if a.asked then a.inner == Answers(v) else FromInner(k, history, |history|, CacheKey(k, a.read), v)
             case NotFound => a.asked && a.inner == NoRow
             case Failed => a.asked && a.inner == Errs
    ensures forall key, b | FromEntry(k, codec, history, key, b) :: FromEntry(k, codec, history + [a], key, b)
    ensures forall i | 0 <= i < |history| && Explained(k, history, i) :: Explained(k, history + [a], i)
    ensures Explained(k, history + [a], |history|)
    ensures Asked(history + [a]) == Asked(history) + if a.asked then 1 else 0
  {
    hide CacheKey;
    HistoryGrows(k, codec, history, a);
    AskedSnoc(history, a);
    hide FromInner;
    hide FromEntry;
    hide Asked;
  }

  /**
    A cached list was the inner store's answer to the same search over a window
    of the same width, shifted by less than the TTL; a cached row is its own.
  */
  lemma StaleBound<T(!new)>(k: Keys, history: seq<Access<T>>, i: nat) returns (j: nat)
    requires i < |history| && Explained(k, history, i) && history[i].result.Returned? && !history[i].asked
    requires k.ttl >= SECOND
    requires forall n | 0 <= n < |history| && history[n].read.ListQueries? :: WholeWindow(history[n].read.f)
    ensures j < i && history[j].asked && history[j].inner == Answers(history[i].result.v)
    ensures match history[i].read
            case GetQuery(id) => history[j].read == GetQuery(id)
            case ListQueries(f) => history[j].read.ListQueries? && Interchangeable(k, f, history[j].read.f)
  {
    hide CacheKey;
    hide ListKey;
    var c, v := history[i].read, history[i].result.v;
    j :| 0 <= j < i && CacheKey(k, history[j].read) == CacheKey(k, c)
         && history[j].asked && history[j].inner == Answers(v);
    CacheKeyKinds(k, c, history[j].read);
    if c.ListQueries? {
      ListKeyWindow(k, c.f, history[j].read.f);
    }
  }
}
