/**
 * Model of `com.java.utils.CollectionUtils`: map merging, frequency counting,
 * list chunking and batch processing of a stream.
 *
 * Java lists and streams are sequences, Java maps are Dafny maps, and a null
 * argument is `None`. Each operation is a method that builds its result step
 * by step, as the Java code does, and is proved against a specification of
 * what the result means.
 */
module CollectionUtils {
  import opened Results

  // ---------------------------------------------------------------------------
  // merge
  // ---------------------------------------------------------------------------

  const MergeMessage := "Parameters provided are null or empty"

  /** `m == null || m.isEmpty()` */
  predicate NullOrEmptyMap<K, V>(m: Option<map<K, V>>) {
    m.None? || m.value == map[]
  }

  /** The entries of a map argument, a null map having none. */
  function EntriesOf<K, V>(m: Option<map<K, V>>): map<K, V> {
    if m.None? then map[] else m.value
  }

  /**
   * Merges `mapA` and `mapB` into a fresh map. On a key both maps hold, the
   * value of `mapB` wins when `override` holds (`put`) and the value of `mapA`
   * is kept otherwise (`putIfAbsent`). Throws when both maps are null or empty.
   */
  method Merge<V>(mapA: Option<map<string, V>>, mapB: Option<map<string, V>>, override: bool)
    returns (r: Result<map<string, V>>)
    ensures r.Err? <==> NullOrEmptyMap(mapA) && NullOrEmptyMap(mapB)
    ensures r.Err? ==> r.error == IllegalArgument(MergeMessage)
    ensures r.Ok? ==> r.value.Keys == EntriesOf(mapA).Keys + EntriesOf(mapB).Keys
    ensures r.Ok? ==> forall k :: k in EntriesOf(mapA) && k !in EntriesOf(mapB) ==> r.value[k] == EntriesOf(mapA)[k]
    ensures r.Ok? ==> forall k :: k in EntriesOf(mapB) && k !in EntriesOf(mapA) ==> r.value[k] == EntriesOf(mapB)[k]
    ensures r.Ok? ==> forall k :: k in EntriesOf(mapA) && k in EntriesOf(mapB) ==>
                        r.value[k] == if override then EntriesOf(mapB)[k] else EntriesOf(mapA)[k]
    ensures r.Ok? ==> r.value == if override then EntriesOf(mapA) + EntriesOf(mapB)
                                 else EntriesOf(mapB) + EntriesOf(mapA)
  {
    if NullOrEmptyMap(mapA) && NullOrEmptyMap(mapB) {
      return Err(IllegalArgument(MergeMessage));
    }
    ghost var a, b := EntriesOf(mapA), EntriesOf(mapB);
    var resultant: map<string, V> := map[];
    if mapA.Some? {
      resultant := resultant + mapA.value;  // putAll
    }
    if mapB.Some? {
      var pending := mapB.value.Keys;
      while pending != {}
        invariant pending <= b.Keys
        invariant resultant.Keys == a.Keys + (b.Keys - pending)
        invariant forall k :: k in resultant ==>
                    resultant[k] == if k in b && k !in pending && (override || k !in a) then b[k] else a[k]
        decreases pending
      {
        var k :| k in pending;
        if override {
          resultant := resultant[k := mapB.value[k]];
        } else if k !in resultant {
          resultant := resultant[k := mapB.value[k]];  // putIfAbsent
        }
        pending := pending - {k};
      }
    }
    r := Ok(resultant);
    assert r.value == if override then a + b else b + a;
  }

  // ---------------------------------------------------------------------------
  // getFreqMap
  // ---------------------------------------------------------------------------

  /** The elements of a list argument, a null list having none. */
  function ElementsOf<T>(list: Option<seq<T>>): seq<T> {
    if list.None? then [] else list.value
  }

  /** The string forms of the elements, in list order. */
  function StringForms<T>(xs: seq<T>, toString: T -> string): seq<string> {
    seq(|xs|, i requires 0 <= i < |xs| => toString(xs[i]))
  }

  /** How many entries of `keys` equal `k`. */
  function Count(keys: seq<string>, k: string): nat {
    if keys == [] then 0
    else Count(keys[..|keys| - 1], k) + (if keys[|keys| - 1] == k then 1 else 0)
  }

  lemma {:induction false} CountPositive(keys: seq<string>, k: string)
    ensures Count(keys, k) > 0 <==> k in keys
  {
    if keys != [] {
      var init := keys[..|keys| - 1];
      CountPositive(init, k);
      assert keys == init + [keys[|keys| - 1]];
    }
  }

  /** `m` maps each distinct entry of `keys` to the number of its occurrences, and holds nothing else. */
  ghost predicate IsFrequencyMap(m: map<string, int>, keys: seq<string>) {
    && (forall k :: k in m <==> k in keys)
    && (forall k :: k in m ==> m[k] == Count(keys, k))
  }

  /**
   * The frequency map of the string forms of the list's elements; empty for a
   * null or empty list.
   */
  method GetFreqMap<T>(list: Option<seq<T>>, toString: T -> string) returns (freq: map<string, int>)
    ensures list.None? || list.value == [] ==> freq == map[]
    ensures IsFrequencyMap(freq, StringForms(ElementsOf(list), toString))
  {
    freq := map[];
    if list.Some? && list.value != [] {
      var xs := list.value;
      ghost var keys := StringForms(xs, toString);
      var i := 0;
      while i < |xs|
        invariant 0 <= i <= |xs|
        invariant forall k :: k in freq <==> Count(keys[..i], k) > 0
        invariant forall k :: k in freq ==> freq[k] == Count(keys[..i], k)
      {
        var key := toString(xs[i]);
        assert keys[..i + 1][..i] == keys[..i];
        freq := freq[key := (if key in freq then freq[key] else 0) + 1];
        i := i + 1;
      }
      assert keys[..|xs|] == keys;
      forall k ensures k in freq <==> k in keys {
        CountPositive(keys, k);
      }
    }
  }

  /** The sum of the values of a map. */
  ghost function Total(m: map<string, int>): int
    decreases m.Keys
  {
    if m == map[] then 0
    else
      var k :| k in m;
      m[k] + Total(m - {k})
  }

  /** `Total` does not depend on the key it takes apart first. */
  lemma {:induction false} TotalRemove(m: map<string, int>, k: string)
    requires k in m
    ensures Total(m) == m[k] + Total(m - {k})
    decreases m.Keys
  {
    var j :| j in m && Total(m) == m[j] + Total(m - {j});
    if j != k {
      TotalRemove(m - {j}, k);
      TotalRemove(m - {k}, j);
      assert m - {j} - {k} == m - {k} - {j};
    }
  }

  /** The values of a frequency map add up to the length of the list. */
  lemma {:induction false} FrequenciesSumToLength(m: map<string, int>, keys: seq<string>)
    requires IsFrequencyMap(m, keys)
    ensures Total(m) == |keys|
  {
    if keys == [] {
      assert m == map[];
    } else {
      var init, x := keys[..|keys| - 1], keys[|keys| - 1];
      assert keys == init + [x];
      assert x in m;
      CountPositive(init, x);
      var rest := m - {x};
      TotalRemove(m, x);
      if Count(init, x) == 0 {
        forall k ensures k in rest <==> k in init {
          CountPositive(init, k);
          CountPositive(keys, k);
        }
        FrequenciesSumToLength(rest, init);
      } else {
        var m' := m[x := m[x] - 1];
        forall k ensures k in m' <==> k in init {
          CountPositive(init, k);
          CountPositive(keys, k);
        }
        FrequenciesSumToLength(m', init);
        TotalRemove(m', x);
        assert m' - {x} == rest;
      }
    }
  }

  // ---------------------------------------------------------------------------
  // chunk and batchProcess share one notion: cutting a sequence into pieces
  // ---------------------------------------------------------------------------

  /** The concatenation of the pieces, in order. */
  function Flatten<T>(parts: seq<seq<T>>): seq<T> {
    if parts == [] then [] else parts[0] + Flatten(parts[1..])
  }

  lemma {:induction false} FlattenAppend<T>(parts: seq<seq<T>>, c: seq<T>)
    ensures Flatten(parts + [c]) == Flatten(parts) + c
  {
    if parts != [] {
      assert (parts + [c])[1..] == parts[1..] + [c];
      FlattenAppend(parts[1..], c);
    }
  }

  /**
   * `parts` cuts `s` into consecutive pieces of `k` elements, the last of which
   * may be shorter but is never empty.
   */
  ghost predicate IsChunking<T>(parts: seq<seq<T>>, s: seq<T>, k: int) {
    && Flatten(parts) == s
    && (forall i :: 0 <= i < |parts| ==> 0 < |parts[i]| <= k)
    && (forall i :: 0 <= i < |parts| - 1 ==> |parts[i]| == k)
  }

  /** `a / k` is the `q` with `q * k <= a < (q + 1) * k`. */
  lemma DivisionBetween(a: int, k: int, q: int)
    requires k > 0 && q * k <= a < (q + 1) * k
    ensures a / k == q
  {
    var e := a / k - q;
    assert e * k == a - q * k - a % k;
    assert e >= 1 ==> e * k >= k;
    assert e <= -1 ==> e * k <= -k;
  }

  /** Taking off the first piece leaves a cutting of the rest of the sequence. */
  lemma ChunkingTail<T>(parts: seq<seq<T>>, s: seq<T>, k: int)
    requires parts != [] && IsChunking(parts, s, k)
    ensures |parts[0]| <= |s| && s[..|parts[0]|] == parts[0]
    ensures IsChunking(parts[1..], s[|parts[0]|..], k)
  {
  }

  /** A cutting of `s` into pieces of `k` has ⌈|s| / k⌉ pieces. */
  lemma {:induction false} ChunkingCount<T>(parts: seq<seq<T>>, s: seq<T>, k: int)
    requires k > 0 && IsChunking(parts, s, k)
    ensures |parts| == (|s| + k - 1) / k
  {
    if parts != [] {
      var rest, tail := parts[1..], s[|parts[0]|..];
      ChunkingTail(parts, s, k);
      ChunkingCount(rest, tail, k);
      if rest == [] {
        DivisionBetween(|s| + k - 1, k, 1);
      } else {
        var c, n := |rest|, |tail|;
        assert |s| == n + k;
        assert c * k <= n + k - 1 < (c + 1) * k;
        DivisionBetween(|s| + k - 1, k, c + 1);
      }
    }
  }

  /** There is only one way to cut a sequence into pieces of `k`. */
  lemma {:induction false} ChunkingUnique<T>(p: seq<seq<T>>, q: seq<seq<T>>, s: seq<T>, k: int)
    requires IsChunking(p, s, k) && IsChunking(q, s, k)
    ensures p == q
  {
    if p != [] && q != [] {
      var n := if p[1..] == [] || q[1..] == [] then |s| else k;
      assert |p[0]| == n by {
        if p[1..] == [] { assert Flatten(p) == p[0]; }
        if q[1..] == [] { assert Flatten(q) == q[0]; }
      }
      assert |q[0]| == n by {
        if p[1..] == [] { assert Flatten(p) == p[0]; }
        if q[1..] == [] { assert Flatten(q) == q[0]; }
      }
      assert p[0] == s[..n] == q[0];
      ChunkingUnique(p[1..], q[1..], s[n..], k);
    }
  }

  // ---------------------------------------------------------------------------
  // chunk
  // ---------------------------------------------------------------------------

  const ChunkMessage := "Invalid parameters: Either list is empty or size is 0"

  /**
   * Splits the list into consecutive chunks of `size` elements, the last one
   * possibly shorter. A null or empty list and `size == 0` are rejected
   * explicitly; a negative size is rejected by `new ArrayList<>(size)`.
   */
  method Chunk<T>(list: Option<seq<T>>, size: int) returns (r: Result<seq<seq<T>>>)
    ensures r.Err? <==> list.None? || list.value == [] || size <= 0
    ensures list.None? || list.value == [] || size == 0 ==> r == Err(IllegalArgument(ChunkMessage))
    ensures list.Some? && list.value != [] && size < 0 ==> r == Err(IllegalCapacity(size))
    ensures r.Ok? ==> IsChunking(r.value, list.value, size)
    ensures r.Ok? ==> |r.value| == (|list.value| + size - 1) / size
  {
    if list.None? || list.value == [] || size == 0 {
      return Err(IllegalArgument(ChunkMessage));
    }
    if size < 0 {
      return Err(IllegalCapacity(size));
    }
    var xs := list.value;
    var chunked: seq<seq<T>> := [];
    var current: seq<T> := [];
    var i := 0;
    while i < |xs|
      invariant 0 <= i <= |xs|
      invariant Flatten(chunked) + current == xs[..i]
      invariant forall j :: 0 <= j < |chunked| ==> |chunked[j]| == size
      invariant |current| <= size
      invariant i > 0 ==> current != []
    {
      assert xs[..i + 1] == xs[..i] + [xs[i]];
      chunked, current := ChunkStep(chunked, current, xs[i], size);
      i := i + 1;
    }
    if |current| > 0 {
      FlattenAppend(chunked, current);
      chunked := chunked + [current];
    }
    assert xs[..|xs|] == xs;
    ChunkingCount(chunked, xs, size);
    return Ok(chunked);
  }

  /** One iteration of `chunk`: close the current chunk when it is full, then add `x` to it. */
  method ChunkStep<T>(chunked: seq<seq<T>>, current: seq<T>, x: T, size: int)
    returns (nextChunked: seq<seq<T>>, nextCurrent: seq<T>)
    requires size > 0 && |current| <= size
    requires forall j :: 0 <= j < |chunked| ==> |chunked[j]| == size
    ensures Flatten(nextChunked) + nextCurrent == Flatten(chunked) + current + [x]
    ensures forall j :: 0 <= j < |nextChunked| ==> |nextChunked[j]| == size
    ensures 0 < |nextCurrent| <= size
  {
    nextChunked, nextCurrent := chunked, current;
    if |current| >= size {
      FlattenAppend(chunked, current);
      nextChunked := chunked + [current];
      nextCurrent := [];
    }
    nextCurrent := nextCurrent + [x];
  }

  // ---------------------------------------------------------------------------
  // batchProcess
  // ---------------------------------------------------------------------------

  const BatchMessage := "Provided parameters are null"

  /** `stream.filter(Objects::nonNull)`: the present elements, in order. */
  function NonNull<T>(stream: seq<Option<T>>): (r: seq<T>)
    ensures |r| <= |stream|
    ensures forall i :: 0 <= i < |r| ==> Some(r[i]) in stream
    ensures forall i :: 0 <= i < |stream| && stream[i].Some? ==> stream[i].value in r
  {
    if stream == [] then []
    else
      var init, last := stream[..|stream| - 1], stream[|stream| - 1];
      assert stream == init + [last];
      assert forall i :: 0 <= i < |init| ==> stream[i] == init[i];
      NonNull(init) + (if last.Some? then [last.value] else [])
  }

  /** Filtering keeps the order: the present elements of a concatenation are those of each part, one after the other. */
  lemma {:induction false} NonNullAppend<T>(a: seq<Option<T>>, b: seq<Option<T>>)
    ensures NonNull(a + b) == NonNull(a) + NonNull(b)
    decreases |b|
  {
    if b != [] {
      var init, last := b[..|b| - 1], b[|b| - 1];
      assert a + b == (a + init) + [last];
      assert (a + b)[..|a + b| - 1] == a + init;
      NonNullAppend(a, init);
    } else {
      assert a + b == a;
    }
  }

  /**
   * Feeds the non-null elements of the stream into a buffer and hands the
   * buffer to the consumer whenever it holds the batch size (5 when
   * `batchSize` is 0), then hands over what is left. The result is the
   * sequence of batches the consumer receives, each as it was when handed over.
   */
  method BatchProcess<T>(stream: Option<seq<Option<T>>>, batchSize: int, consumerPresent: bool)
    returns (r: Result<seq<seq<T>>>)
    ensures r.Err? <==> stream.None? || !consumerPresent || batchSize < 0
    ensures stream.None? || !consumerPresent ==> r == Err(IllegalArgument(BatchMessage))
    ensures stream.Some? && consumerPresent && batchSize < 0 ==> r == Err(IllegalCapacity(batchSize))
    ensures r.Ok? ==> IsChunking(r.value, NonNull(stream.value), if batchSize == 0 then 5 else batchSize)
    ensures r.Ok? && NonNull(stream.value) == [] ==> r.value == []
  {
    if stream.None? || !consumerPresent {
      return Err(IllegalArgument(BatchMessage));
    }
    if batchSize < 0 {
      return Err(IllegalCapacity(batchSize));  // new ArrayList<>(batchSize)
    }
    var limit := if batchSize < 1 then 5 else batchSize;
    var elems := stream.value;
    var delivered: seq<seq<T>> := [];
    var batch: seq<T> := [];
    var i := 0;
    while i < |elems|
      invariant 0 <= i <= |elems|
      invariant Flatten(delivered) + batch == NonNull(elems[..i])
      invariant forall j :: 0 <= j < |delivered| ==> |delivered[j]| == limit
      invariant |batch| < limit
    {
      assert elems[..i + 1][..i] == elems[..i];
      if elems[i].Some? {
        delivered, batch := BatchStep(delivered, batch, elems[i].value, limit);
      }
      i := i + 1;
    }
    if batch != [] {
      FlattenAppend(delivered, batch);
      delivered := delivered + [batch];
    }
    assert elems[..|elems|] == elems;
    r := Ok(delivered);
  }

  /** One present element of `batchProcess`: add it to the batch and hand the batch over once it is full. */
  method BatchStep<T>(delivered: seq<seq<T>>, batch: seq<T>, x: T, limit: int)
    returns (nextDelivered: seq<seq<T>>, nextBatch: seq<T>)
    requires |batch| < limit
    requires forall j :: 0 <= j < |delivered| ==> |delivered[j]| == limit
    ensures Flatten(nextDelivered) + nextBatch == Flatten(delivered) + batch + [x]
    ensures forall j :: 0 <= j < |nextDelivered| ==> |nextDelivered[j]| == limit
    ensures |nextBatch| < limit
  {
    nextDelivered, nextBatch := delivered, batch + [x];
    if |nextBatch| == limit {
      FlattenAppend(delivered, nextBatch);
      nextDelivered := delivered + [nextBatch];  // batchConsumer.accept(batch)
      nextBatch := [];                           // batch.clear()
    }
  }

  /**
   * Corrected `batchProcess`: every batch size below 1 falls back to 5, as the
   * documentation of the operation promises, instead of a negative size
   * failing in the buffer's constructor.
   */
  method BatchProcessWithDefault<T>(stream: Option<seq<Option<T>>>, batchSize: int, consumerPresent: bool)
    returns (r: Result<seq<seq<T>>>)
    ensures r.Err? <==> stream.None? || !consumerPresent
    ensures r.Err? ==> r.error == IllegalArgument(BatchMessage)
    ensures r.Ok? ==> IsChunking(r.value, NonNull(stream.value), if batchSize < 1 then 5 else batchSize)
  {
    if stream.None? || !consumerPresent {
      return Err(IllegalArgument(BatchMessage));
    }
    var limit := if batchSize < 1 then 5 else batchSize;
    r := BatchProcess(stream, limit, consumerPresent);
  }
}
