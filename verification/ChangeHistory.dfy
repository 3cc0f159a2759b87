/** The bounded history of change evidence: `History` of
    `layerstack/src/change_history.rs`, and what its readers may rely on. */
module ChangeHistory {

  const USIZE_MAX: nat := 0xFFFF_FFFF_FFFF_FFFF
  const U64_MAX: nat := 0xFFFF_FFFF_FFFF_FFFF

  type Usize = n: nat | n <= USIZE_MAX
  type U64 = n: nat | n <= U64_MAX

  function SaturatingAdd(a: U64, b: nat): U64 { if a + b <= U64_MAX then a + b else U64_MAX }

  function Max(a: U64, b: U64): U64 { if a < b then b else a }

  /** A batch of evidence: what `History` asks of one. */
  datatype Batch = Batch(revision: U64, bytes: Usize, items: Usize)

  datatype Budget = Budget(maxBatches: Usize, maxRetainedBytes: Usize)

  datatype Stats = Stats(
    retainedBytes: Usize,
    recordedBatches: U64,
    recordedItems: U64,
    evictedBatches: U64,
    discardedBatches: U64)

  // ---------------------------------------------------- what is retained

  function Bytes(s: seq<Batch>): nat {
    if s == [] then 0 else Bytes(s[..|s| - 1]) + s[|s| - 1].bytes
  }

  predicate Fits(s: seq<Batch>, batches: nat, bytes: nat) {
    |s| <= batches && Bytes(s) <= bytes
  }

  /** The batches left of `s` when the oldest are dropped until it fits. */
  function Newest(s: seq<Batch>, batches: nat, bytes: nat): seq<Batch> {
    if s == [] || Fits(s, batches, bytes) then s else Newest(s[1..], batches, bytes)
  }

  ghost predicate Suffix(t: seq<Batch>, s: seq<Batch>) {
    |t| <= |s| && t == s[|s| - |t|..]
  }

  lemma {:induction false} SuffixOfRest(t: seq<Batch>, s: seq<Batch>)
    requires s != []
    ensures Suffix(t, s) <==> t == s || Suffix(t, s[1..])
  {
    assert s[0..] == s;
    assert |t| < |s| ==> s[|s| - |t|..] == s[1..][|s| - 1 - |t|..];
  }

  lemma {:induction false} SuffixOfItself(s: seq<Batch>)
    ensures Suffix(s, s)
  {
    assert s[0..] == s;
  }

  /** No more is dropped than must be: what is left is the longest suffix that
      fits. */
  lemma {:induction false} NewestIsLongest(s: seq<Batch>, batches: nat, bytes: nat, t: seq<Batch>)
    ensures var n := Newest(s, batches, bytes); Suffix(n, s) && Fits(n, batches, bytes)
    ensures Suffix(t, s) && Fits(t, batches, bytes) ==> Suffix(t, Newest(s, batches, bytes))
  {
    hide Suffix, Bytes;
    if s == [] {
      BytesOfNone();
      SuffixOfItself(s);
    } else if Fits(s, batches, bytes) {
      SuffixOfItself(s);
    } else {
      NewestIsLongest(s[1..], batches, bytes, t);
      SuffixOfRest(Newest(s[1..], batches, bytes), s);
      SuffixOfRest(t, s);
    }
  }

  lemma {:induction false} Overflows(s: seq<Batch>, batches: nat, bytes: nat)
    requires !(|s| <= batches && Bytes(s) <= bytes)
    ensures s != [] && Newest(s, batches, bytes) == Newest(s[1..], batches, bytes)
  {
  }

  lemma {:induction false} NewestFits(s: seq<Batch>, batches: nat, bytes: nat)
    requires |s| <= batches && Bytes(s) <= bytes
    ensures Newest(s, batches, bytes) == s
  {
  }

  lemma {:induction false} BytesOfRest(s: seq<Batch>)
    requires s != []
    ensures Bytes(s) == s[0].bytes + Bytes(s[1..])
  {
    if |s| > 1 {
      BytesOfRest(s[..|s| - 1]);
      assert s[1..][..|s| - 2] == s[..|s| - 1][1..];
    } else {
      assert s[..0] == s[1..] == [];
    }
  }

  ghost predicate Increasing(s: seq<Batch>) {
    && (forall i :: 0 <= i < |s| ==> 0 < s[i].revision)
    && (forall i, j :: 0 <= i < j < |s| ==> s[i].revision < s[j].revision)
  }

  function Last(s: seq<Batch>): nat { if s == [] then 0 else s[|s| - 1].revision }

  /** The batches newer than `revision`. */
  function Newer(s: seq<Batch>, revision: nat): seq<Batch> {
    if s == [] then []
    else Newer(s[..|s| - 1], revision) + if s[|s| - 1].revision > revision then [s[|s| - 1]] else []
  }

  lemma {:induction false} NewerFrom(s: seq<Batch>, k: nat, revision: nat)
    requires k <= |s|
    requires forall i :: 0 <= i < |s| ==> (s[i].revision > revision <==> k <= i)
    ensures Newer(s, revision) == s[k..]
  {
    if s != [] {
      if k < |s| {
        NewerFrom(s[..|s| - 1], k, revision);
        assert s[k..] == s[..|s| - 1][k..] + [s[|s| - 1]];
      } else {
        NewerFrom(s[..|s| - 1], k - 1, revision);
      }
    }
  }

  /** The revision the dropped batches of `submitted` reach. */
  ghost function FloorOf(submitted: seq<Batch>, retained: nat): nat
    requires retained <= |submitted|
  {
    Last(submitted[..|submitted| - retained])
  }

  /** A count as 64 bits hold it. */
  ghost function Capped(n: nat): U64 { if n < 0x1_0000_0000_0000_0000 then n else 18446744073709551615 }

  /** Exactly the retained suffix is newer than the floor. */
  lemma {:induction false} RetainedIsNewer(submitted: seq<Batch>, entries: seq<Batch>)
    requires Increasing(submitted) && Suffix(entries, submitted)
    ensures Newer(submitted, FloorOf(submitted, |entries|)) == entries
  {
    NewerFrom(submitted, |submitted| - |entries|, FloorOf(submitted, |entries|));
  }

  /** An observer that has seen everything up to `since` misses nothing exactly
      when `since` reaches the floor. */
  lemma {:induction false} ReplayComplete(submitted: seq<Batch>, entries: seq<Batch>, since: nat)
    requires Increasing(submitted) && Suffix(entries, submitted)
    ensures Newer(entries, since) == Newer(submitted, since) <==> FloorOf(submitted, |entries|) <= since
  {
    hide Newer, Increasing, FloorOf;
    var (k, d) := (FirstNewer(submitted, since), |submitted| - |entries|);
    NewerFrom(submitted, k, since);
    NewerInSuffix(submitted, d, k, since);
    FloorReached(submitted, |entries|, k, since);
    DropsTwice(submitted, d, k);
  }

  /** The floor is reached exactly when nothing newer was dropped. */
  lemma {:induction false} FloorReached(s: seq<Batch>, retained: nat, k: nat, since: nat)
    requires retained <= |s| && k <= |s|
    requires forall i :: 0 <= i < |s| ==> (s[i].revision > since <==> k <= i)
    ensures FloorOf(s, retained) <= since <==> |s| - retained <= k
  {
    var d := |s| - retained;
    assert d > 0 ==> s[..d][d - 1] == s[d - 1];
  }

  lemma {:induction false} DropsTwice(s: seq<Batch>, d: nat, k: nat)
    requires d <= |s| && k <= |s|
    ensures d <= k ==> s[d..][k - d..] == s[k..]
    ensures k < d ==> |s[d..]| < |s[k..]|
  {
  }

  lemma {:induction false} NewerInSuffix(s: seq<Batch>, d: nat, k: nat, since: nat)
    requires d <= |s| && k <= |s| && forall i :: 0 <= i < |s| ==> (s[i].revision > since <==> k <= i)
    ensures Newer(s[d..], since) == s[d..][if k < d then 0 else k - d..]
  {
    NewerFrom(s[d..], if k < d then 0 else k - d, since);
  }

  ghost function FirstNewer(s: seq<Batch>, since: nat): (k: nat)
    requires Increasing(s)
    ensures k <= |s| && forall i :: 0 <= i < |s| ==> (s[i].revision > since <==> k <= i)
  {
    if s == [] || s[|s| - 1].revision <= since then |s|
    else FirstNewer(s[..|s| - 1], since)
  }

  // ----------------------------------------- one batch more or fewer

  /** The oldest batch retained is the next the floor reaches. */
  lemma {:induction false} Oldest(submitted: seq<Batch>, entries: seq<Batch>)
    requires Increasing(submitted) && Suffix(entries, submitted) && entries != []
    ensures Suffix(entries[1..], submitted)
    ensures FloorOf(submitted, |entries|) < FloorOf(submitted, |entries| - 1) == entries[0].revision
  {
    var d := |submitted| - |entries|;
    assert submitted[d..][1..] == submitted[d + 1..];
    assert submitted[..d + 1][d] == submitted[d] == entries[0];
    assert d > 0 ==> submitted[..d][d - 1] == submitted[d - 1];
  }

  /** A batch newer than all before it is submitted, and may be retained. */
  lemma {:induction false} Submits(submitted: seq<Batch>, entries: seq<Batch>, batch: Batch)
    requires Increasing(submitted) && Suffix(entries, submitted) && batch.revision > Last(submitted)
    ensures var s := submitted + [batch];
      && Increasing(s) && Suffix([], s) && Suffix(entries + [batch], s)
      && FloorOf(submitted, 0) < FloorOf(s, 0) == batch.revision
      && FloorOf(s, |entries| + 1) == FloorOf(submitted, |entries|)
  {
    var (s, d) := (submitted + [batch], |submitted| - |entries|);
    assert s[..d] == submitted[..d] && s[d..] == submitted[d..] + [batch];
    assert s[..|s|] == s && submitted[..|submitted|] == submitted;
  }

  lemma {:induction false} BytesOfLast(s: seq<Batch>, batch: Batch)
    ensures Bytes(s + [batch]) == Bytes(s) + batch.bytes
    ensures Bytes([batch]) == batch.bytes
  {
    assert (s + [batch])[..|s|] == s;
  }

  lemma {:induction false} BytesOfNone()
    ensures Bytes([]) == 0
  {
  }

  lemma {:induction false} CopyKeeps(submitted: seq<Batch>, entries: seq<Batch>, copies: seq<Batch>)
    requires Increasing(submitted) && Suffix(entries, submitted) && |copies| == |entries|
    requires forall i :: 0 <= i < |copies| ==> copies[i].revision == entries[i].revision
    ensures var s := submitted[..|submitted| - |copies|] + copies;
      |s| == |submitted| && Increasing(s) && Suffix(copies, s) && FloorOf(s, |copies|) == FloorOf(submitted, |entries|)
  {
    var d := |submitted| - |copies|;
    var s := submitted[..d] + copies;
    assert s[..d] == submitted[..d] && s[d..] == copies;
    forall i | 0 <= i < |s| ensures s[i].revision == submitted[i].revision {
      if d <= i { assert s[i] == copies[i - d] && submitted[i] == entries[i - d]; }
    }
  }

  // ---------------------------------------------------- what readers see

  datatype Option<+T> = None | Some(value: T)

  /** Each batch is of the revision after the one before it. */
  ghost predicate Consecutive(s: seq<Batch>) {
    forall i :: 0 <= i < |s| - 1 ==> s[i + 1].revision == s[i].revision + 1
  }

  lemma {:induction false} RevisionAt(s: seq<Batch>, i: nat)
    requires Consecutive(s) && i < |s|
    ensures s[i].revision == s[0].revision + i
  {
    if i > 0 { RevisionAt(s, i - 1); }
  }

  /** Of consecutive batches, as many are newer as revisions are. */
  lemma {:induction false} NewerByCount(s: seq<Batch>, since: nat)
    requires Increasing(s) && Consecutive(s) && s != [] && since <= Last(s) <= since + |s|
    ensures Newer(s, since) == s[|s| - (Last(s) - since)..]
  {
    forall i | 0 <= i < |s| ensures s[i].revision == s[0].revision + i { RevisionAt(s, i); }
    NewerFrom(s, |s| - (Last(s) - since), since);
  }

  // ------------------------------------------------------------ the class

  class History {
    var entries: seq<Batch>
    var budget: Budget
    var stats: Stats
    var discardedThrough: U64

    /** Every batch handed to this history, and what became of them. */
    ghost var submitted: seq<Batch>
    ghost var recorded: nat
    ghost var recordedItems: nat
    ghost var evicted: nat
    ghost var discarded: nat

    /** What the history is kept to be, but for the budget. */
    ghost predicate Accounted()
      reads this
    {
      && Increasing(submitted) && Suffix(entries, submitted)
      && Bytes(entries) == stats.retainedBytes
      && discardedThrough == FloorOf(submitted, |entries|)
      && recorded == |entries| + evicted && |submitted| == recorded + discarded
      && stats.recordedBatches == Capped(recorded) && stats.recordedItems == Capped(recordedItems)
      && stats.evictedBatches == Capped(evicted) && stats.discardedBatches == Capped(discarded)
    }

    ghost predicate Valid()
      reads this
    {
      Accounted() && Fits(entries, budget.maxBatches, budget.maxRetainedBytes)
    }

    /** The batches dropped so far, other than by discarding. */
    twostate predicate EvictedTo(kept: seq<Batch>)
      reads this
    {
      && entries == kept && submitted == old(submitted) && budget == old(budget)
      && recorded == old(recorded) && recordedItems == old(recordedItems) && discarded == old(discarded)
    }

    constructor ()
      ensures Valid() && entries == [] && submitted == [] && discardedThrough == 0
      ensures budget == Budget(64, 1024 * 1024)
    {
      entries, discardedThrough := [], 0;
      budget := Budget(64, 1024 * 1024);
      stats := Stats(0, 0, 0, 0, 0);
      submitted, recorded, recordedItems, evicted, discarded := [], 0, 0, 0, 0;
    }

    method Evict()
      requires Accounted()
      modifies this
      ensures Accounted() && EvictedTo(if old(entries) == [] then [] else old(entries)[1..])
    {
      hide Increasing, Suffix, FloorOf, Bytes;
      if |entries| > 0 {
        var record := entries[0];
        Oldest(submitted, entries);
        BytesOfRest(entries);
        entries := entries[1..];
        discardedThrough := Max(discardedThrough, record.revision);
        stats := stats.(retainedBytes := stats.retainedBytes - record.bytes,
                        evictedBatches := SaturatingAdd(stats.evictedBatches, 1));
        evicted := evicted + 1;
      }
    }

    method Clear()
      requires Accounted()
      modifies this
      ensures Valid() && EvictedTo([])
    {
      while |entries| > 0
        invariant Accounted() && EvictedTo(entries)
        decreases |entries|
      {
        Evict();
      }
    }

    method Trim()
      requires Accounted()
      modifies this
      ensures Valid() && EvictedTo(Newest(old(entries), budget.maxBatches, budget.maxRetainedBytes))
    {
      hide Increasing, Suffix, FloorOf, Bytes, Newest, Last;
      ghost var (n, b) := (budget.maxBatches, budget.maxRetainedBytes);
      while |entries| > budget.maxBatches || stats.retainedBytes > budget.maxRetainedBytes
        invariant Accounted() && EvictedTo(entries)
        invariant Newest(entries, n, b) == Newest(old(entries), n, b)
        decreases |entries|
      {
        Overflows(entries, n, b);
        Evict();
      }
      NewestFits(entries, n, b);
    }

    method SetBudget(b: Budget)
      requires Valid()
      modifies this
      ensures Valid() && budget == b && submitted == old(submitted)
      ensures recorded == old(recorded) && recordedItems == old(recordedItems) && discarded == old(discarded)
      ensures entries == Newest(old(entries), b.maxBatches, b.maxRetainedBytes)
    {
      budget := b;
      Trim();
    }

    /** Drops everything: `batch` is not retained, so nothing before it can be
        replayed. */
    method Discard(revision: U64, ghost batch: Batch)
      requires Accounted() && batch.revision == revision > Last(submitted)
      modifies this
      ensures Valid() && entries == [] && submitted == old(submitted) + [batch] && budget == old(budget)
      ensures discardedThrough == revision && discarded == old(discarded) + 1
      ensures recorded == old(recorded) && recordedItems == old(recordedItems)
    {
      hide Increasing, Suffix, FloorOf, Bytes, Last;
      Clear();
      Submits(submitted, [], batch);
      BytesOfNone();
      discardedThrough := Max(discardedThrough, revision);
      stats := stats.(discardedBatches := SaturatingAdd(stats.discardedBatches, 1));
      submitted, discarded := submitted + [batch], discarded + 1;
    }

    /** Retains `batch` after as many of the newest as fit beside it, or
        nothing when it alone exceeds the budget. */
    method Record(batch: Batch)
      requires Valid() && batch.revision > Last(submitted)
      modifies this
      ensures Valid() && submitted == old(submitted) + [batch] && budget == old(budget)
      ensures if Fits([batch], budget.maxBatches, budget.maxRetainedBytes)
        then entries == Newest(old(entries), budget.maxBatches - 1, budget.maxRetainedBytes - batch.bytes) + [batch]
             && recorded == old(recorded) + 1 && recordedItems == old(recordedItems) + batch.items && discarded == old(discarded)
        else entries == [] && recorded == old(recorded) && recordedItems == old(recordedItems) && discarded == old(discarded) + 1
    {
      hide Increasing, Suffix, FloorOf, Bytes, Newest, Last;
      var bytes := batch.bytes;
      BytesOfLast([], batch);
      if budget.maxBatches == 0 || bytes > budget.maxRetainedBytes {
        Discard(batch.revision, batch);
        return;
      }
      ghost var (n, b) := (budget.maxBatches - 1, budget.maxRetainedBytes - bytes);
      while |entries| >= budget.maxBatches || stats.retainedBytes > budget.maxRetainedBytes - bytes
        invariant Accounted() && EvictedTo(entries)
        invariant Newest(entries, n, b) == Newest(old(entries), n, b)
        decreases |entries|
      {
        Overflows(entries, n, b);
        Evict();
      }
      NewestFits(entries, n, b);
      Submits(submitted, entries, batch);
      BytesOfLast(entries, batch);
      stats := stats.(retainedBytes := stats.retainedBytes + bytes,
                      recordedBatches := SaturatingAdd(stats.recordedBatches, 1),
                      recordedItems := SaturatingAdd(stats.recordedItems, batch.items));
      entries := entries + [batch];
      submitted, recorded, recordedItems := submitted + [batch], recorded + 1, recordedItems + batch.items;
    }

    /** As `Record`, but discards before building `batch` when its estimated
        size exceeds the budget. */
    method RecordWith(revision: U64, estimatedBytes: Usize, batch: Batch)
      requires Valid() && batch.revision == revision > Last(submitted)
      modifies this
      ensures Valid() && submitted == old(submitted) + [batch] && budget == old(budget)
      ensures if budget.maxBatches > 0 && estimatedBytes <= budget.maxRetainedBytes
                 && Fits([batch], budget.maxBatches, budget.maxRetainedBytes)
        then entries == Newest(old(entries), budget.maxBatches - 1, budget.maxRetainedBytes - batch.bytes) + [batch]
             && recorded == old(recorded) + 1 && recordedItems == old(recordedItems) + batch.items && discarded == old(discarded)
        else entries == [] && recorded == old(recorded) && recordedItems == old(recordedItems) && discarded == old(discarded) + 1
    {
      if budget.maxBatches == 0 || estimatedBytes > budget.maxRetainedBytes {
        Discard(revision, batch);
        return;
      }
      Record(batch);
    }

    /** A copy whose batches may have shrunk, counted afresh. */
    constructor Clone(from: History, copies: seq<Batch>)
      requires from.Valid() && |copies| == |from.entries|
      requires forall i :: 0 <= i < |copies| ==>
        copies[i].revision == from.entries[i].revision && copies[i].bytes <= from.entries[i].bytes
      ensures Valid() && entries == copies && budget == from.budget && discardedThrough == from.discardedThrough
      ensures submitted == from.submitted[..|from.submitted| - |copies|] + copies
      ensures stats == from.stats.(retainedBytes := Bytes(copies))
      ensures recorded == from.recorded && recordedItems == from.recordedItems
      ensures evicted == from.evicted && discarded == from.discarded
    {
      hide Increasing, Suffix, FloorOf, Bytes;
      BytesShrink(copies, from.entries);
      CopyKeeps(from.submitted, from.entries, copies);
      entries, budget, discardedThrough := copies, from.budget, from.discardedThrough;
      stats := from.stats.(retainedBytes := Bytes(copies));
      submitted := from.submitted[..|from.submitted| - |copies|] + copies;
      recorded, recordedItems, evicted, discarded := from.recorded, from.recordedItems, from.evicted, from.discarded;
    }

    /** What a cursor left at `previous` has not read, by how many revisions it
        is behind `current`: an error exactly when the history has dropped some
        of it. */
    method Read(previous: U64, current: U64) returns (unread: Option<seq<Batch>>)
      requires Valid() && Consecutive(submitted) && previous <= current
      requires submitted != [] ==> current == Last(submitted) && submitted[0].revision <= previous + 1
      requires submitted == [] ==> previous == current
      ensures unread == if previous < discardedThrough then None else Some(Newer(submitted, previous))
    {
      if previous < discardedThrough {
        return None;
      }
      var count := current - previous;
      var skip := if count < |entries| then |entries| - count else 0;
      if submitted != [] {
        ReplayComplete(submitted, entries, previous);
        ReadsAll(submitted, entries, previous);
      }
      hide Increasing, Suffix, Consecutive, FloorOf, Bytes;
      return Some(entries[skip..]);
    }

    /** The batches after `generation`, exactly when one is retained for each
        generation since. `current` may be past what was ever recorded: a layer
        put in another's place moves on with an empty history. */
    method ChangedSince(generation: U64, current: U64) returns (changes: Option<seq<Batch>>)
      requires Valid() && Consecutive(entries) && (entries != [] ==> current == Last(entries))
      ensures changes.Some? <==>
        generation <= current && forall g: nat :: generation < g <= current ==> Retains(entries, g)
      ensures generation < current && changes.Some? ==> changes.value == Newer(submitted, generation)
      ensures generation == current ==> changes == Some([])
    {
      hide Newer, Increasing, Suffix, FloorOf, Bytes, Consecutive;
      if generation == current {
        return Some([]);
      }
      if generation < current {
        RetainsSince(submitted, entries, generation, current);
        ReplayComplete(submitted, entries, generation);
      }
      if generation > current || |entries| == 0 || entries[0].revision > generation + 1 {
        return None;
      }
      return Some(Newer(entries, generation));
    }

    /** What is retained is exactly what was submitted since the floor. */
    lemma {:induction false} RetainedSinceFloor()
      requires Valid()
      ensures Newer(submitted, discardedThrough) == entries
      ensures forall since: nat :: Newer(entries, since) == Newer(submitted, since) <==> discardedThrough <= since
    {
      RetainedIsNewer(submitted, entries);
      forall since: nat ensures Newer(entries, since) == Newer(submitted, since) <==> discardedThrough <= since {
        ReplayComplete(submitted, entries, since);
      }
    }
  }

  lemma {:induction false} BytesShrink(s: seq<Batch>, t: seq<Batch>)
    requires |s| == |t| && forall i :: 0 <= i < |s| ==> s[i].bytes <= t[i].bytes
    ensures Bytes(s) <= Bytes(t)
  {
    if s != [] { BytesShrink(s[..|s| - 1], t[..|t| - 1]); }
  }

  lemma {:induction false} SuffixIsConsecutive(s: seq<Batch>, t: seq<Batch>)
    requires Suffix(t, s) && Increasing(s) && Consecutive(s)
    ensures Increasing(t) && Consecutive(t) && (t != [] ==> Last(t) == Last(s))
  {
  }

  /** A cursor at or after the floor is behind by no more than is retained. */
  lemma {:induction false} ReadsAll(submitted: seq<Batch>, entries: seq<Batch>, previous: nat)
    requires Increasing(submitted) && Consecutive(submitted) && Suffix(entries, submitted)
    requires submitted != [] && submitted[0].revision <= previous + 1
    requires FloorOf(submitted, |entries|) <= previous <= Last(submitted)
    ensures Last(submitted) - previous <= |entries|
    ensures Newer(entries, previous) == entries[|entries| - (Last(submitted) - previous)..]
  {
    var d := |submitted| - |entries|;
    RevisionAt(submitted, |submitted| - 1);
    if d > 0 {
      RevisionAt(submitted, d - 1);
      assert submitted[..d][d - 1] == submitted[d - 1];
    }
    SuffixIsConsecutive(submitted, entries);
    if entries != [] { NewerByCount(entries, previous); }
  }

  /** A batch of the revision is retained. */
  ghost predicate Retains(entries: seq<Batch>, revision: nat) {
    exists i :: 0 <= i < |entries| && entries[i].revision == revision
  }

  lemma {:induction false} RetainsAt(entries: seq<Batch>, revision: nat)
    requires Consecutive(entries) && entries != [] && entries[0].revision <= revision <= Last(entries)
    ensures Retains(entries, revision)
  {
    RevisionAt(entries, |entries| - 1);
    RevisionAt(entries, revision - entries[0].revision);
  }

  /** Every revision since is retained exactly when the oldest batch leaves no
      gap, and then no batch since was dropped. */
  lemma {:induction false} RetainsSince(submitted: seq<Batch>, entries: seq<Batch>, since: nat, current: nat)
    requires Increasing(submitted) && Suffix(entries, submitted) && Consecutive(entries) && since < current
    requires entries != [] ==> current == Last(entries)
    ensures (forall g: nat :: since < g <= current ==> Retains(entries, g)) <==>
      entries != [] && entries[0].revision <= since + 1
    ensures entries != [] && entries[0].revision <= since + 1 ==> FloorOf(submitted, |entries|) <= since
  {
    if entries != [] {
      FloorBelow(submitted, entries);
      forall g: nat | entries[0].revision <= g <= current ensures Retains(entries, g) { RetainsAt(entries, g); }
      forall i | 0 <= i < |entries| ensures entries[i].revision >= entries[0].revision { RevisionAt(entries, i); }
    }
    var next: nat := since + 1;
    assert Retains(entries, next) ==> entries != [] && entries[0].revision <= next;
  }

  lemma {:induction false} FloorBelow(submitted: seq<Batch>, entries: seq<Batch>)
    requires Increasing(submitted) && Suffix(entries, submitted) && entries != []
    ensures FloorOf(submitted, |entries|) < entries[0].revision
  {
    Oldest(submitted, entries);
  }
}
