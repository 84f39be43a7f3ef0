/** The worker pool of main.go, run sequentially: each worker takes a task
    from the channel and stores its mapping, then adds its code to the
    Bloom filter. Goroutines, the channel and the wait group are not
    modelled; draining the channel is a fold of the task sequence over
    the shared (store, filter) pair. */
module Worker {
  import Store
  import Bloom

  /** The two shared resources the workers write. */
  datatype World = World(urls: Store.UrlStore, filter: Bloom.Filter)

  predicate Valid(w: World)
  {
    Bloom.Valid(w.filter)
  }

  /** Start-up: an empty store and a clear filter of the given geometry. */
  function Init(size: nat, hashCount: nat): (w: World)
    requires size > 0 && hashCount >= 1
    ensures Valid(w) && |w.filter.bits| == size && w.filter.hashCount == hashCount
    ensures w.urls.entries == map[]
    ensures forall j :: 0 <= j < |w.filter.bits| ==> !w.filter.bits[j]
  {
    World(Store.NewUrlStore(), Bloom.NewFilter(size, hashCount))
  }

  /** The linking invariant: every stored code is a possible member of the
      filter, so the filter never answers "definitely absent" for a code
      that is in the store. */
  ghost predicate Linked(w: World, hash: Bloom.Hash)
    requires Valid(w)
  {
    forall c :: c in w.urls.entries ==> Bloom.MightContain(w.filter, hash, c)
  }

  /** The first half of a task: `urlStore.Store`. */
  function StoreStep(w: World, t: Store.Task): World
  {
    World(Store.Store(w.urls, t.shortCode, t.url), w.filter)
  }

  /** The second half of a task: `bloomFilter.Add`. */
  function AddStep(w: World, hash: Bloom.Hash, t: Store.Task): World
    requires Valid(w)
  {
    World(w.urls, Bloom.Add(w.filter, hash, t.shortCode))
  }

  /** One iteration of the worker loop: store first, then add. Afterwards
      the code maps to the task's URL and is a possible filter member, the
      filter only gained bits, and its geometry is unchanged. */
  function Apply(w: World, hash: Bloom.Hash, t: Store.Task): (r: World)
    requires Valid(w)
    ensures Valid(r) && |r.filter.bits| == |w.filter.bits| && r.filter.hashCount == w.filter.hashCount
    ensures Store.Get(r.urls, t.shortCode) == Store.Lookup(t.url, true)
    ensures Bloom.MightContain(r.filter, hash, t.shortCode)
  {
    Bloom.NoFalseNegative(w.filter, hash, t.shortCode);
    AddStep(StoreStep(w, t), hash, t)
  }

  /** A task leaves the mapping of every other code as it was. */
  lemma ApplyKeepsOtherCodes(w: World, hash: Bloom.Hash, t: Store.Task, c: string)
    requires Valid(w) && c != t.shortCode
    ensures Store.Get(Apply(w, hash, t).urls, c) == Store.Get(w.urls, c)
  {
  }

  /** The ordering of the two halves. Let `added` be the codes already
      handed to the filter, all of them stored. Between the halves (where
      a crash would stop the worker) the filter is untouched and the new
      code is already stored, so at every point of the task each code the
      filter was given is in the store. */
  lemma ApplyStoresFirst(w: World, hash: Bloom.Hash, t: Store.Task, added: set<string>)
    requires Valid(w) && added <= w.urls.entries.Keys
    ensures var mid := StoreStep(w, t);
      && mid.filter == w.filter
      && t.shortCode in mid.urls.entries
      && added <= mid.urls.entries.Keys
      && Apply(w, hash, t) == AddStep(mid, hash, t)
      && added + {t.shortCode} <= Apply(w, hash, t).urls.entries.Keys
  {
  }

  /** The empty start state is linked. */
  lemma InitLinked(size: nat, hashCount: nat, hash: Bloom.Hash)
    requires size > 0 && hashCount >= 1
    ensures Linked(Init(size, hashCount), hash)
  {
  }

  /** Applying a task preserves the linking invariant. */
  lemma ApplyPreservesLinked(w: World, hash: Bloom.Hash, t: Store.Task)
    requires Valid(w) && Linked(w, hash)
    ensures Linked(Apply(w, hash, t), hash)
  {
    var r := Apply(w, hash, t);
    forall c | c in r.urls.entries
      ensures Bloom.MightContain(r.filter, hash, c)
    {
      if c != t.shortCode {
        ApplyKeepsOtherCodes(w, hash, t, c);
        ApplyGrows(w, hash, t);
        assert Store.Get(w.urls, c).found;
        Bloom.MightContainMonotone(w.filter, r.filter, hash, c);
      }
    }
  }

  /** Draining the channel: every task applied once, in sequence order. */
  function Drain(w: World, hash: Bloom.Hash, tasks: seq<Store.Task>): (r: World)
    requires Valid(w)
    ensures Valid(r) && |r.filter.bits| == |w.filter.bits| && r.filter.hashCount == w.filter.hashCount
    decreases |tasks|
  {
    if tasks == [] then w else Drain(Apply(w, hash, tasks[0]), hash, tasks[1..])
  }

  /** A task only sets filter bits. */
  lemma ApplyGrows(w: World, hash: Bloom.Hash, t: Store.Task)
    requires Valid(w)
    ensures Bloom.Below(w.filter, Apply(w, hash, t).filter)
  {
    Bloom.AddMonotone(w.filter, hash, t.shortCode);
  }

  /** A drain only sets filter bits. */
  lemma {:induction false} DrainGrows(w: World, hash: Bloom.Hash, tasks: seq<Store.Task>)
    requires Valid(w)
    ensures Bloom.Below(w.filter, Drain(w, hash, tasks).filter)
    decreases |tasks|
  {
    if tasks != [] {
      ApplyGrows(w, hash, tasks[0]);
      DrainGrows(Apply(w, hash, tasks[0]), hash, tasks[1..]);
    }
  }

  /** Draining a backlog in two parts is draining it in one. */
  lemma {:induction false} DrainAppend(w: World, hash: Bloom.Hash, a: seq<Store.Task>, b: seq<Store.Task>)
    requires Valid(w)
    ensures Drain(w, hash, a + b) == Drain(Drain(w, hash, a), hash, b)
    decreases |a|
  {
    if a == [] {
      assert a + b == b;
    } else {
      assert (a + b)[0] == a[0];
      assert (a + b)[1..] == a[1..] + b;
      DrainAppend(Apply(w, hash, a[0]), hash, a[1..], b);
    }
  }

  /** The last task of a backlog is applied after all the others. */
  lemma {:induction false} DrainLast(w: World, hash: Bloom.Hash, tasks: seq<Store.Task>)
    requires Valid(w) && |tasks| > 0
    ensures var n := |tasks| - 1;
      Drain(w, hash, tasks) == Apply(Drain(w, hash, tasks[..n]), hash, tasks[n])
    decreases |tasks|
  {
    var n := |tasks| - 1;
    var w1 := Apply(w, hash, tasks[0]);
    if n == 0 {
      assert tasks[1..] == [];
      assert tasks[..n] == [];
    } else {
      DrainLast(w1, hash, tasks[1..]);
      assert tasks[1..][..n - 1] == tasks[..n][1..];
      assert tasks[..n][0] == tasks[0];
      assert tasks[1..][n - 1] == tasks[n];
    }
  }

  /** Draining preserves the linking invariant. */
  lemma {:induction false} DrainPreservesLinked(w: World, hash: Bloom.Hash, tasks: seq<Store.Task>)
    requires Valid(w) && Linked(w, hash)
    ensures Linked(Drain(w, hash, tasks), hash)
    decreases |tasks|
  {
    if tasks != [] {
      ApplyPreservesLinked(w, hash, tasks[0]);
      DrainPreservesLinked(Apply(w, hash, tasks[0]), hash, tasks[1..]);
    }
  }

  /** After the drain every task's code is stored and is a possible filter
      member, whatever state the drain started from. */
  lemma {:induction false} DrainedTasksAreMembers(w: World, hash: Bloom.Hash, tasks: seq<Store.Task>)
    requires Valid(w)
    ensures var r := Drain(w, hash, tasks);
      forall k :: 0 <= k < |tasks| ==>
        tasks[k].shortCode in r.urls.entries && Bloom.MightContain(r.filter, hash, tasks[k].shortCode)
    decreases |tasks|
  {
    if tasks != [] {
      var w1 := Apply(w, hash, tasks[0]);
      var r := Drain(w, hash, tasks);
      DrainedTasksAreMembers(w1, hash, tasks[1..]);
      forall k | 0 <= k < |tasks|
        ensures tasks[k].shortCode in r.urls.entries && Bloom.MightContain(r.filter, hash, tasks[k].shortCode)
      {
        if k == 0 {
          StoredStaysStored(w1, hash, tasks[1..], tasks[0].shortCode);
          DrainGrows(w1, hash, tasks[1..]);
          Bloom.MightContainMonotone(w1.filter, r.filter, hash, tasks[0].shortCode);
        } else {
          assert tasks[k] == tasks[1..][k - 1];
        }
      }
    }
  }

  /** Nothing is ever removed from the store. */
  lemma {:induction false} StoredStaysStored(w: World, hash: Bloom.Hash, tasks: seq<Store.Task>, c: string)
    requires Valid(w) && c in w.urls.entries
    ensures c in Drain(w, hash, tasks).urls.entries
    decreases |tasks|
  {
    if tasks != [] {
      if c != tasks[0].shortCode {
        ApplyKeepsOtherCodes(w, hash, tasks[0], c);
      }
      assert Store.Get(Apply(w, hash, tasks[0]).urls, c).found;
      StoredStaysStored(Apply(w, hash, tasks[0]), hash, tasks[1..], c);
    }
  }

  /** The filter after a drain: a bit is set exactly when it was set before
      or one of the drained codes' rounds lands on it. */
  lemma {:induction false} DrainBits(w: World, hash: Bloom.Hash, tasks: seq<Store.Task>)
    requires Valid(w)
    ensures var r := Drain(w, hash, tasks);
      var size := |w.filter.bits|;
      forall j :: 0 <= j < size ==>
        (r.filter.bits[j] <==>
          w.filter.bits[j]
          || exists k :: 0 <= k < |tasks| && Bloom.Hits(hash, tasks[k].shortCode, w.filter.hashCount, size, j))
    decreases |tasks|
  {
    if tasks != [] {
      var w1 := Apply(w, hash, tasks[0]);
      DrainBits(w1, hash, tasks[1..]);
      var size := |w.filter.bits|;
      var r := Drain(w, hash, tasks);
      forall j | 0 <= j < size
        ensures r.filter.bits[j] <==>
          w.filter.bits[j]
          || exists k :: 0 <= k < |tasks| && Bloom.Hits(hash, tasks[k].shortCode, w.filter.hashCount, size, j)
      {
        if exists k :: 0 <= k < |tasks| && Bloom.Hits(hash, tasks[k].shortCode, w.filter.hashCount, size, j) {
          var k :| 0 <= k < |tasks| && Bloom.Hits(hash, tasks[k].shortCode, w.filter.hashCount, size, j);
          if k > 0 {
            assert tasks[1..][k - 1] == tasks[k];
          }
        }
        if exists k :: 0 <= k < |tasks| - 1 && Bloom.Hits(hash, tasks[1..][k].shortCode, w.filter.hashCount, size, j) {
          var k :| 0 <= k < |tasks| - 1 && Bloom.Hits(hash, tasks[1..][k].shortCode, w.filter.hashCount, size, j);
          assert tasks[1..][k] == tasks[k + 1];
        }
      }
    }
  }

  /** The filter bits after a drain do not depend on the order the tasks
      were processed in: any permutation of the backlog, as produced by any
      interleaving of the workers, sets the same bits. */
  lemma DrainFilterOrderIndependent(w: World, hash: Bloom.Hash, tasks: seq<Store.Task>, other: seq<Store.Task>)
    requires Valid(w) && multiset(tasks) == multiset(other)
    ensures Drain(w, hash, tasks).filter == Drain(w, hash, other).filter
  {
    DrainBits(w, hash, tasks);
    DrainBits(w, hash, other);
    var r := Drain(w, hash, tasks);
    var r' := Drain(w, hash, other);
    var size := |w.filter.bits|;
    var n := w.filter.hashCount;
    forall j | 0 <= j < size
      ensures r.filter.bits[j] == r'.filter.bits[j]
    {
      if exists k :: 0 <= k < |tasks| && Bloom.Hits(hash, tasks[k].shortCode, n, size, j) {
        var k :| 0 <= k < |tasks| && Bloom.Hits(hash, tasks[k].shortCode, n, size, j);
        assert tasks[k] in multiset(other);
        var k' :| 0 <= k' < |other| && other[k'] == tasks[k];
      }
      if exists k :: 0 <= k < |other| && Bloom.Hits(hash, other[k].shortCode, n, size, j) {
        var k :| 0 <= k < |other| && Bloom.Hits(hash, other[k].shortCode, n, size, j);
        assert other[k] in multiset(tasks);
        var k' :| 0 <= k' < |tasks| && tasks[k'] == other[k];
      }
    }
    assert r.filter.bits == r'.filter.bits;
  }

  /** `k` is the last task of the backlog that carries code `c`. */
  ghost predicate LastFor(tasks: seq<Store.Task>, c: string, k: int)
  {
    0 <= k < |tasks| && tasks[k].shortCode == c
    && forall k' :: k < k' < |tasks| ==> tasks[k'].shortCode != c
  }

  /** The store after a drain, for a code no task carries: its mapping
      from before the drain, or lack of one. */
  lemma {:induction false} DrainStoreUntouched(w: World, hash: Bloom.Hash, tasks: seq<Store.Task>, c: string)
    requires Valid(w)
    requires forall k :: 0 <= k < |tasks| ==> tasks[k].shortCode != c
    ensures Store.Get(Drain(w, hash, tasks).urls, c) == Store.Get(w.urls, c)
    decreases |tasks|
  {
    if tasks != [] {
      ApplyKeepsOtherCodes(w, hash, tasks[0], c);
      assert forall k :: 0 <= k < |tasks[1..]| ==> tasks[1..][k] == tasks[k + 1];
      DrainStoreUntouched(Apply(w, hash, tasks[0]), hash, tasks[1..], c);
    }
  }

  /** The store after a drain, for a code some task carries: the URL of
      the last task carrying it. */
  lemma {:induction false} DrainStoreLast(w: World, hash: Bloom.Hash, tasks: seq<Store.Task>, c: string, k: int)
    requires Valid(w) && LastFor(tasks, c, k)
    ensures Store.Get(Drain(w, hash, tasks).urls, c) == Store.Lookup(tasks[k].url, true)
    decreases |tasks|
  {
    var w1 := Apply(w, hash, tasks[0]);
    assert forall i :: 0 <= i < |tasks[1..]| ==> tasks[1..][i] == tasks[i + 1];
    if k == 0 {
      DrainStoreUntouched(w1, hash, tasks[1..], c);
    } else {
      assert LastFor(tasks[1..], c, k - 1);
      DrainStoreLast(w1, hash, tasks[1..], c, k - 1);
    }
  }

  predicate DistinctCodes(tasks: seq<Store.Task>)
  {
    forall i, j :: 0 <= i < j < |tasks| ==> tasks[i].shortCode != tasks[j].shortCode
  }

  /** A task of one ordering of a backlog sits somewhere in any other. */
  lemma TaskIn(tasks: seq<Store.Task>, other: seq<Store.Task>, k: int) returns (k': int)
    requires multiset(tasks) == multiset(other) && 0 <= k < |tasks|
    ensures 0 <= k' < |other| && other[k'] == tasks[k]
  {
    assert tasks[k] in multiset(other);
    k' :| 0 <= k' < |other| && other[k'] == tasks[k];
  }

  /** Under distinct codes, two orders of one backlog agree on each code. */
  lemma DrainStoreAgreesAt(w: World, hash: Bloom.Hash, tasks: seq<Store.Task>, other: seq<Store.Task>, c: string)
    requires Valid(w) && multiset(tasks) == multiset(other)
    requires DistinctCodes(tasks) && DistinctCodes(other)
    ensures Store.Get(Drain(w, hash, tasks).urls, c) == Store.Get(Drain(w, hash, other).urls, c)
  {
    if k :| 0 <= k < |tasks| && tasks[k].shortCode == c {
      var k' := TaskIn(tasks, other, k);
      assert LastFor(tasks, c, k);
      assert LastFor(other, c, k');
      DrainStoreLast(w, hash, tasks, c, k);
      DrainStoreLast(w, hash, other, c, k');
    } else {
      forall k' | 0 <= k' < |other|
        ensures other[k'].shortCode != c
      {
        var k := TaskIn(other, tasks, k');
      }
      DrainStoreUntouched(w, hash, tasks, c);
      DrainStoreUntouched(w, hash, other, c);
    }
  }

  /** When no two tasks share a code, the store after a drain does not
      depend on the processing order either. */
  lemma DrainStoreOrderIndependent(w: World, hash: Bloom.Hash, tasks: seq<Store.Task>, other: seq<Store.Task>)
    requires Valid(w) && multiset(tasks) == multiset(other)
    requires DistinctCodes(tasks) && DistinctCodes(other)
    ensures Drain(w, hash, tasks).urls == Drain(w, hash, other).urls
  {
    var m := Drain(w, hash, tasks).urls.entries;
    var m' := Drain(w, hash, other).urls.entries;
    forall c
      ensures c in m <==> c in m'
      ensures c in m ==> m[c] == m'[c]
    {
      DrainStoreAgreesAt(w, hash, tasks, other, c);
    }
    assert m == m';
  }

  /** With a repeated code the order does matter: the later task's URL
      wins. */
  lemma DuplicateCodesOrderMatters()
    ensures var w := Init(1, 1);
      var hash: Bloom.Hash := (key, round) => 0;
      var a := Store.Task("q", "http://a");
      var b := Store.Task("q", "http://b");
      Drain(w, hash, [a, b]).urls != Drain(w, hash, [b, a]).urls
  {
    var w := Init(1, 1);
    var hash: Bloom.Hash := (key, round) => 0;
    var a := Store.Task("q", "http://a");
    var b := Store.Task("q", "http://b");
    assert LastFor([a, b], "q", 1);
    assert LastFor([b, a], "q", 1);
    DrainStoreLast(w, hash, [a, b], "q", 1);
    DrainStoreLast(w, hash, [b, a], "q", 1);
  }
}
