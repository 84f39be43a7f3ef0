/** The Bloom filter of bloom/bloom.go: a fixed-length bit array and a
    round count. The 64-bit hash of the key concatenated with the round
    number is an arbitrary function `hash(key, round)` passed to each
    operation, so every property below holds whatever the hash is. The
    read/write lock is not modelled; each operation is atomic. */
module Bloom {

  /** Stands for `xxhash.Sum64` applied to the key followed by the round
      number in decimal. */
  type Hash = (string, nat) -> nat

  datatype Filter = Filter(bits: seq<bool>, hashCount: nat)

  /** A usable filter: at least one bit and at least one round. */
  predicate Valid(f: Filter)
  {
    |f.bits| > 0 && f.hashCount >= 1
  }

  /** The bit position of round `round` for `key`. */
  function Index(hash: Hash, key: string, round: nat, size: nat): (j: nat)
    requires size > 0
    ensures j < size
  {
    hash(key, round) % size
  }

  /** One of `key`'s first `rounds` rounds lands on position `j`. */
  ghost predicate Hits(hash: Hash, key: string, rounds: nat, size: nat, j: nat)
    requires size > 0
  {
    exists round :: 0 <= round < rounds && Index(hash, key, round, size) == j
  }

  /** A filter of the given geometry with every bit clear. */
  function NewFilter(size: nat, hashCount: nat): (f: Filter)
    requires size > 0 && hashCount >= 1
    ensures Valid(f) && |f.bits| == size && f.hashCount == hashCount
    ensures forall j :: 0 <= j < |f.bits| ==> !f.bits[j]
  {
    Filter(seq(size, _ => false), hashCount)
  }

  /** Every bit set in `f` is set in `f'`, and the geometry agrees. */
  ghost predicate Below(f: Filter, f': Filter)
  {
    && |f.bits| == |f'.bits| && f.hashCount == f'.hashCount
    && forall j :: 0 <= j < |f.bits| && f.bits[j] ==> f'.bits[j]
  }

  /** The loop of `Add` from round `round` on. */
  function SetRounds(bits: seq<bool>, hash: Hash, key: string, round: nat, hashCount: nat): (r: seq<bool>)
    requires |bits| > 0 && round <= hashCount
    ensures |r| == |bits|
    ensures forall j :: 0 <= j < |bits| ==>
      (r[j] <==> bits[j] || exists i :: round <= i < hashCount && Index(hash, key, i, |bits|) == j)
    decreases hashCount - round
  {
    if round == hashCount then bits
    else SetRounds(bits[Index(hash, key, round, |bits|) := true], hash, key, round + 1, hashCount)
  }

  /** `Add`: exactly the key's round positions become set; every other bit,
      the size and the round count are unchanged. */
  function Add(f: Filter, hash: Hash, key: string): (r: Filter)
    requires Valid(f)
    ensures Valid(r) && |r.bits| == |f.bits| && r.hashCount == f.hashCount
    ensures forall j :: 0 <= j < |f.bits| ==>
      (r.bits[j] <==> f.bits[j] || Hits(hash, key, f.hashCount, |f.bits|, j))
  {
    Filter(SetRounds(f.bits, hash, key, 0, f.hashCount), f.hashCount)
  }

  /** The loop of `MightContain` from round `round` on, stopping at the
      first clear position. */
  function AllSet(bits: seq<bool>, hash: Hash, key: string, round: nat, hashCount: nat): (b: bool)
    requires |bits| > 0 && round <= hashCount
    ensures b <==> forall i :: round <= i < hashCount ==> bits[Index(hash, key, i, |bits|)]
    decreases hashCount - round
  {
    if round == hashCount then true
    else if !bits[Index(hash, key, round, |bits|)] then false
    else AllSet(bits, hash, key, round + 1, hashCount)
  }

  /** `MightContain`: false exactly when one of the key's round positions
      is clear. */
  function MightContain(f: Filter, hash: Hash, key: string): (b: bool)
    requires Valid(f)
    ensures b <==> forall i :: 0 <= i < f.hashCount ==> f.bits[Index(hash, key, i, |f.bits|)]
  {
    AllSet(f.bits, hash, key, 0, f.hashCount)
  }

  /** `Add` never clears a bit. */
  lemma AddMonotone(f: Filter, hash: Hash, key: string)
    requires Valid(f)
    ensures Below(f, Add(f, hash, key))
  {
  }

  /** Adding the same key twice is the same as adding it once. */
  lemma AddIdempotent(f: Filter, hash: Hash, key: string)
    requires Valid(f)
    ensures Add(Add(f, hash, key), hash, key) == Add(f, hash, key)
  {
    var once := Add(f, hash, key);
    var twice := Add(once, hash, key);
    assert twice.bits == once.bits;
  }

  /** The order in which two keys are added does not matter. */
  lemma AddCommutes(f: Filter, hash: Hash, a: string, b: string)
    requires Valid(f)
    ensures Add(Add(f, hash, a), hash, b) == Add(Add(f, hash, b), hash, a)
  {
    var ab := Add(Add(f, hash, a), hash, b);
    var ba := Add(Add(f, hash, b), hash, a);
    assert ab.bits == ba.bits;
  }

  /** No false negatives: right after `Add(key)`, `MightContain(key)`. */
  lemma NoFalseNegative(f: Filter, hash: Hash, key: string)
    requires Valid(f)
    ensures MightContain(Add(f, hash, key), hash, key)
  {
    var r := Add(f, hash, key);
    forall i | 0 <= i < f.hashCount
      ensures r.bits[Index(hash, key, i, |f.bits|)]
    {
      assert Hits(hash, key, f.hashCount, |f.bits|, Index(hash, key, i, |f.bits|));
    }
  }

  /** A "maybe" answer survives any growth of the bit set. */
  lemma MightContainMonotone(f: Filter, f': Filter, hash: Hash, key: string)
    requires Valid(f) && Below(f, f')
    requires MightContain(f, hash, key)
    ensures Valid(f') && MightContain(f', hash, key)
  {
  }

  /** Adding keys one after another. */
  function AddAll(f: Filter, hash: Hash, keys: seq<string>): (r: Filter)
    requires Valid(f)
    ensures Valid(r) && Below(f, r)
    decreases |keys|
  {
    if keys == [] then f else AddAll(Add(f, hash, keys[0]), hash, keys[1..])
  }

  /** A key once added stays a possible member whatever is added later. */
  lemma StaysMember(f: Filter, hash: Hash, key: string, later: seq<string>)
    requires Valid(f)
    ensures MightContain(AddAll(Add(f, hash, key), hash, later), hash, key)
  {
    NoFalseNegative(f, hash, key);
    var g := Add(f, hash, key);
    MightContainMonotone(g, AddAll(g, hash, later), hash, key);
  }
}
