/**
 * The relay-side cache of proposer inclusion constraints: for each of a
 * bounded number of slots, the constraints submitted for that slot, keyed by
 * the hash of their transaction.
 *
 * Decoding a transaction (typed-transaction decoding followed by Keccak
 * hashing) is not modelled; every writing operation takes the decoder as a
 * parameter, a function from raw bytes to the transaction hash that fails on
 * bytes that are not a transaction.
 */
module Constraints {
  import opened Common
  import Lru

  /** Raw signed transaction bytes. */
  type Transaction = seq<byte>

  /** A transaction hash (32 bytes of Keccak-256; its width plays no part in the cache). */
  type Hash = seq<byte>

  /** A 96-byte BLS signature. */
  type BLSSignature = s: seq<byte> | |s| == 96 witness seq(96, _ => 0)

  /** A transaction that must be included, optionally at a fixed position. */
  datatype Constraint = Constraint(tx: Transaction, index: Option<uint64>)

  datatype ConstraintsMessage =
    ConstraintsMessage(validatorIndex: uint64, slot: uint64, constraints: seq<Constraint>)

  datatype SignedConstraints = SignedConstraints(message: ConstraintsMessage, signature: BLSSignature)

  type BatchedSignedConstraints = seq<SignedConstraints>

  /**
   * Transaction decoding followed by hashing, as a partial map: the bytes
   * it holds decode to a transaction with the given hash, other bytes are
   * malformed.
   */
  type Decoder = imap<Transaction, Hash>

  /** The hash of `tx`, or `None` when `tx` does not decode. */
  function Decode(decode: Decoder, tx: Transaction): Option<Hash> {
    if tx in decode then Some(decode[tx]) else None
  }

  /** One slot's constraints, keyed by transaction hash. */
  type SlotConstraints = map<Hash, Constraint>

  /** The cache's state: slots in recency order, each with its constraints. */
  type SlotCache = Lru.Cache<SlotConstraints>

  /** The map a write to `slot` starts from: the cached one, or the empty one the write creates. */
  function SlotMap(c: SlotCache, slot: uint64): SlotConstraints {
    if slot in c.items then c.items[slot] else map[]
  }

  /**
   * What both add operations do before decoding anything: a `Get` that
   * refreshes the slot and, when the slot was missing, an `Add` of an empty
   * map for it.
   */
  function Prepared(c: SlotCache, slot: uint64): (r: SlotCache)
    ensures r.size == c.size
    ensures 0 < c.size ==> r.order != [] && Lru.Newest(r.order) == slot
    ensures slot in r.items ==> r.items[slot] == SlotMap(c, slot)
  {
    if slot in c.items then Lru.Touch(c, slot) else Lru.Add(c, slot, map[])
  }

  /** The cache after preparing `slot` and then replacing its map, through the reference `Get` returned, by `m`. */
  function Written(c: SlotCache, slot: uint64, m: SlotConstraints): (r: SlotCache)
    ensures r.size == c.size
    ensures 0 < c.size ==> r.order != [] && Lru.Newest(r.order) == slot
    ensures slot in r.items ==> r.items[slot] == m
  {
    Lru.Update(Prepared(c, slot), slot, m)
  }

  /** The cache after a successful single write of `con` under hash `h` at `slot`. */
  function Inserted(c: SlotCache, slot: uint64, h: Hash, con: Constraint): (r: SlotCache)
    ensures slot in r.items ==> h in r.items[slot] && r.items[slot][h] == con
  {
    Written(c, slot, SlotMap(c, slot)[h := con])
  }

  /** The cached slots other than `slot` that survive a write to `slot`. */
  function Survivors(c: SlotCache, slot: uint64): map<uint64, SlotConstraints>
    requires Lru.Valid(c)
  {
    if Lru.Evicts(c, slot) && c.order != [] then c.items - {c.order[0]} else c.items
  }

  /** Every surviving slot was cached before, with the same constraints. */
  lemma SurvivorsSpec(c: SlotCache, slot: uint64)
    requires Lru.Valid(c)
    ensures forall t :: t in Survivors(c, slot) ==> t in c.items && Survivors(c, slot)[t] == c.items[t]
  {
  }

  /**
   * Preparing a slot keeps the cache valid, leaves the slot present, newest
   * and holding its previous constraints (or the new empty map), and keeps
   * every other slot's map as it was, except that a missing slot in a full
   * cache evicts the least recently used slot.
   */
  lemma PreparedSpec(c: SlotCache, slot: uint64)
    requires Lru.Valid(c)
    ensures Lru.Valid(Prepared(c, slot)) && Prepared(c, slot).size == c.size
    ensures Lru.Newest(Prepared(c, slot).order) == slot
    ensures Prepared(c, slot).items == Survivors(c, slot)[slot := SlotMap(c, slot)]
    ensures Lru.Evicts(c, slot) <==> slot !in c.items && |c.order| == c.size
  {
    Lru.AddSpec(c, slot, map[]);
    if slot in c.items {
      Lru.TouchSpec(c, slot);
      assert c.items[slot := c.items[slot]] == c.items;
    }
  }

  /**
   * The slot is created before the transaction is decoded, so even a write
   * that is then rejected, to a new slot of a full cache, evicts the least
   * recently used slot with all its constraints.
   */
  lemma RejectedWriteEvicts(c: SlotCache, slot: uint64)
    requires Lru.Valid(c) && slot !in c.items && |c.order| == c.size
    ensures c.order != [] && c.order[0] in c.items && c.order[0] !in Prepared(c, slot).items
    ensures slot in Prepared(c, slot).items && Prepared(c, slot).items[slot] == map[]
  {
    PreparedSpec(c, slot);
    assert c.order[0] in c.order;
  }

  /**
   * Writing a map to a prepared slot keeps the cache valid and within its
   * capacity, leaves the slot present and newest holding that map, and keeps
   * every surviving slot's map.
   */
  lemma WrittenSpec(c: SlotCache, slot: uint64, m: SlotConstraints)
    requires Lru.Valid(c)
    ensures Lru.Valid(Written(c, slot, m)) && Written(c, slot, m).size == c.size
    ensures Lru.Newest(Written(c, slot, m).order) == slot
    ensures Written(c, slot, m).items == Survivors(c, slot)[slot := m]
  {
    PreparedSpec(c, slot);
    Lru.UpdateSpec(Prepared(c, slot), slot, m);
  }

  /**
   * Per-slot isolation: after a write to `slot` the cache is valid and within
   * its capacity, `slot` is present and the most recently used, and every
   * other cached slot was cached before with the same constraints.
   */
  lemma WriteIsolated(c: SlotCache, slot: uint64, m: SlotConstraints)
    requires Lru.Valid(c)
    ensures Lru.Valid(Written(c, slot, m)) && Written(c, slot, m).size == c.size
    ensures slot in Written(c, slot, m).items && Lru.Newest(Written(c, slot, m).order) == slot
    ensures forall t :: t != slot && t in Written(c, slot, m).items ==>
      t in c.items && Written(c, slot, m).items[t] == c.items[t]
  {
    WrittenSpec(c, slot, m);
    SurvivorsSpec(c, slot);
  }

  /** A second write through the same reference replaces the first. */
  lemma Rewritten(c: SlotCache, slot: uint64, m: SlotConstraints, m': SlotConstraints)
    requires Lru.Valid(c)
    ensures Lru.Update(Written(c, slot, m), slot, m') == Written(c, slot, m')
  {
    Lru.UpdateTwice(Prepared(c, slot), slot, m, m');
  }

  /**
   * A successful write leaves `h` mapped to exactly `con` in the slot, keeps
   * the slot's other constraints, makes the slot the most recently used,
   * never exceeds the capacity, and leaves every other slot's map unchanged
   * apart from the eviction of the least recently used slot when a new slot
   * is created in a full cache.
   */
  lemma InsertedSpec(c: SlotCache, slot: uint64, h: Hash, con: Constraint)
    requires Lru.Valid(c)
    ensures Lru.Valid(Inserted(c, slot, h, con)) && Inserted(c, slot, h, con).size == c.size
    ensures Lru.Newest(Inserted(c, slot, h, con).order) == slot
    ensures Inserted(c, slot, h, con).items == Survivors(c, slot)[slot := SlotMap(c, slot)[h := con]]
  {
    WrittenSpec(c, slot, SlotMap(c, slot)[h := con]);
    PreparedSpec(c, slot);
  }

  /** After a successful write the slot holds its previous constraints with `con` under `h`. */
  lemma InsertedSlot(c: SlotCache, slot: uint64, h: Hash, con: Constraint)
    requires Lru.Valid(c)
    ensures Lru.Valid(Inserted(c, slot, h, con))
    ensures slot in Inserted(c, slot, h, con).items
    ensures SlotMap(Inserted(c, slot, h, con), slot) == SlotMap(c, slot)[h := con]
  {
    InsertedSpec(c, slot, h, con);
  }

  /**
   * Writing two constraints with the same hash to the same slot leaves one
   * entry for that hash, holding the later constraint (and so its index).
   */
  lemma SameHashOverwrites(c: SlotCache, slot: uint64, h: Hash, first: Constraint, second: Constraint)
    requires Lru.Valid(c)
    ensures slot in Inserted(Inserted(c, slot, h, first), slot, h, second).items
    ensures SlotMap(Inserted(Inserted(c, slot, h, first), slot, h, second), slot) == SlotMap(c, slot)[h := second]
  {
    InsertedTwice(c, slot, h, first, second);
    assert SlotMap(c, slot)[h := first][h := second] == SlotMap(c, slot)[h := second];
  }

  /** Two successful writes to the same slot, one after the other. */
  lemma InsertedTwice(c: SlotCache, slot: uint64, h: Hash, first: Constraint, second: Constraint)
    requires Lru.Valid(c)
    ensures slot in Inserted(Inserted(c, slot, h, first), slot, h, second).items
    ensures SlotMap(Inserted(Inserted(c, slot, h, first), slot, h, second), slot) ==
            SlotMap(c, slot)[h := first][h := second]
  {
    InsertedSlot(c, slot, h, first);
    InsertedSlot(Inserted(c, slot, h, first), slot, h, second);
  }

  /** How many constraints of a batch decode before the first one that does not. */
  function FirstUndecodable(cs: seq<Constraint>, decode: Decoder): (n: nat)
    ensures n <= |cs|
    ensures forall j :: 0 <= j < n ==> Decode(decode, cs[j].tx).Some?
    ensures n < |cs| ==> Decode(decode, cs[n].tx).None?
  {
    if cs == [] || Decode(decode, cs[0].tx).None? then 0
    else 1 + FirstUndecodable(cs[1..], decode)
  }

  /** The first position that fails to decode is the only one before which everything decodes. */
  lemma FirstUndecodableUnique(cs: seq<Constraint>, decode: Decoder, n: nat)
    requires n <= |cs| && forall j :: 0 <= j < n ==> Decode(decode, cs[j].tx).Some?
    requires n < |cs| ==> Decode(decode, cs[n].tx).None?
    ensures FirstUndecodable(cs, decode) == n
  {
  }

  /** All of the first `n` constraints of `cs` decode. */
  predicate Decodable(cs: seq<Constraint>, n: nat, decode: Decoder) {
    n <= |cs| && forall j :: 0 <= j < n ==> Decode(decode, cs[j].tx).Some?
  }

  /** `m` after writing the first `n` constraints of `cs`, in order, each under its transaction's hash. */
  function Merge(m: SlotConstraints, cs: seq<Constraint>, n: nat, decode: Decoder): (r: SlotConstraints)
    requires Decodable(cs, n, decode)
    ensures m.Keys <= r.Keys
  {
    if n == 0 then m
    else Merge(m, cs, n - 1, decode)[Decode(decode, cs[n - 1].tx).value := cs[n - 1]]
  }

  /** Writing one more constraint of the batch: the map so far, with that constraint under its hash. */
  lemma MergeStep(m: SlotConstraints, cs: seq<Constraint>, n: nat, decode: Decoder)
    requires Decodable(cs, n, decode) && n < |cs| && Decode(decode, cs[n].tx).Some?
    ensures Decodable(cs, n + 1, decode)
    ensures Merge(m, cs, n + 1, decode) == Merge(m, cs, n, decode)[Decode(decode, cs[n].tx).value := cs[n]]
  {
  }

  /** Whether one of the first `n` constraints of `cs` decodes to `h`. */
  predicate Writes(cs: seq<Constraint>, n: nat, decode: Decoder, h: Hash) {
    exists j :: 0 <= j < n && j < |cs| && Decode(decode, cs[j].tx) == Some(h)
  }

  /** After a sequence of writes a hash is present exactly when it was already there or was written. */
  lemma {:induction false} MergeKeys(m: SlotConstraints, cs: seq<Constraint>, n: nat, decode: Decoder, h: Hash)
    requires Decodable(cs, n, decode)
    ensures h in Merge(m, cs, n, decode) <==> h in m || Writes(cs, n, decode, h)
  {
    if n > 0 {
      MergeKeys(m, cs, n - 1, decode, h);
    }
  }

  /** The last of the written constraints that has a given hash is the one left under that hash. */
  lemma {:induction false} MergeLastWins(m: SlotConstraints, cs: seq<Constraint>, n: nat, decode: Decoder, j: nat)
    requires Decodable(cs, n, decode) && j < n
    requires forall k :: j < k < n ==> Decode(decode, cs[k].tx) != Decode(decode, cs[j].tx)
    ensures Decode(decode, cs[j].tx).value in Merge(m, cs, n, decode)
    ensures Merge(m, cs, n, decode)[Decode(decode, cs[j].tx).value] == cs[j]
  {
    if j < n - 1 {
      MergeLastWins(m, cs, n - 1, decode, j);
    }
  }

  /** A hash none of the written constraints has keeps its previous constraint. */
  lemma {:induction false} MergeUntouched(m: SlotConstraints, cs: seq<Constraint>, n: nat, decode: Decoder, h: Hash)
    requires Decodable(cs, n, decode)
    requires !Writes(cs, n, decode, h) && h in m
    ensures h in Merge(m, cs, n, decode) && Merge(m, cs, n, decode)[h] == m[h]
  {
    if n > 0 {
      assert Decode(decode, cs[n - 1].tx) != Some(h);
      MergeUntouched(m, cs, n - 1, decode, h);
    }
  }

  /**
   * A batch is not atomic. When the constraint at position `n` is the first
   * that fails to decode, every constraint before it has been written and
   * nothing from position `n` on has: a hash that was neither in the slot
   * nor among the first `n` constraints is still absent.
   */
  lemma BatchNotAtomic(m: SlotConstraints, cs: seq<Constraint>, decode: Decoder)
    ensures Decodable(cs, FirstUndecodable(cs, decode), decode)
    ensures forall j :: 0 <= j < FirstUndecodable(cs, decode) ==>
      Decode(decode, cs[j].tx).value in Merge(m, cs, FirstUndecodable(cs, decode), decode)
    ensures forall h :: h !in m && !Writes(cs, FirstUndecodable(cs, decode), decode, h) ==>
      h !in Merge(m, cs, FirstUndecodable(cs, decode), decode)
  {
    var n := FirstUndecodable(cs, decode);
    forall j | 0 <= j < n ensures Decode(decode, cs[j].tx).value in Merge(m, cs, n, decode) {
      MergeKeys(m, cs, n, decode, Decode(decode, cs[j].tx).value);
    }
    forall h | h !in m && !Writes(cs, n, decode, h) ensures h !in Merge(m, cs, n, decode) {
      MergeKeys(m, cs, n, decode, h);
    }
  }

  /**
   * The constraint a scan of the slots' maps, from the least to the most
   * recently used, finds first under `h`.
   */
  function FindIn(slots: seq<SlotConstraints>, h: Hash): (r: Option<Constraint>)
    ensures r.Some? <==> exists i :: 0 <= i < |slots| && h in slots[i]
    ensures r.Some? ==> exists i :: 0 <= i < |slots| && h in slots[i] && slots[i][h] == r.value &&
                                    forall j :: 0 <= j < i ==> h !in slots[j]
  {
    if slots == [] then None
    else if h in slots[0] then Some(slots[0][h])
    else
      var r := FindIn(slots[1..], h);
      assert forall i :: 1 <= i < |slots| ==> slots[i] == slots[1..][i - 1];
      r
  }

  /**
   * After a successful write the hash is found by a scan of the cache, and
   * the scan yields the written constraint itself when no other cached slot
   * holds that hash.
   */
  lemma InsertedIsFound(c: SlotCache, slot: uint64, h: Hash, con: Constraint)
    requires Lru.Valid(c)
    ensures Lru.Valid(Inserted(c, slot, h, con))
    ensures FindIn(Lru.Values(Inserted(c, slot, h, con)), h).Some?
    ensures (forall t :: t in Survivors(c, slot) && t != slot ==> h !in Survivors(c, slot)[t]) ==>
            FindIn(Lru.Values(Inserted(c, slot, h, con)), h) == Some(con)
  {
    InsertedSpec(c, slot, h, con);
    var r := Inserted(c, slot, h, con);
    var vs := Lru.Values(r);
    var last := |r.order| - 1;
    assert r.order[last] == slot && vs[last] == r.items[slot];
    if forall t :: t in Survivors(c, slot) && t != slot ==> h !in Survivors(c, slot)[t] {
      forall i | 0 <= i < last ensures h !in vs[i] {
        assert r.order[i] in r.items && r.order[i] != slot;
      }
    }
  }

  /**
   * `ConstraintCache`: the slot cache behind a single mutable field, as the
   * relay holds it.
   */
  class ConstraintCache {
    /** The slots and their constraints, in recency order. */
    var constraints: SlotCache

    ghost predicate Valid()
      reads this
    {
      Lru.Valid(constraints)
    }

    /**
     * `NewConstraintCache(cap)`: an empty cache holding at most `cap` slots.
     * A non-positive capacity leaves the Go cache without its LRU, and every
     * later call on it fails, so it is excluded here.
     */
    constructor (cap: int)
      requires 0 < cap
      ensures Valid() && constraints.size == cap
      ensures forall slot :: slot !in constraints.items
    {
      constraints := Lru.New(cap);
    }

    /**
     * `Get(slot)`: the slot's constraints and whether the slot is cached; a
     * cached slot becomes the most recently used, a missing one yields the
     * empty map.
     */
    method Get(slot: uint64) returns (m: SlotConstraints, ok: bool)
      requires Valid()
      modifies this
      ensures Valid()
      ensures ok == (slot in old(constraints.items))
      ensures m == SlotMap(old(constraints), slot)
      ensures constraints.items == old(constraints.items)
      ensures constraints == Lru.Touch(old(constraints), slot)
    {
      Lru.TouchSpec(constraints, slot);
      ok := slot in constraints.items;
      m := SlotMap(constraints, slot);
      constraints := Lru.Touch(constraints, slot);
    }

    /**
     * `AddInclusionConstraint(slot, tx, index)`: the slot is refreshed, or
     * created empty, before the transaction is decoded; a transaction that
     * does not decode is an error and adds nothing; one that does is written
     * under its hash, replacing any constraint with the same hash.
     */
    method AddInclusionConstraint(slot: uint64, tx: Transaction, index: Option<uint64>, decode: Decoder)
      returns (ok: bool)
      requires Valid()
      modifies this
      ensures Valid() && constraints.size == old(constraints.size)
      ensures ok == Decode(decode, tx).Some?
      ensures constraints == if ok then Inserted(old(constraints), slot, Decode(decode, tx).value, Constraint(tx, index))
                             else Prepared(old(constraints), slot)
      ensures slot in constraints.items && Lru.Newest(constraints.order) == slot
      ensures constraints.items[slot] ==
        if ok then SlotMap(old(constraints), slot)[Decode(decode, tx).value := Constraint(tx, index)]
        else SlotMap(old(constraints), slot)
      ensures forall t :: t != slot && t in constraints.items ==>
        t in old(constraints.items) && constraints.items[t] == old(constraints.items[t])
    {
      ghost var before := constraints;
      PreparedSpec(before, slot);
      SurvivorsSpec(before, slot);
      var _, present := Get(slot);
      if !present {
        Lru.AddSpec(constraints, slot, map[]);
        constraints := Lru.Add(constraints, slot, map[]);
      }
      assert constraints == Prepared(before, slot);
      var parsed := Decode(decode, tx);
      if parsed.None? {
        return false;
      }
      InsertedSpec(before, slot, parsed.value, Constraint(tx, index));
      Lru.TouchNewest(constraints, slot);
      var m, _ := Get(slot);
      constraints := Lru.Update(constraints, slot, m[parsed.value := Constraint(tx, index)]);
      return true;
    }

    /**
     * `AddInclusionConstraints(slot, constraints)`: the slot is refreshed or
     * created, then the constraints are written in order, each under its
     * transaction's hash; the first one that does not decode stops the batch
     * with an error, leaving the ones before it written.
     */
    method AddInclusionConstraints(slot: uint64, batch: seq<Constraint>, decode: Decoder)
      returns (ok: bool)
      requires Valid()
      modifies this
      ensures Valid() && constraints.size == old(constraints.size)
      ensures ok == (FirstUndecodable(batch, decode) == |batch|)
      ensures constraints == Written(old(constraints), slot,
        Merge(SlotMap(old(constraints), slot), batch, FirstUndecodable(batch, decode), decode))
      ensures slot in constraints.items && Lru.Newest(constraints.order) == slot
      ensures forall t :: t != slot && t in constraints.items ==>
        t in old(constraints.items) && constraints.items[t] == old(constraints.items[t])
    {
      ghost var before := constraints;
      ghost var start := SlotMap(before, slot);
      var _, present := Get(slot);
      if !present {
        constraints := Lru.Add(constraints, slot, map[]);
      }
      assert Valid() && constraints == Prepared(before, slot) && constraints.order != [] &&
             Lru.Newest(constraints.order) == slot && constraints.items[slot] == start by {
        PreparedSpec(before, slot);
      }
      assert Lru.Touch(constraints, slot) == constraints by {
        Lru.TouchNewest(constraints, slot);
      }
      var m, _ := Get(slot);
      assert constraints == Written(before, slot, m) by {
        Lru.UpdateSame(constraints, slot);
      }
      var i := 0;
      while i < |batch|
        invariant 0 <= i <= |batch|
        invariant Decodable(batch, i, decode) && m == Merge(start, batch, i, decode)
        invariant constraints == Written(before, slot, m)
      {
        var parsed := Decode(decode, batch[i].tx);
        if parsed.None? {
          break;
        }
        assert Decodable(batch, i + 1, decode) &&
               m[parsed.value := batch[i]] == Merge(start, batch, i + 1, decode) by {
          MergeStep(start, batch, i, decode);
        }
        ghost var previous := m;
        m := m[parsed.value := batch[i]];
        assert Lru.Update(constraints, slot, m) == Written(before, slot, m) by {
          Rewritten(before, slot, previous, m);
        }
        constraints := Lru.Update(constraints, slot, m);
        i := i + 1;
      }
      ok := i == |batch|;
      assert FirstUndecodable(batch, decode) == i by {
        FirstUndecodableUnique(batch, decode, i);
      }
      WriteIsolated(before, slot, m);
    }

    /**
     * `FindTransactionByHash(h)`: the constraint under `h` in the least
     * recently used slot that holds one, or nothing; the scan changes
     * nothing, not even recency.
     */
    method FindTransactionByHash(h: Hash) returns (r: Option<Constraint>)
      requires Valid()
      ensures r == FindIn(Lru.Values(constraints), h)
    {
      var values := Lru.Values(constraints);
      var i := 0;
      while i < |values|
        invariant 0 <= i <= |values|
        invariant FindIn(values, h) == FindIn(values[i..], h)
      {
        if h in values[i] {
          return Some(values[i][h]);
        }
        assert values[i..][1..] == values[i + 1..];
        i := i + 1;
      }
      return None;
    }
  }
}
