/** The hash index over a table: storage/index/linear_probe_hash_table_index.go. */
module Indexes {
  import opened Bytes
  import opened Collections
  import opened Values
  import opened LogRecords
  import T = Tuples
  import opened Probes
  import opened ProbeTables

  // ---------- RIDs as index values ----------

  /** The low halves of page id and slot, side by side. */
  function PackRid(rid: Rid): (v: int)
    requires -U31 <= rid.page < U31 && 0 <= rid.slot < U32
    ensures 0 <= v < U32
  {
    Dec32(Enc32(ToU32(rid.page))[..2] + Enc32(rid.slot)[..2], 0)
  }

  function UnpackRid(v: int): (rid: Rid)
    requires 0 <= v < U32
  {
    var b := Enc32(v);
    Rid(Dec32(b[..2] + [0, 0], 0), Dec32(b[2..] + [0, 0], 0))
  }

  lemma {:induction false} Halves(v: int)
    requires 0 <= v < U32
    ensures Enc32(v)[0] as int + 0x100 * Enc32(v)[1] as int == v % U16
    ensures Enc32(v)[2] as int + 0x100 * Enc32(v)[3] as int == v / U16
  {
    assert v == v % 0x100 + 0x100 * (v / 0x100);
    assert v / 0x1_0000 == v / 0x100 / 0x100;
    assert v / 0x100_0000 == v / 0x1_0000 / 0x100;
  }

  lemma {:induction false} PackIs(rid: Rid)
    requires -U31 <= rid.page < U31 && 0 <= rid.slot < U32
    ensures PackRid(rid) == rid.page % U16 + U16 * (rid.slot % U16)
  {
    hide Enc32;
    Halves(ToU32(rid.page));
    Halves(rid.slot);
    assert ToU32(rid.page) % U16 == rid.page % U16;
  }

  lemma {:induction false} UnpackIs(v: int)
    requires 0 <= v < U32
    ensures UnpackRid(v) == Rid(v % U16, v / U16)
  {
    hide Enc32;
    Halves(v);
  }

  /** A RID survives packing if and only if page id and slot fit in 16 bits. */
  lemma {:induction false} PackedRidComesBack(rid: Rid)
    requires -U31 <= rid.page < U31 && 0 <= rid.slot < U32
    ensures UnpackRid(PackRid(rid)) == rid <==> 0 <= rid.page < U16 && rid.slot < U16
  {
    hide PackRid, UnpackRid;
    PackIs(rid);
    UnpackIs(PackRid(rid));
  }

  /** Every index value packs the RID it unpacks to. */
  lemma {:induction false} UnpackedValueComesBack(v: int)
    requires 0 <= v < U32
    ensures var rid := UnpackRid(v); 0 <= rid.page < U16 && 0 <= rid.slot < U16 && PackRid(rid) == v
  {
    hide PackRid, UnpackRid;
    UnpackIs(v);
    PackIs(Rid(v % U16, v / U16));
  }

  // ---------- runs of index operations ----------

  /** Adding or deleting the entry of a RID under the hash of its key. */
  datatype IndexOp = Adding(hash: nat, value: int) | Deleting(hash: nat, value: int)

  function Apply(cells: seq<Cell>, n: nat, op: IndexOp): (r: seq<Cell>)
    requires n > 0 && |cells| == n * BLOCK
    ensures |r| == |cells|
  {
    match op
    case Adding(h, v) => Probes.Insert(cells, Home(h, n), h, v).1
    case Deleting(h, v) => Probes.Remove(cells, Home(h, n), h, v)
  }

  function After(cells: seq<Cell>, n: nat, ops: seq<IndexOp>): (r: seq<Cell>)
    requires n > 0 && |cells| == n * BLOCK
    ensures |r| == |cells|
  {
    if ops == [] then cells else Apply(After(cells, n, ops[..|ops| - 1]), n, ops[|ops| - 1])
  }

  /** The `i`-th operation of the run added its entry: a vacant slot was there and no slot of the run had the value. */
  predicate Accepted(cells: seq<Cell>, n: nat, ops: seq<IndexOp>, i: nat)
    requires n > 0 && |cells| == n * BLOCK && i < |ops|
  {
    ops[i].Adding? && Probes.Insert(After(cells, n, ops[..i]), Home(ops[i].hash, n), ops[i].hash, ops[i].value).0
        == Done
  }

  /** An accepted addition of the entry that no later operation deletes. */
  predicate Standing(cells: seq<Cell>, n: nat, ops: seq<IndexOp>, h: nat, v: int, i: nat)
    requires n > 0 && |cells| == n * BLOCK && i < |ops|
  {
    && ops[i] == Adding(h, v) && Accepted(cells, n, ops, i)
    && forall j | i < j < |ops| :: ops[j] != Deleting(h, v)
  }

  lemma {:induction false} StandingStep(cells: seq<Cell>, n: nat, ops: seq<IndexOp>, h: nat, v: int, i: nat)
    requires n > 0 && |cells| == n * BLOCK && i < |ops| - 1
    ensures Standing(cells, n, ops, h, v, i) <==>
              Standing(cells, n, ops[..|ops| - 1], h, v, i) && ops[|ops| - 1] != Deleting(h, v)
  {
    var before := ops[..|ops| - 1];
    assert before[..i] == ops[..i];
    if Standing(cells, n, before, h, v, i) && ops[|ops| - 1] != Deleting(h, v) {
      forall j | i < j < |ops| ensures ops[j] != Deleting(h, v) {
        assert j < |ops| - 1 ==> before[j] == ops[j];
      }
    }
  }

  /** In every run from an empty table, an entry is in the table exactly while an accepted addition of it stands. */
  lemma {:induction false} EntriesStand(cells: seq<Cell>, n: nat, ops: seq<IndexOp>, h: nat, v: int)
    requires TableOk(cells, n) && forall p | 0 <= p < |cells| :: cells[p] == Vacant
    ensures TableOk(After(cells, n, ops), n)
    ensures Stored(After(cells, n, ops), h, v) > 0 <==> exists i | 0 <= i < |ops| :: Standing(cells, n, ops, h, v, i)
    decreases |ops|
  {
    hide TableOk, Home, Stored, Probes.Insert, Probes.Remove, Standing;
    Sized(cells, n);
    if ops == [] {
      NothingStored(cells, h, v);
    } else {
      var k := |ops| - 1;
      var before := ops[..k];
      EntriesStand(cells, n, before, h, v);
      var was := After(cells, n, before);
      forall i | 0 <= i < k
        ensures Standing(cells, n, ops, h, v, i) <==> Standing(cells, n, before, h, v, i) && ops[k] != Deleting(h, v)
      {
        StandingStep(cells, n, ops, h, v, i);
      }
      LastStands(cells, n, ops, h, v);
      StepCounts(was, n, ops[k], h, v);
      if i :| 0 <= i < |ops| && Standing(cells, n, ops, h, v, i) {
        assert i < k ==> Standing(cells, n, before, h, v, i);
      }
      if i :| 0 <= i < k && Standing(cells, n, before, h, v, i) {
        assert ops[k] != Deleting(h, v) ==> Standing(cells, n, ops, h, v, i);
      }
    }
  }

  lemma {:induction false} Sized(cells: seq<Cell>, n: nat)
    requires TableOk(cells, n)
    ensures n > 0 && |cells| == n * BLOCK
  {
  }

  lemma {:induction false} NothingStored(cells: seq<Cell>, h: int, v: int)
    requires forall p | 0 <= p < |cells| :: cells[p] == Vacant
    ensures Stored(cells, h, v) == 0
  {
    NoCopies(cells, h, v, 0, |cells|);
  }

  lemma {:induction false} LastStands(cells: seq<Cell>, n: nat, ops: seq<IndexOp>, h: nat, v: int)
    requires n > 0 && |cells| == n * BLOCK && ops != []
    ensures Standing(cells, n, ops, h, v, |ops| - 1) <==>
            ops[|ops| - 1] == Adding(h, v) && Probes.Insert(After(cells, n, ops[..|ops| - 1]), Home(h, n), h, v).0
                == Done
  {
  }

  /** One operation's effect on the count of one entry. */
  lemma {:induction false} StepCounts(cells: seq<Cell>, n: nat, op: IndexOp, h: nat, v: int)
    requires TableOk(cells, n) && n > 0 && |cells| == n * BLOCK
    ensures TableOk(Apply(cells, n, op), n)
    ensures var was, now := Stored(cells, h, v), Stored(Apply(cells, n, op), h, v);
            now == if op == Deleting(h, v) then 0
                   else if op == Adding(h, v) && Probes.Insert(cells, Home(h, n), h, v).0 == Done then was + 1
                   else was
  {
    hide TableOk, Home, Stored, Run, Probes.Insert, Probes.Remove;
    match op
    case Adding(g, w) => InsertAddsOne(cells, n, g, w, h, v);
    case Deleting(g, w) => RemoveTakesAll(cells, n, g, w, h, v);
  }

  /** What the probe of `ScanKey` finds for a hash. */
  function Scanned(cells: seq<Cell>, n: nat, h: nat): seq<int>
    requires n > 0 && |cells| == n * BLOCK
  {
    Found(cells, Home(h, n), h, Run(cells, Home(h, n), 0))
  }

  lemma {:induction false} TimesIn(s: seq<int>, v: int)
    ensures Times(s, v) > 0 <==> v in s
    decreases |s|
  {
    if s != [] {
      TimesIn(s[..|s| - 1], v);
      assert s == s[..|s| - 1] + [s[|s| - 1]];
    }
  }

  /**
   After any run of additions and deletions, a scan for a key returns a RID if and only if an addition of it
   under the key's hash was accepted and not deleted since.
   */
  lemma {:induction false} ScanComplete(cells: seq<Cell>, n: nat, ops: seq<IndexOp>, h: nat, v: int)
    requires TableOk(cells, n) && forall p | 0 <= p < |cells| :: cells[p] == Vacant
    ensures n > 0 && |cells| == n * BLOCK
    ensures v in Scanned(After(cells, n, ops), n, h) <==> exists i | 0 <= i < |ops| :: Standing(cells, n, ops, h, v, i)
  {
    hide TableOk, Home, Stored, Standing, Run, Found, Times, After;
    Sized(cells, n);
    EntriesStand(cells, n, ops, h, v);
    LookupComplete(After(cells, n, ops), n, h, v);
    TimesIn(Scanned(After(cells, n, ops), n, h), v);
  }

  /** Equal keys, floats apart, have equal key bytes, so entries added under one are found under the other. */
  lemma {:induction false} EqualKeysMeet(types: seq<Type>, values: seq<Value>, col: nat, key: Value)
    requires T.TypesMatch(types, values) && T.TupleSize(types, values) < U32 && col < |types|
    requires ValueOk(key) && TypeOf(key) == types[col] && types[col] != Float && CompareEquals(values[col], key)
    requires key.VarcharValue? ==> |key.varchar| <= 32767
    requires (forall j | 0 <= j < |types| :: types[j] != Boolean)
    requires T.TupleSize(types, T.SearchValues(types, col, key, |types|)) < U32
    ensures T.TypesMatch(types, T.SearchValues(types, col, key, |types|))
    ensures T.ReadKey(T.Layout(types, values), T.Offset(types, col), types[col]) ==
            T.ReadKey(T.Layout(types, T.SearchValues(types, col, key, |types|)), T.Offset(types, col), types[col])
                == Some(Serialize(key))
  {
    hide Serialize, T.Layout, T.ReadKey, T.TupleSize;
    EqualIsSameBytes(values[col], key);
    SameLength(values[col], key);
    T.KeyRoundTrip(types, values, col);
    T.SearchTupleWorks(types, col, key);
    T.KeyRoundTrip(types, T.SearchValues(types, col, key, |types|), col);
  }

  lemma {:induction false} SameLength(v: Value, w: Value)
    requires InRange(v) && InRange(w) && TypeOf(v) == TypeOf(w) && Serialize(v) == Serialize(w)
    ensures v.VarcharValue? ==> |v.varchar| == |w.varchar|
  {
    hide Serialize;
  }

  // ---------- the index ----------

  /** Values in the table are uint32, as packed RIDs are. */
  predicate Words(cells: seq<Cell>) {
    forall p | 0 <= p < |cells| && cells[p] != Vacant :: 0 <= cells[p].value < U32
  }

  lemma {:induction false} RemoveWords(cells: seq<Cell>, home: nat, h: int, v: int, n: nat)
    requires Words(cells) && home < |cells| && n <= |cells|
    ensures Words(RemoveUpTo(cells, home, h, v, n))
  {
    if n > 0 {
      RemoveWords(cells, home, h, v, n - 1);
    }
  }

  lemma {:induction false} ApplyWords(cells: seq<Cell>, n: nat, op: IndexOp)
    requires Words(cells) && n > 0 && |cells| == n * BLOCK && 0 <= op.value < U32
    ensures Words(Apply(cells, n, op))
  {
    hide Run, Home;
    match op
    case Adding(h, v) =>
    case Deleting(h, v) => RemoveWords(cells, Home(h, n), h, v, Run(cells, Home(h, n), 0));
  }

  class LinearProbeHashTableIndex {
    const container: LinearProbeHashTable
    const schema: T.Schema
    const colIdx: nat
    /** Murmur3's first word. */
    const hash: seq<byte> -> nat

    ghost predicate Valid()
      reads container.Arrays(), schema, schema.columns
    {
      && container.Valid() && schema.Valid() && colIdx < |schema.columns|
      && Words(container.View())
    }

    /** The key bytes in a tuple; Go panics when there are none. */
    ghost function KeyOf(key: T.Tuple): Option<seq<byte>>
      requires Valid()
      reads container.Arrays(), schema, schema.columns, key, key.data
    {
      T.ReadKey(key.data[..], T.Offset(T.TypesOf(schema.columns), colIdx), schema.columns[colIdx].columnType)
    }

    /** A new index is over an empty table. */
    constructor (container: LinearProbeHashTable, schema: T.Schema, colIdx: nat, hash: seq<byte> -> nat)
      requires container.Valid() && forall p | 0 <= p < |container.View()| :: container.View()[p] == Vacant
      requires schema.Valid() && colIdx < |schema.columns|
      ensures Valid()
      ensures this.container == container && this.schema == schema && this.colIdx == colIdx && this.hash == hash
    {
      hide TableOk, LinearProbeHashTable.PagesOk, T.Schema.Valid;
      this.container, this.schema, this.colIdx, this.hash := container, schema, colIdx, hash;
      new;
      container.NoneChanged();
    }

    /** `InsertEntry`. The table's refusal is dropped. */
    method InsertEntry(key: T.Tuple, rid: Rid)
      requires Valid() && KeyOf(key).Some? && -U31 <= rid.page < U31 && 0 <= rid.slot < U32
      modifies container.Arrays()
      ensures Valid() && |old(container.View())| == |container.blocks| * BLOCK
      ensures container.View() == Apply(old(container.View()), |container.blocks|,
              Adding(hash(old(KeyOf(key)).value), PackRid(rid)))
    {
      hide TableOk, Home, Probes.Insert, PackRid, T.ReadKey, T.Offset;
      var bytes := key.GetValueInBytes(schema, colIdx);
      container.NoneChanged();
      ApplyWords(container.View(), |container.blocks|, Adding(hash(bytes.value), PackRid(rid)));
      var _ := container.Insert(hash(bytes.value), PackRid(rid));
    }

    /** `DeleteEntry`. */
    method DeleteEntry(key: T.Tuple, rid: Rid)
      requires Valid() && KeyOf(key).Some? && -U31 <= rid.page < U31 && 0 <= rid.slot < U32
      modifies container.Arrays()
      ensures Valid() && |old(container.View())| == |container.blocks| * BLOCK
      ensures container.View() == Apply(old(container.View()), |container.blocks|,
              Deleting(hash(old(KeyOf(key)).value), PackRid(rid)))
    {
      hide TableOk, Home, Probes.Remove, PackRid, T.ReadKey, T.Offset;
      var bytes := key.GetValueInBytes(schema, colIdx);
      container.NoneChanged();
      ApplyWords(container.View(), |container.blocks|, Deleting(hash(bytes.value), PackRid(rid)));
      container.Remove(hash(bytes.value), PackRid(rid));
    }

    /** `ScanKey`. */
    method ScanKey(key: T.Tuple) returns (rids: seq<Rid>)
      requires Valid() && KeyOf(key).Some?
      ensures container.PagesOk() && |container.View()| == |container.blocks| * BLOCK && Valid()
      ensures var found := Scanned(container.View(), |container.blocks|, hash(KeyOf(key).value));
              |rids| == |found| && forall k | 0 <= k < |rids| :: 0 <= found[k] < U32 && rids[k] == UnpackRid(found[k])
    {
      hide TableOk, Home, Found, Run, UnpackRid, T.ReadKey, T.Offset;
      var bytes := key.GetValueInBytes(schema, colIdx);
      container.NoneChanged();
      var packed := container.GetValue(hash(bytes.value));
      FoundWords(container.View(), Home(hash(bytes.value), |container.blocks|), hash(bytes.value),
                 Run(container.View(), Home(hash(bytes.value), |container.blocks|), 0));
      rids := [];
      for k := 0 to |packed|
        invariant |rids| == k && forall j | 0 <= j < k :: rids[j] == UnpackRid(packed[j])
      {
        rids := rids + [UnpackRid(packed[k])];
      }
    }
  }

  lemma {:induction false} FoundWords(cells: seq<Cell>, home: nat, h: int, n: nat)
    requires home < |cells| && n <= |cells|
    requires Words(cells)
    ensures forall k | 0 <= k < |Found(cells, home, h, n)| :: 0 <= Found(cells, home, h, n)[k] < U32
  {
    if n > 0 {
      FoundWords(cells, home, h, n - 1);
    }
  }
}
