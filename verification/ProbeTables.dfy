/** The linear probe hash table and its circular iterator: container/hash/linear_probe_hash_table*.go. */
module ProbeTables {
  import opened Probes
  import opened HashBlocks

  /** The slots of all blocks, one block after the other. */
  function Flat(blocks: seq<seq<Cell>>): (cells: seq<Cell>)
    requires forall b | 0 <= b < |blocks| :: |blocks[b]| == BLOCK
    ensures |cells| == |blocks| * BLOCK
  {
    if blocks == [] then [] else Flat(blocks[..|blocks| - 1]) + blocks[|blocks| - 1]
  }

  lemma {:induction false} FlatAt(blocks: seq<seq<Cell>>, b: nat, o: nat)
    requires (forall i | 0 <= i < |blocks| :: |blocks[i]| == BLOCK) && b < |blocks| && o < BLOCK
    ensures b * BLOCK + o < |blocks| * BLOCK && Flat(blocks)[b * BLOCK + o] == blocks[b][o]
  {
    if b < |blocks| - 1 {
      FlatAt(blocks[..|blocks| - 1], b, o);
    }
  }

  lemma {:induction false} FlatPut(blocks: seq<seq<Cell>>, b: nat, o: nat, c: Cell)
    requires (forall i | 0 <= i < |blocks| :: |blocks[i]| == BLOCK) && b < |blocks| && o < BLOCK
    ensures b * BLOCK + o < |blocks| * BLOCK
    ensures Flat(blocks[b := blocks[b][o := c]]) == Flat(blocks)[b * BLOCK + o := c]
  {
    var n := |blocks| - 1;
    var after := blocks[b := blocks[b][o := c]];
    if b < n {
      FlatPut(blocks[..n], b, o, c);
      assert after[..n] == blocks[..n][b := blocks[b][o := c]];
    } else {
      assert after[..n] == blocks[..n];
    }
  }

  /** Bucket and offset of a slot are determined by its place. */
  lemma SamePlace(b: nat, o: nat, b': nat, o': nat)
    requires o < BLOCK && o' < BLOCK
    ensures b * BLOCK + o == b' * BLOCK + o' <==> b == b' && o == o'
  {
  }

  class HashTableIterator {
    const blocks: seq<HashTableBlockPage>
    var bucket: nat
    var offset: nat
    var blockPage: HashTableBlockPage

    ghost predicate Valid()
      reads this
    {
      bucket < |blocks| && offset < BLOCK && blockPage == blocks[bucket]
    }

    /** The iterator's place in the table. */
    ghost function Place(): nat
      reads this
    {
      bucket * BLOCK + offset
    }

    constructor (blocks: seq<HashTableBlockPage>, bucket: nat, offset: nat)
      requires bucket < |blocks| && offset < BLOCK
      ensures Valid() && this.blocks == blocks && this.bucket == bucket && this.offset == offset
    {
      this.blocks, this.bucket, this.offset, this.blockPage := blocks, bucket, offset, blocks[bucket];
    }

    /** One slot on: from the last slot of the last block to the first of the first. */
    method Next()
      requires Valid()
      modifies this
      ensures Valid() && Place() == if old(Place()) + 1 < |blocks| * BLOCK then old(Place()) + 1 else 0
    {
      offset := offset + 1;
      if offset >= BLOCK {
        bucket := bucket + 1;
        offset := 0;
        if bucket >= |blocks| {
          bucket := 0;
        }
        blockPage := blocks[bucket];
      }
    }
  }

  /** No two pages share an array. */
  ghost predicate PagesApart(blocks: seq<HashTableBlockPage>) {
    forall b, c | 0 <= b < |blocks| && 0 <= c < |blocks| ::
      && (b != c ==>
           blocks[b].occupied != blocks[c].occupied && blocks[b].readable != blocks[c].readable
           && blocks[b].entries != blocks[c].entries)
      && blocks[b].occupied != blocks[c].readable
  }

  ghost predicate EmptyPages(blocks: seq<HashTableBlockPage>)
    reads set b | 0 <= b < |blocks| :: blocks[b].occupied, set b | 0 <= b < |blocks| :: blocks[b].readable,
          set b | 0 <= b < |blocks| :: blocks[b].entries
  {
    && (forall b | 0 <= b < |blocks| :: blocks[b].Valid() && forall o | 0 <= o < BLOCK :: blocks[b].View()[o] == Vacant)
    && PagesApart(blocks)
  }

  lemma {:induction false} FlatVacant(blocks: seq<seq<Cell>>)
    requires forall b | 0 <= b < |blocks| :: |blocks[b]| == BLOCK && forall o | 0 <= o < BLOCK :: blocks[b][o] == Vacant
    ensures forall p | 0 <= p < |Flat(blocks)| :: Flat(blocks)[p] == Vacant
  {
    if blocks != [] {
      FlatVacant(blocks[..|blocks| - 1]);
    }
  }

  class LinearProbeHashTable {
    /** The pages named in the header page. */
    const blocks: seq<HashTableBlockPage>

    ghost function Arrays(): set<object>
    {
      (set b | 0 <= b < |blocks| :: blocks[b].occupied) + (set b | 0 <= b < |blocks| :: blocks[b].readable)
      + (set b | 0 <= b < |blocks| :: blocks[b].entries)
    }

    ghost predicate PagesOk()
      reads Arrays()
    {
      |blocks| > 0 && PagesApart(blocks) && forall b | 0 <= b < |blocks| :: blocks[b].Valid()
    }

    ghost function Blocks(): (bs: seq<seq<Cell>>)
      requires PagesOk()
      reads Arrays()
      ensures |bs| == |blocks| && forall b | 0 <= b < |bs| :: bs[b] == blocks[b].View()
    {
      seq(|blocks|, b requires 0 <= b < |blocks| && PagesOk() reads Arrays() => blocks[b].View())
    }

    ghost function View(): (cells: seq<Cell>)
      requires PagesOk()
      reads Arrays()
      ensures |cells| == |blocks| * BLOCK
    {
      Flat(Blocks())
    }

    /** Every used slot can be reached from its hash's home. */
    ghost predicate Valid()
      reads Arrays()
    {
      PagesOk() && TableOk(View(), |blocks|)
    }

    /** A table over the given pages, none of which has a used slot. */
    constructor (blocks: seq<HashTableBlockPage>)
      requires |blocks| > 0 && EmptyPages(blocks)
      ensures this.blocks == blocks && Valid() && forall p | 0 <= p < |View()| :: View()[p] == Vacant
    {
      this.blocks := blocks;
      new;
      hide BitmapsOk, CellsOf;
      FlatVacant(Blocks());
    }

    /** What the iterator sees. */
    lemma Seen(b: nat, o: nat)
      requires PagesOk() && b < |blocks| && o < BLOCK
      ensures b * BLOCK + o < |View()| && View()[b * BLOCK + o] == blocks[b].View()[o]
    {
      FlatAt(Blocks(), b, o);
    }

    /** One slot of one page changed: so did one slot of the table. */
    twostate lemma OneSlotChanged(new b: nat, new o: nat, new c: Cell)
      requires old(PagesOk()) && b < |blocks| && o < BLOCK && blocks[b].Valid()
      requires blocks[b].View() == old(blocks[b].View())[o := c]
      requires forall i | 0 <= i < |blocks| && i != b ::
                 unchanged(blocks[i].occupied) && unchanged(blocks[i].readable) && unchanged(blocks[i].entries)
      ensures PagesOk() && b * BLOCK + o < |old(View())| && View() == old(View())[b * BLOCK + o := c]
    {
      hide BitmapsOk, CellsOf;
      FlatPut(old(Blocks()), b, o, c);
      assert Blocks() == old(Blocks())[b := old(Blocks())[b][o := c]];
    }

    /** Reading changes nothing. */
    twostate lemma NoneChanged()
      requires old(PagesOk()) && forall i | 0 <= i < |blocks| ::
                 unchanged(blocks[i].occupied) && unchanged(blocks[i].readable) && unchanged(blocks[i].entries)
      ensures PagesOk() && View() == old(View())
    {
      hide BitmapsOk, CellsOf;
      assert Blocks() == old(Blocks());
    }

    /** The iterator stands at slot `p` of a table whose slots are `cells`. */
    ghost predicate At(it: HashTableIterator, cells: seq<Cell>, p: nat)
      reads it, Arrays()
    {
      it.Valid() && it.blocks == blocks && it.Place() == p && PagesOk() && View() == cells
    }

    lemma AtCell(it: HashTableIterator, cells: seq<Cell>, p: nat)
      requires At(it, cells, p)
      ensures p < |cells| == |blocks| * BLOCK && it.offset < BLOCK && it.bucket < |blocks|
              && it.blockPage == blocks[it.bucket] && it.blockPage.Valid()
      ensures cells[p] == it.blockPage.View()[it.offset] && p == it.bucket * BLOCK + it.offset
    {
      hide BitmapsOk, CellsOf, Flat;
      Seen(it.bucket, it.offset);
    }

    /** `newHashTableIterator` on the hash's home. */
    method Start(hash: nat) returns (it: HashTableIterator)
      requires Valid()
      ensures fresh(it) && |View()| == |blocks| * BLOCK && At(it, View(), Home(hash, |blocks|))
      ensures Valid() && View() == old(View()) && it.bucket == hash % |blocks| && it.offset == hash % BLOCK
    {
      hide TableOk, Flat, BitmapsOk, CellsOf, Home;
      HomeIs(hash, |blocks|);
      it := new HashTableIterator(blocks, hash % |blocks|, hash % BLOCK);
      NoneChanged();
    }

    /** `next` on a table that stays as it is. */
    method Advance(it: HashTableIterator, ghost cells: seq<Cell>, ghost home: nat, ghost i: nat)
      requires home < |cells| && i < |cells| && At(it, cells, Pos(home, i, |cells|))
      modifies it
      ensures At(it, cells, Pos(home, i + 1, |cells|))
    {
      hide Flat, BitmapsOk, CellsOf;
      it.Next();
      NoneChanged();
    }

    /** What `GetValue` takes from the slot under the iterator. */
    function Hit(it: HashTableIterator, hash: nat): (hit: seq<int>)
      requires it.blockPage.Valid() && it.offset < BLOCK
      reads it, it.blockPage.occupied, it.blockPage.readable, it.blockPage.entries
      ensures hit == ValueOf(it.blockPage.View()[it.offset], hash)
    {
      if it.blockPage.IsReadable(it.offset) && it.blockPage.KeyAt(it.offset) == hash
          then [it.blockPage.ValueAt(it.offset)] else []
    }

    /** `GetValue`, given the key's hash. */
    method GetValue(hash: nat) returns (result: seq<int>)
      requires Valid()
      ensures Valid() && View() == old(View()) && |View()| == |blocks| * BLOCK
      ensures result == Found(View(), Home(hash, |blocks|), hash, Run(View(), Home(hash, |blocks|), 0))
    {
      hide TableOk, Found, Run, Flat, BitmapsOk, CellsOf, Occupied, Mask, Home, At, HashTableIterator.Valid,
           HashTableIterator.Place;
      var originalBucketIndex := hash % |blocks|;
      var originalBucketOffset := hash % BLOCK;
      ghost var cells, home := View(), Home(hash, |blocks|);
      var it := Start(hash);
      AtCell(it, cells, home);
      ghost var m := |cells|;
      result := [];
      ghost var i := 0;
      FoundStart(cells, home, hash);
      while it.blockPage.IsOccupied(it.offset)
        invariant i < m && fresh(it) && At(it, cells, Pos(home, i, m))
        invariant it.offset < BLOCK && it.blockPage.Valid() && cells[Pos(home, i, m)] == it.blockPage.View()[it.offset]
        invariant Occupied(cells, home, i) && result == Found(cells, home, hash, i)
        decreases m - i
      {
        result := result + Hit(it, hash);
        FoundNext(cells, home, hash, i);
        Advance(it, cells, home, i);
        i := i + 1;
        AtCell(it, cells, Pos(home, i, m));
        BackHome(it.bucket, it.offset, hash, |blocks|, i);
        if it.bucket == originalBucketIndex && it.offset == originalBucketOffset {
          break;
        }
      }
      RunEnds(cells, home, i);
      AtView(it, cells, Pos(home, i, m));
    }

    /** The slot under the iterator changed to `c`. */
    twostate lemma SlotWritten(it: HashTableIterator, new p: nat, new c: Cell)
      requires old(PagesOk()) && old(At(it, View(), p)) && unchanged(it) && it.offset < BLOCK && it.blockPage.Valid()
      requires old(it.blockPage.Valid()) && it.blockPage.View() == old(it.blockPage.View())[it.offset := c]
      requires forall i | 0 <= i < |blocks| && blocks[i] != it.blockPage ::
                 unchanged(blocks[i].occupied) && unchanged(blocks[i].readable) && unchanged(blocks[i].entries)
      ensures PagesOk() && p < |old(View())| && View() == old(View())[p := c] && At(it, View(), p)
    {
      hide BitmapsOk, CellsOf, Flat;
      DistinctBlocks(it.bucket);
      OneSlotChanged(it.bucket, it.offset, c);
    }

    lemma DistinctBlocks(b: nat)
      requires PagesApart(blocks) && b < |blocks|
      ensures forall i | 0 <= i < |blocks| && i != b :: blocks[i] != blocks[b]
    {
    }

    /** The pair into the vacant slot under the iterator. */
    method Store(it: HashTableIterator, hash: nat, value: int, ghost p: nat)
      requires PagesOk() && At(it, View(), p) && p < |View()| && View()[p] == Vacant
      modifies Arrays()
      ensures PagesOk() && p < |old(View())| && View() == old(View())[p := Pair(hash, value)]
    {
      hide BitmapsOk, CellsOf, Flat;
      AtCell(it, View(), p);
      DistinctBlocks(it.bucket);
      var _ := it.blockPage.Insert(it.offset, hash, value);
      SlotWritten(it, p, Pair(hash, value));
    }

    /** `Insert`, given the key's hash; the source returns no error when the table is full. */
    method Insert(hash: nat, value: int) returns (o: InsertOutcome)
      requires Valid()
      modifies Arrays()
      ensures Home(hash, |blocks|) < |old(View())|
      ensures PagesOk() && (o, View()) == Probes.Insert(old(View()), Home(hash, |blocks|), hash, value)
      ensures Valid()
    {
      hide TableOk, Run, Flat, BitmapsOk, CellsOf, Occupied, NoValue, Mask, Home, At, HashTableIterator.Valid,
           HashTableIterator.Place, PagesApart, LinearProbeHashTable.Arrays, LinearProbeHashTable.View, Pos,
           Probes.Insert;
      var originalBucketIndex := hash % |blocks|;
      var originalBucketOffset := hash % BLOCK;
      ghost var cells, home := View(), Home(hash, |blocks|);
      var it := Start(hash);
      AtCell(it, cells, home);
      ghost var m := |cells|;
      ghost var i := 0;
      SearchStart(cells, home, value);
      InsertKeeps(cells, |blocks|, hash, value);
      while true
        invariant i < m && fresh(it) && At(it, cells, Pos(home, i, m))
        invariant it.offset < BLOCK && it.blockPage.Valid() && cells[Pos(home, i, m)] == it.blockPage.View()[it.offset]
        invariant Occupied(cells, home, i) && NoValue(cells, home, i, value)
        decreases m - i
      {
        AtView(it, cells, Pos(home, i, m));
        if it.blockPage.IsOccupied(it.offset) && it.blockPage.ValueAt(it.offset) == value {
          FoundDuplicate(cells, home, hash, value, i);
          return Duplicate;
        }
        if !it.blockPage.IsOccupied(it.offset) {
          FoundVacant(cells, home, hash, value, i);
          Store(it, hash, value, Pos(home, i, m));
          return Done;
        }
        SearchNext(cells, home, value, i);
        Advance(it, cells, home, i);
        i := i + 1;
        AtCell(it, cells, Pos(home, i, m));
        AtView(it, cells, Pos(home, i, m));
        BackHome(it.bucket, it.offset, hash, |blocks|, i);
        if it.bucket == originalBucketIndex && it.offset == originalBucketOffset {
          FoundFull(cells, home, hash, value);
          return TableFull;
        }
      }
    }

    /** `HashTableBlockPage.Remove` under the iterator, if the slot has the hash and the value. */
    method RemoveHere(it: HashTableIterator, hash: nat, value: int, ghost p: nat)
      requires PagesOk() && At(it, View(), p) && p < |View()| && View()[p] != Vacant
      modifies Arrays()
      ensures PagesOk() && p < |old(View())| && View() == old(View())[p := Removed(old(View())[p], hash, value)]
              && At(it, View(), p)
    {
      hide BitmapsOk, CellsOf, Flat;
      AtCell(it, View(), p);
      DistinctBlocks(it.bucket);
      ghost var c := View()[p];
      if it.blockPage.IsOccupied(it.offset) && it.blockPage.KeyAt(it.offset) == hash
          && it.blockPage.ValueAt(it.offset) == value {
        it.blockPage.Remove(it.offset);
      }
      SlotWritten(it, p, Removed(c, hash, value));
    }

    /** `Remove`, given the key's hash. */
    method Remove(hash: nat, value: int)
      requires Valid()
      modifies Arrays()
      ensures Home(hash, |blocks|) < |old(View())|
      ensures PagesOk() && View() == Probes.Remove(old(View()), Home(hash, |blocks|), hash, value)
      ensures Valid()
    {
      hide TableOk, Run, Flat, BitmapsOk, CellsOf, Occupied, Mask, Home, At, HashTableIterator.Valid,
           HashTableIterator.Place, RemoveUpTo, Removed;
      var originalBucketIndex := hash % |blocks|;
      var originalBucketOffset := hash % BLOCK;
      ghost var cells, home := View(), Home(hash, |blocks|);
      var it := Start(hash);
      AtCell(it, cells, home);
      ghost var m := |cells|;
      ghost var i := 0;
      FoundStart(cells, home, hash);
      RemoveStart(cells, home, hash, value);
      RemoveTakesAll(cells, |blocks|, hash, value, hash, value);
      while it.blockPage.IsOccupied(it.offset)
        invariant i < m && fresh(it) && PagesOk() && View() == RemoveUpTo(cells, home, hash, value, i)
                  && At(it, View(), Pos(home, i, m))
        invariant it.offset < BLOCK && it.blockPage.Valid() && View()[Pos(home, i, m)] == it.blockPage.View()[it.offset]
        invariant Occupied(cells, home, i)
        decreases m - i
      {
        RemoveNext(cells, home, hash, value, i);
        RemoveHere(it, hash, value, Pos(home, i, m));
        Advance(it, View(), home, i);
        AtView(it, RemoveUpTo(cells, home, hash, value, i + 1), Pos(home, i + 1, m));
        i := i + 1;
        AtCell(it, View(), Pos(home, i, m));
        BackHome(it.bucket, it.offset, hash, |blocks|, i);
        if it.bucket == originalBucketIndex && it.offset == originalBucketOffset {
          break;
        }
      }
      if i < m {
        RemoveNext(cells, home, hash, value, i);
      }
      RunEnds(cells, home, i);
    }

    lemma AtView(it: HashTableIterator, cells: seq<Cell>, p: nat)
      requires At(it, cells, p)
      ensures PagesOk() && View() == cells
    {
    }
  }

  /** The iterator is back at its start exactly after a whole lap. */
  lemma BackHome(bucket: nat, offset: nat, hash: nat, n: nat, i: nat)
    requires n > 0 && offset < BLOCK && 0 < i <= n * BLOCK
             && bucket * BLOCK + offset == Pos(Home(hash, n), i, n * BLOCK)
    ensures bucket == hash % n && offset == hash % BLOCK <==> i == n * BLOCK
  {
    SamePlace(bucket, offset, hash % n, hash % BLOCK);
  }

  /** The first `i` slots from `home` on are in use. */
  ghost predicate Occupied(cells: seq<Cell>, home: nat, i: nat)
    requires home < |cells| && i <= |cells|
  {
    forall j | 0 <= j < i :: cells[Pos(home, j, |cells|)] != Vacant
  }

  /** The value is in none of the first `i` slots from `home` on. */
  ghost predicate NoValue(cells: seq<Cell>, home: nat, i: nat, v: int)
    requires home < |cells| && i <= |cells|
  {
    forall j | 0 <= j < i :: cells[Pos(home, j, |cells|)] != Vacant && cells[Pos(home, j, |cells|)].value != v
  }

  lemma SearchStart(cells: seq<Cell>, home: nat, v: int)
    requires home < |cells|
    ensures Occupied(cells, home, 0) && NoValue(cells, home, 0, v) && Pos(home, 0, |cells|) == home
  {
  }

  lemma SearchNext(cells: seq<Cell>, home: nat, v: int, i: nat)
    requires home < |cells| && i < |cells| && Occupied(cells, home, i) && NoValue(cells, home, i, v)
    requires cells[Pos(home, i, |cells|)] != Vacant && cells[Pos(home, i, |cells|)].value != v
    ensures Occupied(cells, home, i + 1) && NoValue(cells, home, i + 1, v)
  {
  }

  lemma InsertKeeps(cells: seq<Cell>, n: nat, h: int, v: int)
    requires TableOk(cells, n)
    ensures Home(h, n) < |cells| && TableOk(Probes.Insert(cells, Home(h, n), h, v).1, n)
  {
    InsertAddsOne(cells, n, h, v, h, v);
  }

  lemma FoundDuplicate(cells: seq<Cell>, home: nat, h: int, v: int, i: nat)
    requires home < |cells| && i < |cells| && Occupied(cells, home, i)
    requires cells[Pos(home, i, |cells|)] != Vacant && cells[Pos(home, i, |cells|)].value == v
    ensures Probes.Insert(cells, home, h, v) == (Duplicate, cells)
  {
    var r := Run(cells, home, 0);
    assert r < |cells| ==> cells[Pos(home, r, |cells|)] == Vacant;
    assert i < r;
  }

  lemma FoundVacant(cells: seq<Cell>, home: nat, h: int, v: int, i: nat)
    requires home < |cells| && i < |cells| && Occupied(cells, home, i) && NoValue(cells, home, i, v)
    requires cells[Pos(home, i, |cells|)] == Vacant
    ensures Probes.Insert(cells, home, h, v) == (Done, cells[Pos(home, i, |cells|) := Pair(h, v)])
  {
    RunEnds(cells, home, i);
  }

  lemma FoundFull(cells: seq<Cell>, home: nat, h: int, v: int)
    requires home < |cells| && Occupied(cells, home, |cells|) && NoValue(cells, home, |cells|, v)
    ensures Probes.Insert(cells, home, h, v) == (TableFull, cells)
  {
    RunEnds(cells, home, |cells|);
  }

  lemma RemoveStart(cells: seq<Cell>, home: nat, h: int, v: int)
    requires home < |cells|
    ensures RemoveUpTo(cells, home, h, v, 0) == cells
  {
  }

  /** The next slot of a removal is still as it was, and is in use exactly if it was. */
  lemma RemoveNext(cells: seq<Cell>, home: nat, h: int, v: int, i: nat)
    requires home < |cells| && i < |cells|
    ensures var before := RemoveUpTo(cells, home, h, v, i);
            var p := Pos(home, i, |cells|);
            && before[p] == cells[p]
            && RemoveUpTo(cells, home, h, v, i + 1) == before[p := Removed(before[p], h, v)]
            && (Occupied(cells, home, i) && cells[p] != Vacant ==> Occupied(cells, home, i + 1))
  {
    hide Removed;
    RemovedAt(cells, home, h, v, i, Pos(home, i, |cells|));
  }

  lemma HomeIs(h: nat, n: nat)
    requires n > 0
    ensures Home(h, n) == h % n * BLOCK + h % BLOCK
  {
  }

  lemma RunEnds(cells: seq<Cell>, home: nat, i: nat)
    requires home < |cells| && i <= |cells| && Occupied(cells, home, i)
    requires i == |cells| || cells[Pos(home, i, |cells|)] == Vacant
    ensures Run(cells, home, 0) == i
  {
    RunIs(cells, home, 0, i);
  }

  lemma FoundStart(cells: seq<Cell>, home: nat, h: int)
    requires home < |cells|
    ensures Found(cells, home, h, 0) == [] && Occupied(cells, home, 0)
  {
  }

  lemma FoundNext(cells: seq<Cell>, home: nat, h: int, i: nat)
    requires home < |cells| && i < |cells|
    ensures Found(cells, home, h, i + 1) == Found(cells, home, h, i) + ValueOf(cells[Pos(home, i, |cells|)], h)
    ensures Occupied(cells, home, i) && cells[Pos(home, i, |cells|)] != Vacant ==> Occupied(cells, home, i + 1)
  {
  }
}
