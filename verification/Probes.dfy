/** Linear probing on values: container/hash/linear_probe_hash_table.go as a multimap from hashes to values. */
module Probes {

  /** `BlockArraySize`: slots of one block page. */
  const BLOCK: nat := 252

  /** A slot never used, used and removed, or in use. A removed slot keeps its key and value. */
  datatype Cell = Vacant | Tomb(key: int, value: int) | Pair(key: int, value: int)

  datatype InsertOutcome = Done | Duplicate | TableFull

  /** The slot `i` steps behind `home` in a table of `m`. */
  function Pos(home: nat, i: nat, m: nat): (p: nat)
    requires home < m && i <= m
    ensures p < m
  {
    if home + i < m then home + i else home + i - m
  }

  /** How many steps behind `home` the slot `p` is. */
  function Steps(home: nat, p: nat, m: nat): (i: nat)
    requires home < m && p < m
    ensures i < m && Pos(home, i, m) == p
  {
    if p >= home then p - home else p - home + m
  }

  /** Where the search for a hash starts, in a table of `n` blocks. */
  function Home(h: int, n: nat): (p: nat)
    requires n > 0
    ensures p < n * BLOCK
  {
    InTable(h % n, h % BLOCK, n);
    h % n * BLOCK + h % BLOCK
  }

  lemma InTable(b: nat, o: nat, n: nat)
    requires b < n && o < BLOCK
    ensures b * BLOCK + o < n * BLOCK
  {
  }

  /** The first vacant slot from step `i` on, counted in steps; the table's size if there is none. */
  function Run(cells: seq<Cell>, home: nat, i: nat): (r: nat)
    requires home < |cells| && i <= |cells|
    ensures i <= r <= |cells|
    ensures forall j | i <= j < r :: cells[Pos(home, j, |cells|)] != Vacant
    ensures r < |cells| ==> cells[Pos(home, r, |cells|)] == Vacant
    decreases |cells| - i
  {
    if i == |cells| || cells[Pos(home, i, |cells|)] == Vacant then i else Run(cells, home, i + 1)
  }

  /** Every used slot is reachable: nothing from its home up to it is vacant. */
  ghost predicate TableOk(cells: seq<Cell>, n: nat) {
    && n > 0 && |cells| == n * BLOCK
    && forall p | 0 <= p < |cells| && cells[p] != Vacant ::
       Steps(Home(cells[p].key, n), p, |cells|) < Run(cells, Home(cells[p].key, n), 0)
  }

  function ValueOf(c: Cell, h: int): seq<int> {
    if c.Pair? && c.key == h then [c.value] else []
  }

  /** How often the pair stands in slots `lo .. hi`. */
  function Copies(cells: seq<Cell>, h: int, v: int, lo: nat, hi: nat): nat
    requires lo <= hi <= |cells|
  {
    if lo == hi then 0 else Copies(cells, h, v, lo, hi - 1) + if cells[hi - 1] == Pair(h, v) then 1 else 0
  }

  /** The table as a multimap: how often each value is stored for each hash. */
  function Stored(cells: seq<Cell>, h: int, v: int): nat {
    Copies(cells, h, v, 0, |cells|)
  }

  function Times(s: seq<int>, v: int): nat {
    if s == [] then 0 else Times(s[..|s| - 1], v) + if s[|s| - 1] == v then 1 else 0
  }

  /** What `GetValue` has collected after `n` steps. */
  function Found(cells: seq<Cell>, home: nat, h: int, n: nat): seq<int>
    requires home < |cells| && n <= |cells|
  {
    if n == 0 then [] else Found(cells, home, h, n - 1) + ValueOf(cells[Pos(home, n - 1, |cells|)], h)
  }

  /** `Insert`: refused when the value stands anywhere on the run, under whatever key, removed or not. */
  function Insert(cells: seq<Cell>, home: nat, h: int, v: int): (InsertOutcome, seq<Cell>)
    requires home < |cells|
  {
    var r := Run(cells, home, 0);
    if exists i | 0 <= i < r :: cells[Pos(home, i, |cells|)].value == v then (Duplicate, cells)
    else if r < |cells| then (Done, cells[Pos(home, r, |cells|) := Pair(h, v)])
    else (TableFull, cells)
  }

  function Removed(c: Cell, h: int, v: int): Cell {
    if c == Pair(h, v) then Tomb(h, v) else c
  }

  /** `Remove` after `n` steps. */
  function RemoveUpTo(cells: seq<Cell>, home: nat, h: int, v: int, n: nat): (r: seq<Cell>)
    requires home < |cells| && n <= |cells|
    ensures |r| == |cells|
  {
    if n == 0 then cells
    else
      var before := RemoveUpTo(cells, home, h, v, n - 1);
      var p := Pos(home, n - 1, |cells|);
      before[p := Removed(before[p], h, v)]
  }

  function Remove(cells: seq<Cell>, home: nat, h: int, v: int): (r: seq<Cell>)
    requires home < |cells|
    ensures |r| == |cells|
  {
    RemoveUpTo(cells, home, h, v, Run(cells, home, 0))
  }

  // ---------- runs ----------

  lemma {:induction false} RunIs(cells: seq<Cell>, home: nat, i: nat, r: nat)
    requires home < |cells| && i <= r <= |cells|
    requires forall j | i <= j < r :: cells[Pos(home, j, |cells|)] != Vacant
    requires r < |cells| ==> cells[Pos(home, r, |cells|)] == Vacant
    ensures Run(cells, home, i) == r
    decreases r - i
  {
    if i < r {
      RunIs(cells, home, i + 1, r);
    }
  }

  /** With no slot emptied, runs do not shrink. */
  lemma RunGrows(cells: seq<Cell>, cells': seq<Cell>, home: nat)
    requires |cells| == |cells'| && home < |cells|
    requires forall p | 0 <= p < |cells| :: cells[p] != Vacant ==> cells'[p] != Vacant
    ensures Run(cells', home, 0) >= Run(cells, home, 0)
  {
    var r, r' := Run(cells, home, 0), Run(cells', home, 0);
    assert forall j | 0 <= j < r :: cells'[Pos(home, j, |cells|)] != Vacant;
  }

  // ---------- counting ----------

  lemma {:induction false} CopiesSplit(cells: seq<Cell>, h: int, v: int, lo: nat, mid: nat, hi: nat)
    requires lo <= mid <= hi <= |cells|
    ensures Copies(cells, h, v, lo, hi) == Copies(cells, h, v, lo, mid) + Copies(cells, h, v, mid, hi)
    decreases hi - mid
  {
    if mid < hi {
      CopiesSplit(cells, h, v, lo, mid, hi - 1);
    }
  }

  lemma {:induction false} NoCopies(cells: seq<Cell>, h: int, v: int, lo: nat, hi: nat)
    requires lo <= hi <= |cells| && forall p | lo <= p < hi :: cells[p] != Pair(h, v)
    ensures Copies(cells, h, v, lo, hi) == 0
    decreases hi - lo
  {
    if lo < hi {
      NoCopies(cells, h, v, lo, hi - 1);
    }
  }

  lemma {:induction false} CopiesSame(cells: seq<Cell>, cells': seq<Cell>, h: int, v: int, lo: nat, hi: nat)
    requires |cells'| == |cells| && lo <= hi <= |cells|
    requires forall p | lo <= p < hi :: cells'[p] == Pair(h, v) <==> cells[p] == Pair(h, v)
    ensures Copies(cells', h, v, lo, hi) == Copies(cells, h, v, lo, hi)
    decreases hi - lo
  {
    if lo < hi {
      CopiesSame(cells, cells', h, v, lo, hi - 1);
    }
  }

  lemma CopiesPut(cells: seq<Cell>, h: int, v: int, p: nat, c: Cell)
    requires p < |cells|
    ensures Stored(cells[p := c], h, v) == Stored(cells, h, v) - (if cells[p] == Pair(h, v) then 1 else 0)
            + (if c == Pair(h, v) then 1 else 0)
  {
    var m := |cells|;
    var cells' := cells[p := c];
    CopiesSplit(cells, h, v, 0, p, m);
    CopiesSplit(cells, h, v, p, p + 1, m);
    CopiesSplit(cells', h, v, 0, p, m);
    CopiesSplit(cells', h, v, p, p + 1, m);
    CopiesSame(cells, cells', h, v, 0, p);
    CopiesSame(cells, cells', h, v, p + 1, m);
  }

  lemma TimesSnoc(s: seq<int>, c: Cell, h: int, v: int)
    ensures Times(s + ValueOf(c, h), v) == Times(s, v) + if c == Pair(h, v) then 1 else 0
  {
    if c.Pair? && c.key == h {
      assert (s + [c.value])[..|s|] == s;
    } else {
      assert s + [] == s;
    }
  }

  /** A collection that may go around the end of the table counts the slots it passed. */
  lemma {:induction false} FoundCounts(cells: seq<Cell>, home: nat, h: int, v: int, n: nat)
    requires home < |cells| && n <= |cells|
    ensures Times(Found(cells, home, h, n), v) ==
            if home + n <= |cells| then Copies(cells, h, v, home, home + n)
            else Copies(cells, h, v, home, |cells|) + Copies(cells, h, v, 0, home + n - |cells|)
  {
    hide Found, Copies, Times, ValueOf;
    var m := |cells|;
    if n == 0 {
      NothingFound(cells, home, h, v);
    } else {
      FoundCounts(cells, home, h, v, n - 1);
      FoundStep(cells, home, h, v, n);
      if home + n <= m {
        CopiesStep(cells, h, v, home, home + n);
      } else {
        CopiesStep(cells, h, v, 0, home + n - m);
        NoCopies(cells, h, v, 0, 0);
      }
    }
  }

  lemma NothingFound(cells: seq<Cell>, home: nat, h: int, v: int)
    requires home < |cells|
    ensures Times(Found(cells, home, h, 0), v) == 0 == Copies(cells, h, v, home, home)
  {
  }

  lemma FoundStep(cells: seq<Cell>, home: nat, h: int, v: int, n: nat)
    requires home < |cells| && 0 < n <= |cells|
    ensures Times(Found(cells, home, h, n), v) ==
            Times(Found(cells, home, h, n - 1), v) + if cells[Pos(home, n - 1, |cells|)] == Pair(h, v) then 1 else 0
  {
    TimesSnoc(Found(cells, home, h, n - 1), cells[Pos(home, n - 1, |cells|)], h, v);
  }

  lemma CopiesStep(cells: seq<Cell>, h: int, v: int, lo: nat, hi: nat)
    requires lo < hi <= |cells|
    ensures Copies(cells, h, v, lo, hi) == Copies(cells, h, v, lo, hi - 1) + if cells[hi - 1] == Pair(h, v) then 1
            else 0
  {
  }

  predicate Hit(cells: seq<Cell>, home: nat, h: int, i: nat)
    requires home < |cells| && i <= |cells|
  {
    cells[Pos(home, i, |cells|)].Pair? && cells[Pos(home, i, |cells|)].key == h
  }

  /** These are the steps at which a search meets its hash, in order. */
  ghost predicate Hits(cells: seq<Cell>, home: nat, h: int, n: nat, ks: seq<nat>)
    requires home < |cells| && n <= |cells|
  {
    && (forall m | 0 <= m < |ks| :: ks[m] < n && Hit(cells, home, h, ks[m]))
    && (forall l, m | 0 <= l < m < |ks| :: ks[l] < ks[m])
    && (forall i: nat | i < n && Hit(cells, home, h, i) :: i in ks)
  }

  lemma HitsMore(cells: seq<Cell>, home: nat, h: int, n: nat, ks: seq<nat>)
    requires home < |cells| && n < |cells| && Hits(cells, home, h, n, ks)
    ensures Hits(cells, home, h, n + 1, if Hit(cells, home, h, n) then ks + [n] else ks)
  {
    hide Hit;
    var more := if Hit(cells, home, h, n) then ks + [n] else ks;
    forall i: nat | i < n + 1 && Hit(cells, home, h, i) ensures i in more {
      assert i < n ==> i in ks;
    }
  }

  /** The values of the pairs met at these steps. */
  ghost predicate Carries(cells: seq<Cell>, home: nat, ks: seq<nat>, vs: seq<int>)
    requires home < |cells|
  {
    |ks| == |vs| && forall m | 0 <= m < |ks| ::
         ks[m] < |cells| && cells[Pos(home, ks[m], |cells|)].Pair? && cells[Pos(home, ks[m], |cells|)].value == vs[m]
  }

  lemma CarriesMore(cells: seq<Cell>, home: nat, h: int, n: nat, ks: seq<nat>, vs: seq<int>)
    requires home < |cells| && n < |cells| && Carries(cells, home, ks, vs)
    ensures Carries(cells, home, if Hit(cells, home, h, n) then ks + [n] else ks,
                    vs + ValueOf(cells[Pos(home, n, |cells|)], h))
  {
    hide Pos;
  }

  lemma FoundMore(cells: seq<Cell>, home: nat, h: int, n: nat)
    requires home < |cells| && n < |cells|
    ensures Found(cells, home, h, 0) == []
    ensures Found(cells, home, h, n + 1) == Found(cells, home, h, n) + ValueOf(cells[Pos(home, n, |cells|)], h)
  {
  }

  /** A search collects the values of the cells with its hash, one for each, in the order it passes them. */
  lemma {:induction false} FoundInOrder(cells: seq<Cell>, home: nat, h: int, n: nat) returns (ks: seq<nat>)
    requires home < |cells| && n <= |cells|
    ensures Hits(cells, home, h, n, ks) && Carries(cells, home, ks, Found(cells, home, h, n))
  {
    hide Found, Hits, Carries, Hit, Pos, ValueOf;
    if n == 0 {
      ks := [];
      NothingPassed(cells, home, h);
    } else {
      ks := FoundInOrder(cells, home, h, n - 1);
      HitsMore(cells, home, h, n - 1, ks);
      CarriesMore(cells, home, h, n - 1, ks, Found(cells, home, h, n - 1));
      FoundMore(cells, home, h, n - 1);
      ks := if Hit(cells, home, h, n - 1) then ks + [n - 1] else ks;
    }
  }

  lemma NothingPassed(cells: seq<Cell>, home: nat, h: int)
    requires home < |cells|
    ensures Hits(cells, home, h, 0, []) && Carries(cells, home, [], Found(cells, home, h, 0))
  {
  }

  /** Block and place come from the same hash, so with an even number of blocks half the homes go unused. */
  lemma HomesUsed(h: nat, n: nat)
    requires n > 0
    ensures Home(h, n) / BLOCK == h % n && Home(h, n) % BLOCK == h % BLOCK
    ensures n % 2 == 0 ==> Home(h, n) / BLOCK % 2 == Home(h, n) % BLOCK % 2
  {
    var b, o := h % n, h % BLOCK;
    assert (b * BLOCK + o) / BLOCK == b && (b * BLOCK + o) % BLOCK == o;
    if n % 2 == 0 {
      SameParity(h, n);
      SameParity(h, BLOCK);
    }
  }

  lemma SameParity(h: nat, n: nat)
    requires n > 0 && n % 2 == 0
    ensures h % n % 2 == h % 2
  {
    var q, m := h / n, n / 2;
    assert h == q * n + h % n && n == 2 * m;
    assert q * n == 2 * (q * m);
  }

  // ---------- the table is a multimap ----------

  /** A search from the hash's home to the first vacant slot finds every value stored for it, each as often. */
  lemma LookupComplete(cells: seq<Cell>, n: nat, h: int, v: int)
    requires TableOk(cells, n)
    ensures Times(Found(cells, Home(h, n), h, Run(cells, Home(h, n), 0)), v) == Stored(cells, h, v)
  {
    hide TableOk, Home, Run, Copies, Found;
    var m := |cells|;
    var home := HomeInTable(cells, n, h);
    var r := Run(cells, home, 0);
    FoundCounts(cells, home, h, v, r);
    forall p | 0 <= p < m && Steps(home, p, m) >= r ensures cells[p] != Pair(h, v) {
      if cells[p] == Pair(h, v) {
        UsedIsReached(cells, n, p);
      }
    }
    CopiesSplit(cells, h, v, 0, home, m);
    if home + r <= m {
      CopiesSplit(cells, h, v, home, home + r, m);
      NoCopies(cells, h, v, 0, home);
      NoCopies(cells, h, v, home + r, m);
    } else {
      CopiesSplit(cells, h, v, 0, home + r - m, home);
      NoCopies(cells, h, v, home + r - m, home);
    }
  }

  lemma HomeInTable(cells: seq<Cell>, n: nat, h: int) returns (home: nat)
    requires TableOk(cells, n)
    ensures home == Home(h, n) && home < |cells|
  {
    home := Home(h, n);
  }

  lemma UsedIsReached(cells: seq<Cell>, n: nat, p: nat)
    requires TableOk(cells, n) && p < |cells| && cells[p] != Vacant
    ensures Home(cells[p].key, n) < |cells| && Steps(Home(cells[p].key, n), p, |cells|) < Run(cells,
            Home(cells[p].key, n), 0)
  {
  }

  /**
   An insertion stores the pair if and only if there is a vacant slot and the value is nowhere on the run;
   it then adds exactly that pair. Otherwise nothing changes.
   */
  lemma InsertAddsOne(cells: seq<Cell>, n: nat, h: int, v: int, h': int, v': int)
    requires TableOk(cells, n)
    ensures var home := Home(h, n);
            var (o, cells') := Insert(cells, home, h, v);
            && TableOk(cells', n)
            && Stored(cells', h', v') == Stored(cells, h', v') + (if o == Done && (h', v') == (h, v) then 1 else 0)
            && (o != Done ==> cells' == cells)
            && (o == Done <==> (exists p | 0 <= p < |cells| :: cells[p] == Vacant) &&
                                 forall i | 0 <= i < Run(cells, home, 0) :: cells[Pos(home, i, |cells|)].value != v)
            && (o == Duplicate <==>
                  exists i | 0 <= i < Run(cells, home, 0) :: cells[Pos(home, i, |cells|)].value == v)
  {
    hide TableOk, Home, Run;
    var m := |cells|;
    var home := HomeInTable(cells, n, h);
    var r := Run(cells, home, 0);
    if r < m {
      var p := Pos(home, r, m);
      assert cells[p] == Vacant;
      StoreKeeps(cells, n, h, v);
      CopiesPut(cells, h', v', p, Pair(h, v));
    } else {
      forall p | 0 <= p < m ensures cells[p] != Vacant {
        assert cells[Pos(home, Steps(home, p, m), m)] != Vacant;
      }
    }
  }

  lemma StoreKeeps(cells: seq<Cell>, n: nat, h: int, v: int)
    requires TableOk(cells, n) && Home(h, n) < |cells| && Run(cells, Home(h, n), 0) < |cells|
    ensures TableOk(cells[Pos(Home(h, n), Run(cells, Home(h, n), 0), |cells|) := Pair(h, v)], n)
  {
    hide Home, Run;
    var m := |cells|;
    var home := HomeInTable(cells, n, h);
    var r := Run(cells, home, 0);
    var at := Pos(home, r, m);
    var cells' := cells[at := Pair(h, v)];
    assert Steps(home, at, m) == r;
    forall p | 0 <= p < m && cells'[p] != Vacant
      ensures Home(cells'[p].key, n) < m && Steps(Home(cells'[p].key, n), p, m) < Run(cells', Home(cells'[p].key, n), 0)
    {
      var from := HomeInTable(cells, n, cells'[p].key);
      RunGrows(cells, cells', from);
      if p == at {
        RunPast(cells, cells', home, r);
      } else {
        UsedIsReached(cells, n, p);
      }
    }
  }

  /** Filling the slot at the end of a run makes the run longer. */
  lemma RunPast(cells: seq<Cell>, cells': seq<Cell>, home: nat, r: nat)
    requires |cells| == |cells'| && home < |cells| && r == Run(cells, home, 0) < |cells|
    requires forall p | 0 <= p < |cells| :: cells[p] != Vacant ==> cells'[p] != Vacant
    requires cells'[Pos(home, r, |cells|)] != Vacant
    ensures Run(cells', home, 0) > r
  {
    RunGrows(cells, cells', home);
  }

  /** What a removal has done after `n` steps: the slots passed, and only they. */
  lemma {:induction false} RemovedAt(cells: seq<Cell>, home: nat, h: int, v: int, n: nat, p: nat)
    requires home < |cells| && n <= |cells| && p < |cells|
    ensures RemoveUpTo(cells, home, h, v, n)[p] == if Steps(home, p, |cells|) < n then Removed(cells[p], h, v)
            else cells[p]
  {
    if n > 0 {
      RemovedAt(cells, home, h, v, n - 1, p);
      assert Pos(home, n - 1, |cells|) == p <==> Steps(home, p, |cells|) == n - 1;
    }
  }

  /** A removal reaches every pair of its hash and value. */
  lemma RemovesAll(cells: seq<Cell>, n: nat, h: int, v: int, p: nat)
    requires TableOk(cells, n) && p < |cells|
    ensures Remove(cells, Home(h, n), h, v)[p] == Removed(cells[p], h, v)
  {
    hide Run, RemoveUpTo;
    var home := HomeInTable(cells, n, h);
    RemovedAt(cells, home, h, v, Run(cells, home, 0), p);
    if cells[p] != Vacant {
      UsedIsReached(cells, n, p);
    }
  }

  /** A removal takes out every copy of the pair and nothing else, and no search gets shorter. */
  lemma RemoveTakesAll(cells: seq<Cell>, n: nat, h: int, v: int, h': int, v': int)
    requires TableOk(cells, n)
    ensures var cells' := Remove(cells, Home(h, n), h, v);
            && TableOk(cells', n)
            && Stored(cells', h', v') == if (h', v') == (h, v) then 0 else Stored(cells, h', v')
  {
    hide TableOk, Home, Run, Remove;
    var home := HomeInTable(cells, n, h);
    var cells' := Remove(cells, home, h, v);
    forall p | 0 <= p < |cells| ensures cells'[p] == Removed(cells[p], h, v) {
      RemovesAll(cells, n, h, v, p);
    }
    if (h', v') == (h, v) {
      NoCopies(cells', h, v, 0, |cells|);
    } else {
      CopiesSame(cells, cells', h', v', 0, |cells|);
    }
    RemoveKeeps(cells, n, cells', h, v);
  }

  lemma RemoveKeeps(cells: seq<Cell>, n: nat, cells': seq<Cell>, h: int, v: int)
    requires TableOk(cells, n) && |cells'| == |cells| && forall p | 0 <= p < |cells| ::
             cells'[p] == Removed(cells[p], h, v)
    ensures TableOk(cells', n)
  {
    hide Home, Run;
    forall p | 0 <= p < |cells'| && cells'[p] != Vacant
      ensures Home(cells'[p].key, n) < |cells'|
      ensures Steps(Home(cells'[p].key, n), p, |cells'|) < Run(cells', Home(cells'[p].key, n), 0)
    {
      var home := HomeInTable(cells, n, cells'[p].key);
      RunGrows(cells, cells', home);
      UsedIsReached(cells, n, p);
    }
  }

  /** A value removed under a hash cannot be stored again on a run that passes its old slot. */
  lemma TombstoneRefuses(cells: seq<Cell>, n: nat, h: int, v: int, p: nat)
    requires TableOk(cells, n) && p < |cells| && cells[p] == Tomb(h, v)
    ensures Insert(cells, Home(h, n), h, v).0 == Duplicate
  {
    hide Home, Run;
    var home := HomeInTable(cells, n, h);
    UsedIsReached(cells, n, p);
    assert cells[Pos(home, Steps(home, p, |cells|), |cells|)].value == v;
  }
}
