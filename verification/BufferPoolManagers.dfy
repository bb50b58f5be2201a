/** The buffer pool object: storage/buffer/buffer_pool_manager.go over storage/page/page.go. */
module BufferPoolManagers {
  import opened Bytes
  import opened Collections
  import P = Pools
  import opened CircularLists
  import opened ClockReplacers
  import opened LogManagers

  class Page {
    const id: int
    var pinCount: nat
    var isDirty: bool
    var data: seq<byte>

    constructor (id: int, isDirty: bool, data: seq<byte>)
      ensures this.id == id && pinCount == 1 && this.isDirty == isDirty && this.data == data
    {
      this.id, this.pinCount, this.isDirty, this.data := id, 1, isDirty, data;
    }

    method IncPinCount()
      modifies `pinCount
      ensures pinCount == old(pinCount) + 1
    {
      pinCount := pinCount + 1;
    }

    /** A count of 0 stays 0. */
    method DecPinCount()
      modifies `pinCount
      ensures pinCount == if old(pinCount) > 0 then old(pinCount) - 1 else 0
    {
      if pinCount > 0 {
        pinCount := pinCount - 1;
      }
    }

    /** What `UnpinPage` does to the page: a dirty page stays dirty. */
    method Release(isDirty: bool)
      modifies `pinCount, `isDirty
      ensures pinCount == if old(pinCount) > 0 then old(pinCount) - 1 else 0
      ensures this.isDirty == (old(this.isDirty) || isDirty)
    {
      DecPinCount();
      if this.isDirty || isDirty {
        this.isDirty := true;
      } else {
        this.isDirty := false;
      }
    }
  }

  function FrameOf(page: Page?): Option<P.Frame>
    reads page
  {
    if page == null then None else Some(P.Frame(page.id, page.pinCount, page.isDirty, page.data))
  }

  /** Bytes 4 to 7 of a page. */
  function PageLsn(data: seq<byte>): int
    requires |data| == PAGE_SIZE
  {
    ToI32(Dec32(data, 4))
  }

  /** The record that last changed the page is among the first `n`; LSN 0 is a BEGIN record's, no page change. */
  predicate LoggedIn(data: seq<byte>, n: nat) {
    |data| == PAGE_SIZE ==> PageLsn(data) <= 0 || PageLsn(data) < n
  }

  /**
   The page a taken frame had to give up is written only if it is dirty, and then the log has gone first: with
   `appended` records in the log and `flushed` of them on disk, the page's last record is on disk.
   */
  ghost predicate WriteAhead(s: P.Pool, victim: Option<int>, appended: nat, flushed: nat) {
    |s.free| == 0 && victim.Some? && P.Mapped(s, victim.value) && s.frames[victim.value].value.dirty ==>
      var data := s.frames[victim.value].value.data;
      |data| == PAGE_SIZE && (LoggedIn(data, appended) ==> LoggedIn(data, flushed))
  }

  /** How much of the log is on disk after a frame is taken: all of it if a page had to be written, else as before. */
  ghost function ForcedLog(s: P.Pool, victim: Option<int>, appended: nat, flushed: nat): nat {
    if |s.free| == 0 && victim.Some? && P.Mapped(s, victim.value) && s.frames[victim.value].value.dirty then appended
    else flushed
  }

  /** Every page in the file was last changed by a record that is on disk. */
  predicate Covered(disk: seq<seq<byte>>, flushed: nat) {
    forall p | 0 <= p < |disk| :: LoggedIn(disk[p], flushed)
  }

  /** Every page in a frame was last changed by a record of the log. */
  ghost predicate Stamped(s: P.Pool, appended: nat) {
    forall f | P.Mapped(s, f) :: LoggedIn(s.frames[f].value.data, appended)
  }

  lemma ZerosLogged(n: nat)
    ensures LoggedIn(P.Zeros(), n)
  {
  }

  /** A write keeps the file covered exactly when the page's last record is on disk. */
  lemma WriteCovered(disk: seq<seq<byte>>, pid: nat, data: seq<byte>, flushed: nat)
    requires Covered(disk, flushed)
    ensures Covered(P.WriteTo(disk, pid, data), flushed) <==> LoggedIn(data, flushed)
  {
    hide LoggedIn, P.Zeros;
    ZerosLogged(flushed);
    var d := P.WriteTo(disk, pid, data);
    assert d[pid] == data;
  }

  lemma MoreFlushed(disk: seq<seq<byte>>, m: nat, n: nat)
    requires Covered(disk, m) && m <= n
    ensures Covered(disk, n)
  {
    hide PageLsn;
  }

  /** Evictions behind the log keep every page in the file covered by the log on disk. */
  lemma TakeCovered(s: P.Pool, victim: Option<int>, appended: nat, m: nat, n: nat)
    requires P.VictimOk(s, victim) && Covered(s.disk, m) && m <= n && Stamped(s, appended)
             && WriteAhead(s, victim, appended, n)
    ensures Covered(P.TakeFrame(s, victim).1.disk, n)
  {
    hide LoggedIn, Covered, P.WriteTo;
    MoreFlushed(s.disk, m, n);
    if |s.free| == 0 && victim.Some? {
      var fr := s.frames[victim.value].value;
      if fr.dirty {
        WriteCovered(s.disk, fr.id, fr.data, n);
      }
    }
  }

  /** At most one frame has left the line, and the others stand as they stood. */
  ghost predicate StillInOrder(was: seq<int>, now: seq<int>) {
    now == was || exists at :: 0 <= at < |was| && now == Cut(was, at)
  }

  class BufferPoolManager {
    var pages: seq<Page?>
    const replacer: ClockReplacer
    var freeList: seq<int>
    var pageTable: map<int, int>
    const logManager: LogManager
    /** The database file and the next page id: the disk manager. */
    var disk: seq<seq<byte>>
    var nextPageId: int
    /** Frames whose page could not be read. */
    ghost var lost: set<int>

    ghost function Pages(): set<Page>
      reads this
    {
      set i | 0 <= i < |pages| && pages[i] != null :: pages[i]
    }

    ghost function View(): P.Pool
      reads this, Pages()
    {
      P.Pool(seq(|pages|, i requires 0 <= i < |pages| reads this, Pages() => FrameOf(pages[i])), pageTable, freeList,
          disk, nextPageId)
    }

    /** No two frames share a page object. */
    ghost predicate Apart()
      reads this
    {
      forall i, j | 0 <= i < j < |pages| && pages[i] != null :: pages[i] != pages[j]
    }

    /** The replacer knows exactly the frames with an unpinned page. */
    ghost predicate Synced()
      reads this, Pages(), replacer, replacer.list, replacer.list.nodes,
            if replacer.clockHand.NextOf? then {replacer.clockHand.node} else {}
    {
      && replacer.Valid() && replacer.list.capacity == |pages|
      && (forall f :: f in replacer.Frames() <==> P.Evictable(View(), f))
    }

    /** The tables agree and the frames are partitioned; nothing yet about the replacer. */
    ghost predicate Consistent()
      reads this, Pages(), logManager, logManager.logBuffer, logManager.flushBuffer
    {
      P.PoolOk(View(), lost) && Apart() && logManager.Conserved()
    }

    ghost predicate Valid()
      reads this, Pages(), replacer, replacer.list, replacer.list.nodes,
            if replacer.clockHand.NextOf? then {replacer.clockHand.node} else {}
      reads logManager, logManager.logBuffer, logManager.flushBuffer
    {
      Consistent() && Synced()
    }

    /** The frame whose page would be evicted next: the one under the clock hand. */
    ghost function NextVictim(): Option<int>
      requires Valid()
      reads this, Pages(), replacer, replacer.list, replacer.list.nodes,
            if replacer.clockHand.NextOf? then {replacer.clockHand.node} else {}
      reads logManager, logManager.logBuffer, logManager.flushBuffer
    {
      if replacer.list.size > 0 then Some(replacer.Next()) else None
    }

    /** `NewBufferPoolManager`. */
    constructor (poolSize: nat, disk: seq<seq<byte>>, logManager: LogManager)
      requires logManager.Conserved() && forall p | 0 <= p < |disk| :: |disk[p]| == PAGE_SIZE
      ensures Valid() && fresh(replacer) && fresh(replacer.list) && this.logManager == logManager
      ensures View() == P.Pool(seq(poolSize, _ => None), map[], seq(poolSize, i => i), disk, |disk|) && lost == {}
    {
      this.pages := seq(poolSize, _ => null);
      this.freeList := seq(poolSize, i => i);
      this.pageTable := map[];
      this.logManager := logManager;
      this.replacer := new ClockReplacer(poolSize);
      this.disk, this.nextPageId, this.lost := disk, |disk|, {};
      new;
      assert View().frames == seq(poolSize, _ => None);
      forall f | 0 <= f < poolSize ensures f in freeList {
        assert freeList[f] == f;
      }
    }

    /** One page object changed: so did one frame of the view. */
    twostate lemma OnePageChanged(f: int)
      requires old(Apart()) && unchanged(this) && 0 <= f < |pages| && pages[f] != null
      requires forall i | 0 <= i < |pages| && pages[i] != null && i != f :: unchanged(pages[i])
      ensures View() == old(View()).(frames := old(View()).frames[f := FrameOf(pages[f])])
    {
      assert View().frames == old(View()).frames[f := FrameOf(pages[f])];
    }

    /** No page object changed: the frames of the view are the same. */
    twostate lemma FramesSame()
      requires pages == old(pages) && forall i | 0 <= i < |pages| && pages[i] != null :: unchanged(pages[i])
      ensures View().frames == old(View()).frames
    {
    }

    method WritePage(pid: int, data: seq<byte>)
      requires pid >= 0
      modifies this`disk
      ensures disk == P.WriteTo(old(disk), pid, data)
    {
      disk := P.WriteTo(disk, pid, data);
    }

    /**
     The page in the frame leaves the pool. When it is written, the log is flushed first: the record that last
     changed the page is then on disk.
     */
    method RemoveFrom(frame: int)
      requires Consistent() && P.Mapped(View(), frame)
      modifies this`disk, this`pageTable, logManager
      ensures View().frames == old(View()).frames && P.PoolOk(old(View()), lost)
              && old(View()).frames[frame].value.id >= 0
      ensures View() == P.Evict(old(View()), frame)
      ensures logManager.Conserved()
      ensures logManager.appended == old(logManager.appended) && logManager.flushed >= old(logManager.flushed)
      ensures logManager.flushed == if old(View()).frames[frame].value.dirty then |logManager.appended|
              else old(logManager.flushed)
      ensures WriteAhead(old(View()), Some(frame), |logManager.appended|, logManager.flushed)
    {
      P.OkFacts(View(), lost);
      var currentPage := pages[frame];
      assert View().frames[frame] == FrameOf(currentPage);
      if currentPage != null {
        if currentPage.isDirty {
          logManager.Flush();
          WritePage(currentPage.id, currentPage.data);
        }
        pageTable := pageTable - {currentPage.id};
      }
      FramesSame();
    }

    /** The replacer's choice. */
    method TakeVictim() returns (found: bool, frame: int)
      requires Valid()
      modifies replacer`clockHand, replacer.list, replacer.list.nodes
      ensures replacer.Valid() && replacer.list.capacity == |pages| && Consistent() && View() == old(View())
      ensures found ==> P.Evictable(View(), frame)
      ensures !found ==> forall f :: !P.Evictable(View(), f)
      ensures (if found then Some(frame) else None) == old(NextVictim())
      ensures StillInOrder(old(replacer.Frames()), replacer.Frames())
      ensures forall f :: f in replacer.Frames() <==> P.Evictable(View(), f) && (found ==> f != frame)
    {
      hide P.PoolOk, P.Evictable;
      ghost var at;
      found, frame, at := replacer.Victim();
      FramesSame();
    }

    /** `getFrameID`. */
    method GetFrameId() returns (found: bool, frame: int, isFromFreeList: bool)
      requires Valid()
      modifies this`freeList, replacer`clockHand, replacer.list, replacer.list.nodes
      ensures replacer.Valid() && replacer.list.capacity == |pages| && Apart() && logManager.Conserved()
      ensures isFromFreeList <==> |old(freeList)| > 0
      ensures isFromFreeList ==>
                found && frame == old(freeList)[0] && View() == old(View()).(free := old(freeList)[1..]) && Synced()
      ensures !isFromFreeList ==> View() == old(View()) && P.VictimOk(View(), if found then Some(frame) else None)
      ensures !isFromFreeList ==> (if found then Some(frame) else None) == old(NextVictim())
      ensures StillInOrder(old(replacer.Frames()), replacer.Frames())
      ensures !isFromFreeList ==> forall f ::
                f in replacer.Frames() <==> P.Evictable(View(), f) && (found ==> f != frame)
    {
      hide P.PoolOk, ClockReplacer.Valid, ClockReplacer.UnderHand;
      P.OkFacts(View(), lost);
      if |freeList| > 0 {
        frame := freeList[0];
        freeList := freeList[1..];
        FramesSame();
        return true, frame, true;
      }
      found, frame := TakeVictim();
      isFromFreeList := false;
    }

    /** The victim's page out of the pool; the replacer has given the frame up already. */
    method EvictFrame(frame: int)
      requires Consistent() && P.Mapped(View(), frame)
      requires replacer.Valid() && replacer.list.capacity == |pages|
      requires forall f :: f in replacer.Frames() <==> P.Evictable(View(), f) && f != frame
      modifies this`disk, this`pageTable, logManager
      ensures P.PoolOk(old(View()), lost) && old(View()).frames[frame].value.id >= 0
      ensures View() == P.Evict(old(View()), frame)
      ensures Apart() && Synced() && logManager.Conserved()
      ensures logManager.appended == old(logManager.appended) && logManager.flushed >= old(logManager.flushed)
      ensures logManager.flushed == if old(View()).frames[frame].value.dirty then |logManager.appended|
              else old(logManager.flushed)
      ensures WriteAhead(old(View()), Some(frame), |logManager.appended|, logManager.flushed)
    {
      hide P.PoolOk, P.Evict, P.Evictable, WriteAhead, FrameOf, ClockReplacer.Valid, ClockReplacer.UnderHand,
           LogManager.Conserved;
      P.OkFacts(View(), lost);
      P.EvictEvictable(View(), lost, frame);
      RemoveFrom(frame);
    }

    /** A frame to use, emptied: the first half of `FetchPage` on a miss and of `NewPage`. */
    method TakeFrame() returns (found: bool, frame: int, ghost victim: Option<int>)
      requires Valid()
      modifies this`freeList, this`pageTable, this`disk, logManager, replacer`clockHand, replacer.list,
               replacer.list.nodes
      ensures P.VictimOk(old(View()), victim)
      ensures (if found then Some(frame) else None, View()) == P.TakeFrame(old(View()), victim)
      ensures found ==> P.Taken(View(), lost, frame)
      ensures !found ==> View() == old(View()) && P.PoolOk(View(), lost)
      ensures Apart() && Synced() && logManager.Conserved()
      ensures logManager.appended == old(logManager.appended) && logManager.flushed >= old(logManager.flushed)
      ensures old(Covered(disk, logManager.flushed) && Stamped(View(), |logManager.appended|))
              ==> Covered(disk, logManager.flushed)
      ensures WriteAhead(old(View()), victim, |logManager.appended|, logManager.flushed)
      ensures logManager.flushed
              == ForcedLog(old(View()), victim, |logManager.appended|, old(logManager.flushed))
      ensures |old(freeList)| == 0 ==> victim == old(NextVictim())
      ensures StillInOrder(old(replacer.Frames()), replacer.Frames())
    {
      hide Covered, Stamped, P.PoolOk, P.Evict, P.Taken, FrameOf, ClockReplacer.Valid, ClockReplacer.UnderHand,
           LogManager.Conserved;
      P.OkFacts(View(), lost);
      ghost var s := View();
      var isFromFreeList;
      found, frame, isFromFreeList := GetFrameId();
      victim := if found then Some(frame) else None;
      if isFromFreeList {
        victim := P.SomeVictim(s);
      } else if found {
        EvictFrame(frame);
      }
      P.TakeFrameOk(s, lost, victim);
      ghost var m, n := old(logManager.flushed), logManager.flushed;
      if Covered(s.disk, m) && Stamped(s, |logManager.appended|) {
        TakeCovered(s, victim, |logManager.appended|, m, n);
      }
    }

    /** A page object that is in no frame yet. */
    method MakePage(pageID: int, data: seq<byte>) returns (page: Page)
      requires Apart() && Synced() && logManager.Conserved()
      ensures fresh(page) && page.id == pageID && page.data == data && page.pinCount == 1 && !page.isDirty
      ensures Apart() && Synced() && logManager.Conserved() && View() == old(View())
    {
      page := new Page(pageID, false, data);
      FramesSame();
    }

    /** A page into an emptied frame. */
    method PutInFrame(frame: int, page: Page)
      requires P.Taken(View(), lost, frame) && Apart() && Synced() && logManager.Conserved()
      requires page !in pages && page.id !in pageTable && 0 <= page.id < nextPageId && |page.data| == PAGE_SIZE
               && page.pinCount > 0
      modifies this`pages, this`pageTable
      ensures Valid() && Pages() <= old(Pages()) + {page}
      ensures View() == P.Install(old(View()), frame, FrameOf(page).value)
      ensures page in pages
    {
      hide P.PoolOk, P.Taken, P.Evictable, ClockReplacer.Valid, ClockReplacer.UnderHand, LogManager.Conserved;
      P.InstallEvictable(View(), lost, frame, FrameOf(page).value);
      TakenInRange(View(), lost, frame);
      pageTable := pageTable[page.id := frame];
      pages := pages[frame := page];
      assert pages[frame] == page;
      assert View().frames == old(View()).frames[frame := FrameOf(page)];
    }

    method AllocatePage() returns (pageID: int)
      requires Apart() && Synced() && logManager.Conserved()
      modifies this`nextPageId
      ensures pageID == old(nextPageId) && View() == old(View()).(next := pageID + 1)
      ensures Apart() && Synced() && logManager.Conserved()
    {
      hide ClockReplacer.Valid, ClockReplacer.UnderHand, LogManager.Conserved;
      pageID := nextPageId;
      nextPageId := nextPageId + 1;
      FramesSame();
      assert forall g :: P.Evictable(View(), g) <==> P.Evictable(old(View()), g);
    }

    /** A frame that holds nothing any more and that nobody will use again. */
    ghost method Lose(frame: int)
      requires P.Taken(View(), lost, frame) && Apart() && Synced() && logManager.Conserved()
      modifies this`lost
      ensures Valid() && View() == old(View()) && lost == old(lost) + {frame}
    {
      hide P.PoolOk, P.Evictable, ClockReplacer.Valid, ClockReplacer.UnderHand, LogManager.Conserved;
      lost := lost + {frame};
      FramesSame();
    }

    /** The page object of a mapped page. */
    lemma MappedPage(pageID: int)
      requires Consistent() && pageID in pageTable
      ensures var frame := pageTable[pageID];
              && 0 <= frame < |pages| && pages[frame] != null && pages[frame].id == pageID
                 && |pages[frame].data| == PAGE_SIZE
              && P.Mapped(View(), frame) && View().frames[frame] == FrameOf(pages[frame])
    {
      P.OkFacts(View(), lost);
      assert P.Mapped(View(), pageTable[pageID]);
      assert View().frames[pageTable[pageID]] == FrameOf(pages[pageTable[pageID]]);
    }

    /** A page in its frame changed to `fr`, as `pg` says now. */
    twostate lemma PageRewritten(pageID: int)
      requires old(Consistent()) && unchanged(this) && pageID in pageTable && 0 <= pageTable[pageID] < |pages|
               && pages[pageTable[pageID]] != null
      requires forall i | 0 <= i < |pages| && pages[i] != null && i != pageTable[pageID] :: unchanged(pages[i])
      requires |pages[pageTable[pageID]].data| == PAGE_SIZE && logManager.Conserved()
      ensures Consistent() && P.Mapped(old(View()), pageTable[pageID])
      ensures pages[pageTable[pageID]].id == pageID
              && View() == P.Put(old(View()), pageID, FrameOf(pages[pageTable[pageID]]).value)
      ensures forall g :: P.Evictable(View(), g) <==>
                if g == pageTable[pageID] then pages[pageTable[pageID]].pinCount == 0 else P.Evictable(old(View()), g)
    {
      hide P.PoolOk, P.Evictable, LogManager.Conserved;
      var frame := pageTable[pageID];
      P.OkFacts(old(View()), lost);
      assert old(View()).frames[frame].value.id == pageID;
      OnePageChanged(frame);
      P.PutEvictable(old(View()), lost, pageID, FrameOf(pages[frame]).value);
    }

    /** One more pin on a mapped page. */
    method AddPin(pageID: int) returns (frame: int, pg: Page)
      requires Consistent() && pageID in pageTable
      modifies Pages()
      ensures frame == pageTable[pageID] && 0 <= frame < |pages| && pages[frame] == pg && P.Mapped(old(View()), frame)
      ensures Consistent() && View() == P.Put(old(View()), pageID, FrameOf(pg).value)
      ensures FrameOf(pg).value == var fr := old(View()).frames[frame].value; fr.(pin := fr.pin + 1)
      ensures forall g :: P.Evictable(View(), g) <==> P.Evictable(old(View()), g) && g != frame
    {
      hide P.PoolOk, P.Evictable;
      MappedPage(pageID);
      frame := pageTable[pageID];
      pg := pages[frame];
      pg.IncPinCount();
      PageRewritten(pageID);
    }

    /** `FetchPage` on a hit. */
    method FetchMapped(pageID: int) returns (pg: Page)
      requires Valid() && pageID in pageTable
      modifies Pages(), replacer`clockHand, replacer.list, replacer.list.nodes
      ensures Valid() && pg in Pages()
      ensures P.Mapped(old(View()), pageTable[pageID])
      ensures View() == P.Put(old(View()), pageID, FrameOf(pg).value)
      ensures FrameOf(pg).value == var fr := old(View()).frames[pageTable[pageID]].value; fr.(pin := fr.pin + 1)
      ensures StillInOrder(old(replacer.Frames()), replacer.Frames())
    {
      hide P.PoolOk, P.Evictable, P.Mapped, P.Put, LogManager.Conserved, FrameOf, ClockReplacer.Valid,
           ClockReplacer.UnderHand;
      var frame;
      frame, pg := AddPin(pageID);
      label Pinned:
      ghost var _ := replacer.Pin(frame);
      FramesSame@Pinned();
    }

    /**
     `FetchPage`. On a miss whose read fails the frame is lost, and the page that was in it is out of the
     pool all the same.
     */
    method FetchPage(pageID: int) returns (pg: Page?, ghost victim: Option<int>)
      requires Valid()
      modifies this, Pages(), logManager, replacer`clockHand, replacer.list, replacer.list.nodes
      ensures Valid() && fresh(Pages() - old(Pages())) && (pg != null ==> pg in Pages())
      ensures P.VictimOk(old(View()), victim)
      ensures (FrameOf(pg), View()) == P.Fetch(old(View()), pageID, victim)
      ensures lost == old(lost) + P.LostBy(old(View()), pageID, victim)
      ensures pageID !in old(pageTable) ==> WriteAhead(old(View()), victim, |logManager.appended|, logManager.flushed)
      ensures logManager.flushed == if pageID in old(pageTable) then old(logManager.flushed)
              else ForcedLog(old(View()), victim, |logManager.appended|, old(logManager.flushed))
      ensures pageID !in old(pageTable) && |old(freeList)| == 0 ==> victim == old(NextVictim())
      ensures StillInOrder(old(replacer.Frames()), replacer.Frames())
      ensures old(Covered(disk, logManager.flushed) && Stamped(View(), |logManager.appended|))
              ==> Covered(disk, logManager.flushed)
      ensures logManager.appended == old(logManager.appended) && logManager.flushed >= old(logManager.flushed)
    {
      hide Covered, Stamped, P.PoolOk, P.Evict, P.Taken, P.Evictable, P.VictimOk, P.TakeFrame, WriteAhead, ForcedLog,
           ClockReplacer.Valid, ClockReplacer.UnderHand, LogManager.Conserved;
      P.OkFacts(View(), lost);
      ghost var s := View();
      if pageID in pageTable {
        victim := P.SomeVictim(s);
        pg := FetchMapped(pageID);
        return;
      }
      var found, frame;
      found, frame, victim := TakeFrame();
      P.TakeFrameOk(s, lost, victim);
      if !found {
        return null, victim;
      }
      if !(0 <= pageID < |disk|) {
        Lose(frame);
        return null, victim;
      }
      TakenSizes(View(), lost, frame, pageID);
      pg := MakePage(pageID, disk[pageID]);
      PutInFrame(frame, pg);
    }

    /** `NewPage`: a page of zeros, pinned and clean. */
    method NewPage() returns (pg: Page?, ghost victim: Option<int>)
      requires Valid()
      modifies this, logManager, replacer`clockHand, replacer.list, replacer.list.nodes
      ensures Valid() && fresh(Pages() - old(Pages())) && (pg != null ==> pg in Pages())
      ensures P.VictimOk(old(View()), victim)
      ensures (FrameOf(pg), View()) == P.Create(old(View()), victim)
      ensures lost == old(lost)
      ensures old(Covered(disk, logManager.flushed) && Stamped(View(), |logManager.appended|))
              ==> Covered(disk, logManager.flushed)
      ensures logManager.appended == old(logManager.appended) && logManager.flushed >= old(logManager.flushed)
      ensures WriteAhead(old(View()), victim, |logManager.appended|, logManager.flushed)
      ensures logManager.flushed
              == ForcedLog(old(View()), victim, |logManager.appended|, old(logManager.flushed))
      ensures |old(freeList)| == 0 ==> victim == old(NextVictim())
      ensures StillInOrder(old(replacer.Frames()), replacer.Frames())
    {
      hide Covered, Stamped, P.PoolOk, P.Evict, P.Taken, P.Evictable, P.VictimOk, P.TakeFrame, WriteAhead, P.Zeros,
           ForcedLog,
           ClockReplacer.Valid, ClockReplacer.UnderHand, LogManager.Conserved;
      P.OkFacts(View(), lost);
      ghost var s := View();
      var found, frame;
      found, frame, victim := TakeFrame();
      if !found {
        return null, victim;
      }
      P.NextUp(View(), lost, frame);
      var pageID := AllocatePage();
      pg := MakePage(pageID, P.Zeros());
      PutInFrame(frame, pg);
    }

    /** A frame whose last pin went: the ring has room for it. */
    method AddToReplacer(frame: int)
      requires replacer.Valid() && replacer.list.capacity == |pages| && 0 <= frame < |pages|
      requires forall f :: f in replacer.Frames() ==> 0 <= f < |pages|
      modifies replacer`clockHand, replacer.list, replacer.list.nodes
      ensures replacer.Valid()
      ensures replacer.Frames()
              == if frame in old(replacer.Frames()) then old(replacer.Frames()) else old(replacer.Frames()) + [frame]
    {
      if frame !in replacer.Frames() {
        RoomFor(replacer.Frames(), |pages|, frame);
      }
      replacer.Unpin(frame);
    }

    /** The page part of `UnpinPage`. */
    method DropPin(pageID: int, isDirty: bool) returns (frame: int, pg: Page)
      requires Consistent() && pageID in pageTable
      modifies Pages()
      ensures frame == pageTable[pageID] && 0 <= frame < |pages| && pages[frame] == pg && P.Mapped(old(View()), frame)
      ensures Consistent() && View() == P.Unpin(old(View()), pageID, isDirty).1
      ensures pg.pinCount > 0 ==> !P.Evictable(old(View()), frame)
      ensures forall g ::
                P.Evictable(View(), g) <==> if g == frame then pg.pinCount == 0 else P.Evictable(old(View()), g)
    {
      hide P.PoolOk, P.Evictable, P.Put, P.Mapped, P.Unpin;
      MappedPage(pageID);
      frame := pageTable[pageID];
      pg := pages[frame];
      ghost var fr := FrameOf(pg).value;
      pg.Release(isDirty);
      assert FrameOf(pg).value == fr.(pin := if fr.pin > 0 then fr.pin - 1 else 0, dirty := fr.dirty || isDirty);
      PageRewritten(pageID);
      UnpinIs(old(View()), pageID, isDirty);
    }

    /** `UnpinPage`. */
    method UnpinPage(pageID: int, isDirty: bool) returns (ok: bool)
      requires Valid()
      modifies Pages(), replacer`clockHand, replacer.list, replacer.list.nodes
      ensures Valid() && (pageID in pageTable ==> P.Mapped(old(View()), pageTable[pageID]))
      ensures (ok, View()) == P.Unpin(old(View()), pageID, isDirty)
      ensures replacer.Frames() == old(replacer.Frames())
              || (pageID in pageTable && replacer.Frames() == old(replacer.Frames()) + [pageTable[pageID]])
    {
      hide P.PoolOk, P.Put, P.Mapped, FrameOf, LogManager.Conserved, ClockReplacer.Valid, ClockReplacer.UnderHand;
      P.OkFacts(View(), lost);
      EvictableInRange(View());
      if pageID !in pageTable {
        return false;
      }
      var frame, pg := DropPin(pageID, isDirty);
      label Dropped:
      if pg.pinCount == 0 {
        AddToReplacer(frame);
      }
      FramesSame@Dropped();
      return true;
    }

    /** The changes `FlushPage` makes to the page object. */
    method CleanPage(pageID: int) returns (pg: Page)
      requires Consistent() && pageID in pageTable
      modifies Pages()
      ensures 0 <= pageTable[pageID] < |pages| && pages[pageTable[pageID]] == pg
              && P.Mapped(old(View()), pageTable[pageID])
      ensures Consistent() && View() == P.Put(old(View()), pageID, FrameOf(pg).value)
      ensures FrameOf(pg).value == var fr := old(View()).frames[pageTable[pageID]].value;
              fr.(pin := if fr.pin > 0 then fr.pin - 1 else 0, dirty := false)
      ensures forall g ::
                P.Evictable(View(), g)
                <==> if g == pageTable[pageID] then pg.pinCount == 0 else P.Evictable(old(View()), g)
    {
      hide P.PoolOk, P.Evictable;
      MappedPage(pageID);
      pg := pages[pageTable[pageID]];
      pg.DecPinCount();
      pg.isDirty := false;
      PageRewritten(pageID);
    }

    /** The file write of `FlushPage`. */
    method WriteOut(pageID: int, data: seq<byte>)
      requires pageID >= 0 && Apart() && logManager.Conserved()
      modifies this`disk
      ensures View() == old(View()).(disk := P.WriteTo(old(disk), pageID, data))
      ensures Apart() && logManager.Conserved()
      ensures forall g :: P.Evictable(View(), g) <==> P.Evictable(old(View()), g)
      ensures old(Covered(disk, logManager.flushed)) ==>
                (Covered(disk, logManager.flushed) <==> LoggedIn(data, logManager.flushed))
    {
      hide Covered, LoggedIn;
      ghost var d := disk;
      WritePage(pageID, data);
      FramesSame();
      if Covered(d, logManager.flushed) {
        WriteCovered(d, pageID, data, logManager.flushed);
      }
    }

    /** `FlushPage` on a page that is in the pool. */
    method FlushMapped(pageID: int)
      requires Valid() && pageID in pageTable && pageID >= 0
      modifies Pages(), this`disk
      ensures P.Mapped(old(View()), pageTable[pageID]) && View() == P.Flush(old(View()), pageID).1
      ensures Apart() && logManager.Conserved()
      ensures Synced() <==> old(View()).frames[pageTable[pageID]].value.pin != 1
      ensures old(Covered(disk, logManager.flushed)) ==>
                (Covered(disk, logManager.flushed)
                 <==> LoggedIn(old(View()).frames[pageTable[pageID]].value.data, logManager.flushed))
    {
      hide Covered, LoggedIn, P.PoolOk, P.Put, P.WriteTo, LogManager.Conserved, ClockReplacer.Valid,
           ClockReplacer.UnderHand;
      var pg := CleanPage(pageID);
      WriteOut(pageID, pg.data);
      ghost var f := pageTable[pageID];
      assert f in replacer.Frames() <==> P.Evictable(old(View()), f);
      assert P.Evictable(View(), f) <==> pg.pinCount == 0;
    }

    /**
     `FlushPage`: the page goes to the file and loses a pin. The replacer is not told, so it stays in step
     exactly when that was not the last pin. Nor is the log: the file stays covered by the log on disk exactly
     when the page's last record is there already.
     */
    method FlushPage(pageID: int) returns (ok: bool)
      requires Valid()
      modifies Pages(), this`disk
      ensures pageID in pageTable ==> pageID >= 0 && P.Mapped(old(View()), pageTable[pageID])
      ensures (ok, View()) == P.Flush(old(View()), pageID)
      ensures Consistent() && (Synced() <==> !ok || old(View()).frames[pageTable[pageID]].value.pin != 1)
      ensures old(Covered(disk, logManager.flushed)) ==>
                (Covered(disk, logManager.flushed)
                 <==> !ok || LoggedIn(old(View()).frames[pageTable[pageID]].value.data, logManager.flushed))
    {
      hide Covered, LoggedIn, P.PoolOk, P.Put, P.WriteTo, LogManager.Conserved, ClockReplacer.Valid,
           ClockReplacer.UnderHand;
      P.OkFacts(View(), lost);
      P.FlushOk(View(), lost, pageID);
      ok := pageID in pageTable;
      if ok {
        FlushMapped(pageID);
      }
    }

    /** `DeletePage`: a page that is pinned stays; any other leaves the pool unwritten. */
    method DeletePage(pageID: int) returns (ok: bool)
      requires Valid()
      modifies this`pageTable, this`freeList, replacer`clockHand, replacer.list, replacer.list.nodes
      ensures Valid() && (pageID in old(pageTable) ==> P.Mapped(old(View()), old(pageTable)[pageID]))
      ensures (ok, View()) == P.Delete(old(View()), pageID)
      ensures StillInOrder(old(replacer.Frames()), replacer.Frames())
    {
      hide P.PoolOk, P.Evictable, P.Mapped, LogManager.Conserved, ClockReplacer.Valid, ClockReplacer.UnderHand;
      P.OkFacts(View(), lost);
      if pageID !in pageTable {
        return true;
      }
      MappedPage(pageID);
      var frame := pageTable[pageID];
      if pages[frame].pinCount > 0 {
        return false;
      }
      FreeFrame(pageID, frame);
      label Freed:
      ghost var _ := replacer.Pin(frame);
      FramesSame@Freed();
      return true;
    }

    /** The frame of an unpinned page to the free list. */
    method FreeFrame(pageID: int, frame: int)
      requires Consistent() && pageID in pageTable && frame == pageTable[pageID]
      requires P.Mapped(View(), frame) && View().frames[frame].value.pin == 0
      modifies this`pageTable, this`freeList
      ensures Consistent() && View() == P.Delete(old(View()), pageID).1
      ensures forall g :: P.Evictable(View(), g) <==> P.Evictable(old(View()), g) && g != frame
    {
      hide P.PoolOk, P.Evictable, LogManager.Conserved, ClockReplacer.Valid, ClockReplacer.UnderHand;
      P.DeleteEvictable(View(), lost, pageID);
      pageTable := pageTable - {pageID};
      freeList := freeList + [frame];
      FramesSame();
    }
  }

  /** Distinct frames of a pool that lack one are fewer than the pool. */
  lemma RoomFor(keys: seq<int>, n: nat, id: int)
    requires 0 <= id < n && id !in keys && NoDup(keys) && forall k | k in keys :: 0 <= k < n
    ensures |keys| < n
  {
    DistinctSize(keys);
    var inUse := set k | k in keys;
    assert inUse <= Interval(0, n) - {id};
    SubsetSize(inUse, Interval(0, n) - {id});
  }

  lemma {:induction false} DistinctSize(keys: seq<int>)
    requires NoDup(keys)
    ensures |set k | k in keys| == |keys|
  {
    if |keys| > 0 {
      var rest := keys[1..];
      DistinctSize(rest);
      assert (set k | k in keys) == (set k | k in rest) + {keys[0]};
      assert keys[0] !in rest;
    }
  }

  lemma EvictableInRange(s: P.Pool)
    ensures forall f | P.Evictable(s, f) :: 0 <= f < |s.frames|
  {
  }

  lemma UnpinIs(s: P.Pool, pid: int, isDirty: bool)
    requires pid in s.table && P.Mapped(s, s.table[pid])
    ensures var fr := s.frames[s.table[pid]].value;
            && P.Unpin(s, pid, isDirty) == (true, P.Put(s, pid,
               fr.(pin := if fr.pin > 0 then fr.pin - 1 else 0, dirty := fr.dirty || isDirty)))
            && (fr.pin > 0 ==> !P.Evictable(s, s.table[pid]))
  {
  }

  lemma TakenSizes(s: P.Pool, lost: set<int>, f: int, pid: int)
    requires P.Taken(s, lost, f) && 0 <= pid < |s.disk|
    ensures |s.disk[pid]| == PAGE_SIZE && pid < s.next
  {
  }

  lemma TakenInRange(s: P.Pool, lost: set<int>, f: int)
    requires P.Taken(s, lost, f)
    ensures 0 <= f < |s.frames|
  {
  }
}
