/** The pages as their clients see them through the buffer pool: one table page per page id. */
module PageStores {
  import opened Bytes
  import opened Slots
  import opened TablePages
  import opened Recovery

  class PageStore {
    var pages: map<int, TablePage>
    /** `AllocatePage`'s counter: ids from here on are unused. */
    var nextPageId: int

    ghost function Arrays(): set<array<byte>>
      reads this
    {
      set p | p in pages :: pages[p].data
    }

    /** Every page is well-formed, knows its id and has its own bytes. */
    ghost predicate Valid()
      reads this, Arrays()
    {
      && 0 <= nextPageId < U31
      && (forall p | p in pages :: 0 <= p < nextPageId && pages[p].Valid() && pages[p].GetTablePageId() == p)
      && (forall p, q | p in pages && q in pages && p != q :: pages[p].data != pages[q].data)
    }

    /** Slots and LSN of every page. */
    ghost function View(): (db: Db)
      requires Valid()
      reads this, Arrays()
      ensures db.Keys == pages.Keys
    {
      map p | p in pages :: PageState(pages[p].View(), pages[p].GetLSN())
    }

    /** The next-page link of every page. */
    ghost function Links(): (links: map<int, int>)
      requires Valid()
      reads this, Arrays()
      ensures links.Keys == pages.Keys
    {
      map p | p in pages :: pages[p].GetNextPageId()
    }

    constructor ()
      ensures Valid() && pages == map[] && nextPageId == 0
    {
      pages, nextPageId := map[], 0;
    }

    /** A well-formed change to one page's bytes is that change to the whole view. */
    twostate lemma OneChanged(p: int)
      requires old(Valid()) && pages == old(pages) && nextPageId == old(nextPageId) && p in pages
      requires pages[p].Valid() && pages[p].GetTablePageId() == p
      requires forall q | q in pages && q != p :: unchanged(pages[q].data)
      ensures Valid()
      ensures View() == old(View())[p := PageState(pages[p].View(), pages[p].GetLSN())]
      ensures Links() == old(Links())[p := pages[p].GetNextPageId()]
    {
      hide Dec32, PageOk, SlotsOf;
      forall q | q in pages && q != p
        ensures pages[q].Valid() && pages[q].GetTablePageId() == q && pages[q].View() == old(pages[q].View())
        ensures pages[q].GetLSN() == old(pages[q].GetLSN()) && pages[q].GetNextPageId() == old(pages[q].GetNextPageId())
      {
        assert pages[q].data[..] == old(pages[q].data[..]);
      }
    }

    /** Reading changes nothing. */
    twostate lemma NoneChanged()
      requires old(Valid()) && pages == old(pages) && nextPageId == old(nextPageId) && forall q | q in pages ::
               unchanged(pages[q].data)
      ensures Valid() && View() == old(View()) && Links() == old(Links())
    {
      hide Dec32, PageOk, SlotsOf;
      forall q | q in pages
        ensures pages[q].Valid() && pages[q].GetTablePageId() == q && pages[q].View() == old(pages[q].View())
        ensures pages[q].GetLSN() == old(pages[q].GetLSN()) && pages[q].GetNextPageId() == old(pages[q].GetNextPageId())
      {
        assert pages[q].data[..] == old(pages[q].data[..]);
      }
    }

    /** `NewPage` followed by `TablePage.Init`; the bytes start as zeros. */
    method NewTablePage(prevPageId: int) returns (p: int)
      requires Valid() && nextPageId < U31 - 1 && -U31 <= prevPageId < U31
      modifies this
      ensures Valid() && p == old(nextPageId) && p !in old(pages) && nextPageId == p + 1
      ensures pages.Keys == old(pages.Keys) + {p} && forall q | q in old(pages) :: pages[q] == old(pages[q])
      ensures fresh(pages[p].data) && pages[p].PrevPageId() == prevPageId
      ensures View() == old(View())[p := PageState([], 0)]
      ensures Links() == old(Links())[p := -1]
    {
      hide Dec32, PageOk, SlotsOf;
      p := nextPageId;
      nextPageId := nextPageId + 1;
      var page := EmptyPage(p, prevPageId);
      pages := pages[p := page];
      PageAdded(p, page);
    }

    /** A page of the pool made a table page. */
    static method EmptyPage(p: int, prevPageId: int) returns (page: TablePage)
      requires -U31 <= p < U31 && -U31 <= prevPageId < U31
      ensures fresh(page) && fresh(page.data) && page.Valid() && page.View() == []
      ensures page.GetTablePageId() == p && page.GetNextPageId() == -1 && page.GetLSN() == 0
      ensures page.PrevPageId() == prevPageId
    {
      hide Dec32, PageOk, SlotsOf;
      page := new TablePage();
      page.Init(p, prevPageId);
    }

    /** The pages that were there are as they were. */
    twostate lemma OthersSame(p: int)
      requires old(Valid()) && p == old(nextPageId) && p in pages && pages == old(pages)[p := pages[p]]
      requires forall q | q in old(pages) :: unchanged(old(pages)[q].data)
      ensures p !in old(pages) && forall q | q in pages && q != p ::
                && q in old(pages) && pages[q] == old(pages[q])
                && 0 <= q < p && pages[q].Valid() && pages[q].GetTablePageId() == q
                && pages[q].View() == old(pages[q].View()) && pages[q].GetLSN() == old(pages[q].GetLSN())
                && pages[q].GetNextPageId() == old(pages[q].GetNextPageId())
    {
      hide Dec32, PageOk, SlotsOf;
      forall q | q in pages && q != p
        ensures q in old(pages) && pages[q] == old(pages[q]) && pages[q].data[..] == old(pages[q].data[..])
      {
      }
    }

    twostate lemma AddedIsValid(p: int, new page: TablePage)
      requires old(Valid()) && p == old(nextPageId) && nextPageId == p + 1 < U31 && pages == old(pages)[p := page]
      requires page.Valid() && page.GetTablePageId() == p
      requires fresh(page.data) && forall q | q in old(pages) :: unchanged(old(pages)[q].data)
      ensures Valid()
    {
      hide Dec32, PageOk, SlotsOf, TablePage.Valid;
      OthersSame(p);
    }

    /** One more page, with bytes of its own. */
    twostate lemma PageAdded(p: int, new page: TablePage)
      requires old(Valid()) && p == old(nextPageId) && nextPageId == p + 1 < U31 && pages == old(pages)[p := page]
      requires page.Valid() && page.View() == [] && page.GetTablePageId() == p && page.GetNextPageId() == -1
               && page.GetLSN() == 0
      requires fresh(page.data) && forall q | q in old(pages) :: unchanged(old(pages)[q].data)
      ensures Valid() && View() == old(View())[p := PageState([], 0)] && Links() == old(Links())[p := -1]
    {
      hide Dec32, PageOk, SlotsOf, TablePage.Valid, TablePage.View, TablePage.GetLSN, TablePage.GetNextPageId,
           TablePage.GetTablePageId, PageStore.Valid;
      AddedIsValid(p, page);
      OthersSame(p);
    }

    /** A page's next link changes and nothing else. */
    method LinkPage(p: int, q: int)
      requires Valid() && p in pages && -U31 <= q < U31
      modifies pages[p].data
      ensures Valid() && View() == old(View()) && Links() == old(Links())[p := q]
    {
      hide Dec32, PageOk, SlotsOf;
      pages[p].SetNextPageId(q);
      OneChanged(p);
      assert PageState(pages[p].View(), pages[p].GetLSN()) == old(View())[p];
    }

    /** A new page behind page `p`. */
    method AppendPage(p: int) returns (q: int)
      requires Valid() && p in pages && nextPageId < U31 - 1
      modifies this, pages[p].data
      ensures Valid() && q == old(nextPageId) && q !in old(pages) && nextPageId == q + 1
      ensures fresh(Arrays() - old(Arrays())) && q in pages && pages[q].PrevPageId() == p
      ensures View() == old(View())[q := PageState([], 0)]
      ensures Links() == old(Links())[q := -1][p := q]
    {
      hide Dec32, PageOk, SlotsOf;
      q := NewTablePage(p);
      LinkPage(p, q);
    }

    method NextOf(p: int) returns (q: int)
      requires Valid() && p in pages
      ensures q == Links()[p]
      ensures Valid() && View() == old(View()) && Links() == old(Links())
    {
      hide Dec32, PageOk, SlotsOf;
      q := pages[p].GetNextPageId();
    }
  }
}
