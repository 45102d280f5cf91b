/**
 * The category page and its `useCategories` hook: the in-memory catalog,
 * its loading flag and the current page, with the storage they persist to.
 */
module ProtectedPage {
  import opened Wrappers
  import opened Catalog
  import opened Pagination
  import opened Storage

  class CategoryPage {
    const storage: Store
    var categories: seq<Category>
    var isLoading: bool
    var currentPage: int

    /**
     * The persist effect's invariant: once loading is over, the stored
     * catalog is the in-memory one.
     */
    ghost predicate Synced()
      reads this, storage
    {
      !isLoading ==> storage.categories == Some(categories)
    }

    /** The hook's and the page's initial state: no categories yet, loading, page 4. */
    constructor(storage: Store)
      ensures this.storage == storage
      ensures categories == [] && isLoading && currentPage == InitialPage
      ensures Synced()
    {
      this.storage := storage;
      categories, isLoading, currentPage := [], true, InitialPage;
    }

    /** The persist effect: after loading, every catalog change is written back. */
    method Persist()
      modifies storage`categories
      ensures !isLoading ==> storage.categories == Some(categories)
      ensures isLoading ==> storage.categories == old(storage.categories)
    {
      if !isLoading {
        storage.categories := Some(categories);
      }
    }

    /**
     * `loadCategories`: reuse a stored catalog as it is; with none stored,
     * build the 100 unselected categories from the generated `(id, name)`
     * pairs and store them. Either way the catalog is stored afterwards.
     */
    method Load(seeds: seq<(string, string)>)
      requires |seeds| == CatalogSize
      modifies this`categories, this`isLoading, storage`categories
      ensures old(storage.categories).Some? ==> categories == old(storage.categories).value
      ensures old(storage.categories).None? ==> categories == Fresh(seeds)
      ensures old(storage.categories).None? ==> |categories| == CatalogSize && Selected(categories) == []
      ensures storage.categories == Some(categories)
      ensures !isLoading && Synced()
    {
      var saved := storage.categories;
      if saved.Some? {
        categories := saved.value;
      } else {
        var initialCategories := Fresh(seeds);
        FreshSelectsNothing(seeds);
        categories := initialCategories;
        storage.categories := Some(initialCategories);
      }
      isLoading := false;
      Persist();
    }

    /**
     * `toggleCategory`, followed by the persist effect. The persist effect
     * re-establishes `Synced()` whatever held before.
     */
    method ToggleCategory(id: string)
      modifies this`categories, storage`categories
      ensures categories == Toggle(old(categories), id)
      ensures Ids(categories) == Ids(old(categories))
      ensures Synced()
      ensures isLoading ==> storage.categories == old(storage.categories)
    {
      categories := Toggle(categories, id);
      ToggleKeepsIds(old(categories), id);
      Persist();
    }

    /**
     * `handleCategoryClick`: look the category up before toggling, toggle,
     * and report the notice chosen from its old state (none if not found).
     */
    method CategoryClick(id: string) returns (notice: Option<Notice>)
      modifies this`categories, storage`categories
      ensures categories == Toggle(old(categories), id)
      ensures notice == ClickNotice(old(categories), id)
      ensures notice.Some? ==> (notice.value.Removed? <==> !FindById(categories, id).value.isSelected)
      ensures Synced()
    {
      var category := FindById(categories, id);
      ghost var before := categories;
      ToggleCategory(id);
      if category.Some? {
        notice := Some(if category.value.isSelected then Removed(category.value.name) else Added(category.value.name));
        NoticeMatchesNewState(before, id);
      } else {
        notice := None;
      }
    }

    /** `getSelectedCategories`. */
    function SelectedCategories(): (r: seq<Category>)
      reads this
      ensures r == Selected(categories)
      ensures |r| <= |categories|
      ensures forall c :: c in r <==> c in categories && c.isSelected
    {
      Selected(categories)
    }

    /** `totalPages`. */
    function PageCount(): (r: nat)
      reads this
      ensures r * PageSize >= |categories|
      ensures r > 0 ==> (r - 1) * PageSize < |categories|
    {
      TotalPages(|categories|)
    }

    /** `currentCategories`: the slice shown for the current page. */
    function CurrentCategories(): (r: seq<Category>)
      reads this
      ensures |r| <= PageSize
      ensures currentPage >= 1 ==> r == categories[Min((currentPage - 1) * PageSize, |categories|)..Min(currentPage * PageSize, |categories|)]
    {
      Page(categories, currentPage)
    }

    /** The row of page buttons for the current catalog. */
    method PageButtons() returns (range: seq<PageItem>)
      ensures |range| == Min(MaxPageButtons, PageCount()) + (if PageCount() > MaxPageButtons then 1 else 0)
      ensures forall i :: 0 <= i < Min(MaxPageButtons, PageCount()) ==> range[i] == Num(i + 1)
      ensures PageCount() > MaxPageButtons ==> range[|range| - 1] == Ellipsis
      ensures forall item :: item in range <==> Rendered(item, PageCount())
    {
      range := PaginationArray(PageCount());
    }

    /** A click on "<<", "<", a page button, ">" or ">>". */
    method Navigate(m: Move)
      modifies this`currentPage
      ensures currentPage == Step(old(currentPage), PageCount(), m)
    {
      currentPage := Step(currentPage, PageCount(), m);
    }
  }
}
