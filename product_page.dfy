/** The state of the product page component: the seven `useState` cells and the
    handlers that update them. Each fetch effect runs once per mount; its
    completion, success or failure, is one call to the matching method below, and
    a click on a rendered tab button is a call to `SelectTab`. */
module ProductPage {
  import opened Wrappers
  import opened Sequences
  import opened Catalog
  import opened Presenter

  class Page {
    var categories: seq<Category>
    var products: seq<Product>
    /** `None` stands for both the initial `null` and the `undefined` that an
        empty categories list yields. */
    var activeTab: Option<Id>
    var loadingCategories: bool
    var loadingProducts: bool
    var loadingRecipes: bool
    var recipeList: seq<Recipe>
    /** The recipes the recipes fetch returned, before shuffling and sampling. */
    ghost var fetchedRecipes: seq<Recipe>

    /** What every reachable state satisfies. A collection is empty until its
        fetch has completed; `activeTab` is absent exactly while there are no
        categories, and otherwise names one of them; `recipeList` is a sample of
        the fetched recipes of size min(7, fetched). */
    ghost predicate Valid()
      reads this
    {
      (loadingCategories ==> categories == []) &&
      (activeTab == None <==> categories == []) &&
      (activeTab.Some? ==> HasCategory(categories, activeTab.value)) &&
      (loadingProducts ==> products == []) &&
      (loadingRecipes ==> fetchedRecipes == []) &&
      |recipeList| == Min(RecipeLimit, |fetchedRecipes|) &&
      multiset(recipeList) <= multiset(fetchedRecipes)
    }

    /** The initial values of the state cells. */
    constructor ()
      ensures Valid()
      ensures categories == [] && products == [] && recipeList == []
      ensures activeTab == None
      ensures loadingCategories && loadingProducts && loadingRecipes
    {
      categories := [];
      products := [];
      activeTab := None;
      loadingCategories := true;
      loadingProducts := true;
      loadingRecipes := true;
      recipeList := [];
      fetchedRecipes := [];
    }

    /** Completion of the categories fetch. On success the list is stored and the
        first category becomes active (absent for an empty list); the flag is
        cleared in either case. The overwrite of `activeTab` is unguarded, but no
        tab can have been clicked yet, so no selection is lost. */
    method CategoriesFetched(outcome: Fetch<seq<Category>>)
      requires Valid() && loadingCategories
      modifies this
      ensures Valid()
      ensures old(activeTab) == None
      ensures !loadingCategories
      ensures categories == (if outcome.Success? then outcome.data else [])
      ensures activeTab == (if outcome.Success? then FirstId(outcome.data) else None)
      ensures products == old(products) && loadingProducts == old(loadingProducts)
      ensures recipeList == old(recipeList) && loadingRecipes == old(loadingRecipes)
      ensures fetchedRecipes == old(fetchedRecipes)
    {
      if outcome.Success? {
        categories := outcome.data;
        activeTab := FirstId(outcome.data);
        if outcome.data != [] {
          assert categories[0].id == activeTab.value;
        }
      }
      loadingCategories := false;
    }

    /** Completion of the products fetch: the list is stored on success, kept
        empty on failure, and the flag is cleared in either case. */
    method ProductsFetched(outcome: Fetch<seq<Product>>)
      requires Valid() && loadingProducts
      modifies this
      ensures Valid()
      ensures !loadingProducts
      ensures products == (if outcome.Success? then outcome.data else [])
      ensures categories == old(categories) && activeTab == old(activeTab)
      ensures loadingCategories == old(loadingCategories)
      ensures recipeList == old(recipeList) && loadingRecipes == old(loadingRecipes)
      ensures fetchedRecipes == old(fetchedRecipes)
    {
      if outcome.Success? {
        products := outcome.data;
      }
      loadingProducts := false;
    }

    /** Completion of the recipes fetch. `shuffled` is the order the random
        comparator sort produced, a permutation of the fetched recipes; on
        success its first seven are stored. On failure `shuffled` is not used,
        the list stays empty, and the flag is cleared in either case. */
    method RecipesFetched(outcome: Fetch<seq<Recipe>>, shuffled: seq<Recipe>)
      requires Valid() && loadingRecipes
      requires outcome.Success? ==> multiset(shuffled) == multiset(outcome.data)
      modifies this
      ensures Valid()
      ensures !loadingRecipes
      ensures recipeList == (if outcome.Success? then SampleRecipes(shuffled) else [])
      ensures fetchedRecipes == (if outcome.Success? then outcome.data else [])
      ensures outcome.Success? ==> |recipeList| == Min(RecipeLimit, |outcome.data|)
      ensures outcome.Success? ==> forall r :: r in recipeList ==> r in outcome.data
      ensures categories == old(categories) && activeTab == old(activeTab)
      ensures loadingCategories == old(loadingCategories)
      ensures products == old(products) && loadingProducts == old(loadingProducts)
    {
      if outcome.Success? {
        SampleDrawnFromFetched(outcome.data, shuffled);
        recipeList := SampleRecipes(shuffled);
        fetchedRecipes := outcome.data;
      }
      loadingRecipes := false;
    }

    /** A click on the tab button at `index`. Buttons exist only once categories
        have loaded, one per category, so the click can only name a listed
        category, and it can never come before the automatic selection. */
    method SelectTab(index: nat)
      requires Valid() && !loadingCategories && index < |categories|
      modifies this
      ensures Valid()
      ensures categories == old(categories) && loadingCategories == old(loadingCategories)
      ensures activeTab == Some(categories[index].id)
      ensures products == old(products) && loadingProducts == old(loadingProducts)
      ensures recipeList == old(recipeList) && loadingRecipes == old(loadingRecipes)
      ensures fetchedRecipes == old(fetchedRecipes)
    {
      activeTab := Some(categories[index].id);
    }
  }

  /** Once the categories have loaded, with distinct ids and at least one
      category, exactly one tab button is marked active. */
  lemma LoadedPageMarksOneTab(page: Page, language: string)
    requires page.Valid() && !page.loadingCategories
    requires DistinctIds(page.categories) && page.categories != []
    ensures var tabs := TabBar(page.loadingCategories, page.categories, page.activeTab, language);
      tabs.Items? && |tabs.items| == |page.categories| &&
      (exists i :: 0 <= i < |tabs.items| && tabs.items[i].active) &&
      (forall i, j :: 0 <= i < |tabs.items| && 0 <= j < |tabs.items| && tabs.items[i].active && tabs.items[j].active ==> i == j)
  {
    ExactlyOneActiveTab(page.categories, page.activeTab, language);
  }

  /** Two categories load, the first becomes active and shows its product; a
      click on the second tab shows the other product. A failed recipes fetch
      leaves an empty strip. */
  method EndToEndScenario()
  {
    var curry := Category(1, "Curry", None, None);
    var rice := Category(2, "Rice", None, None);
    var p10 := Product(10, 1, "Beef Curry", None, None, 200, "p10.png");
    var p11 := Product(11, 2, "Curry Rice", None, None, 180, "p11.png");
    var page := new Page();
    page.CategoriesFetched(Success([curry, rice]));
    page.ProductsFetched(Success([p10, p11]));
    page.RecipesFetched(Failure, []);
    assert page.activeTab == Some(1);
    assert [p10, p11][1..] == [p11];
    assert VisibleProducts(page.products, page.activeTab) == [p10];
    assert page.recipeList == [] && !page.loadingRecipes;
    page.SelectTab(1);
    assert page.activeTab == Some(2);
    assert VisibleProducts(page.products, page.activeTab) == [p11];
  }
}
