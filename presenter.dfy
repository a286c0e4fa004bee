/** The view the product page renders from its state: the tab bar, the product
    grid and the recipe carousels, each a skeleton while its collection loads,
    and the recipe sample stored when the recipes arrive. All of it is computed
    from the state alone. */
module Presenter {
  import opened Wrappers
  import opened Sequences
  import opened Catalog
  import opened Localization
  import opened ParagraphTags

  /** At most this many recipes are kept for the carousels. */
  const RecipeLimit := 7

  /** The smaller of two integers: the length `slice(0, RecipeLimit)` keeps. */
  function Min(a: int, b: int): int
  {
    if a <= b then a else b
  }

  /** Placeholder counts shown while each collection loads. */
  const TabSkeletons := 3
  const ProductSkeletons := 6
  const RecipeSkeletons := 3
  /** Product images are served from this prefix. */
  const ImageBase := "https://prahwa.net/storage/"

  /** A region of the page: placeholders while loading, otherwise its items. */
  datatype Pane<T> = Skeleton(count: nat) | Items(items: seq<T>)

  /** A category tab button: the id its click selects, its label, whether it is styled active. */
  datatype TabButton = TabButton(categoryId: Id, caption: string, active: bool)

  /** A product card: id (for its link), heading, image alt text, weight and image URL. */
  datatype ProductCard = ProductCard(productId: Id, heading: string, alt: string, weight: int, imageUrl: string)

  /** The recipe section: placeholders, or the desktop and mobile carousels. */
  datatype RecipeSection = RecipeSkeleton(count: nat) | Carousels(desktop: seq<Recipe>, mobile: seq<Recipe>)

  // ----- Product filter -----

  /** The product filter: the products whose `category_id` is strictly equal to
      `activeTab`, in their original order, every copy of each, and none while
      `activeTab` is null or undefined. */
  function VisibleProducts(products: seq<Product>, activeTab: Option<Id>): (r: seq<Product>)
    ensures forall i :: 0 <= i < |r| ==> activeTab == Some(r[i].categoryId)
    ensures forall p :: multiset(r)[p] == if activeTab == Some(p.categoryId) then multiset(products)[p] else 0
    ensures activeTab == None ==> r == []
    ensures |r| <= |products|
    decreases |products|
  {
    if products == [] then []
    else
      var rest := VisibleProducts(products[1..], activeTab);
      assert products == [products[0]] + products[1..];
      assert multiset(products) == multiset{products[0]} + multiset(products[1..]);
      if activeTab == Some(products[0].categoryId) then [products[0]] + rest else rest
  }

  /** Visible products keep their original relative order. */
  lemma {:induction false} VisibleInOriginalOrder(products: seq<Product>, activeTab: Option<Id>)
    ensures IsSubsequence(VisibleProducts(products, activeTab), products)
    decreases |products|
  {
    if products != [] {
      var r := VisibleProducts(products, activeTab);
      VisibleInOriginalOrder(products[1..], activeTab);
      if activeTab == Some(products[0].categoryId) {
        assert r[0] == products[0] && r[1..] == VisibleProducts(products[1..], activeTab);
      } else {
        SubsequenceOfSuffix(r, products, 1);
      }
    }
  }

  // ----- Recipe sample -----

  /** The recipe sample: the first seven recipes of the shuffled list, or all of
      them when there are fewer. */
  function SampleRecipes(shuffled: seq<Recipe>): (r: seq<Recipe>)
    ensures |r| == Min(RecipeLimit, |shuffled|)
    ensures r == shuffled[..|r|]
  {
    shuffled[..Min(RecipeLimit, |shuffled|)]
  }

  /** When `shuffled` is a permutation of the fetched recipes, the sample has
      `min(7, n)` recipes, all fetched, none more often than it was fetched;
      a fetched list without repeats gives a sample without repeats. */
  lemma SampleDrawnFromFetched(fetched: seq<Recipe>, shuffled: seq<Recipe>)
    requires multiset(shuffled) == multiset(fetched)
    ensures |SampleRecipes(shuffled)| == Min(RecipeLimit, |fetched|)
    ensures multiset(SampleRecipes(shuffled)) <= multiset(fetched)
    ensures forall x :: x in SampleRecipes(shuffled) ==> x in fetched
    ensures Distinct(fetched) ==> Distinct(SampleRecipes(shuffled))
  {
    var r := SampleRecipes(shuffled);
    assert |shuffled| == |multiset(shuffled)| == |fetched|;
    PrefixMultiset(shuffled, |r|);
    forall x | x in r ensures x in fetched {
      assert x in multiset(r);
    }
    if Distinct(fetched) {
      DistinctCounts(fetched);
      SingleCountsDistinct(r);
    }
  }

  // ----- Recipe strip -----

  /** One carousel item: a copy of the recipe whose `title` is replaced by the
      localized title with its paragraph tags stripped. */
  function StripItem(r: Recipe, language: string): (item: Recipe)
    ensures item.title == StripPTags(RecipeTitle(r, language))
    ensures item.(title := r.title) == r
    ensures |item.title| <= |RecipeTitle(r, language)|
  {
    r.(title := StripPTags(RecipeTitle(r, language)))
  }

  /** The list handed to the carousels: one item per stored recipe, in order. */
  function RecipeStrip(recipes: seq<Recipe>, language: string): (items: seq<Recipe>)
    ensures |items| == |recipes|
    ensures forall i :: 0 <= i < |recipes| ==> items[i] == StripItem(recipes[i], language)
  {
    seq(|recipes|, i requires 0 <= i < |recipes| => StripItem(recipes[i], language))
  }

  /** Each strip item differs from its recipe in `title` only, and there it holds
      the localized title with its paragraph tags stripped. */
  lemma StripItemsKeepFields(recipes: seq<Recipe>, language: string, i: nat)
    requires i < |recipes|
    ensures RecipeStrip(recipes, language)[i].id == recipes[i].id
    ensures RecipeStrip(recipes, language)[i].body == recipes[i].body
    ensures RecipeStrip(recipes, language)[i].titleEn == recipes[i].titleEn
    ensures RecipeStrip(recipes, language)[i].titleChi == recipes[i].titleChi
    ensures RecipeStrip(recipes, language)[i].title == StripPTags(RecipeTitle(recipes[i], language))
  {
    var item := RecipeStrip(recipes, language)[i];
    assert item.(title := recipes[i].title) == recipes[i];
  }

  /** The recipe section: three placeholders while recipes load, then the same
      strip handed to both the desktop and the mobile carousel. */
  function RecipeSectionView(loading: bool, recipeList: seq<Recipe>, language: string): (v: RecipeSection)
    ensures loading <==> v.RecipeSkeleton?
    ensures v.RecipeSkeleton? ==> v.count == RecipeSkeletons
    ensures v.Carousels? ==> v.desktop == v.mobile && |v.desktop| == |recipeList|
    ensures v.Carousels? ==> forall i :: 0 <= i < |recipeList| ==> v.desktop[i] == StripItem(recipeList[i], language)
  {
    if loading then RecipeSkeleton(RecipeSkeletons)
    else Carousels(RecipeStrip(recipeList, language), RecipeStrip(recipeList, language))
  }

  // ----- Tabs -----

  /** The tab bar: three placeholders while categories load, then one button per
      category in order, captioned with its display name and marked active
      exactly when its id is `activeTab`. */
  function TabBar(loading: bool, categories: seq<Category>, activeTab: Option<Id>, language: string): (v: Pane<TabButton>)
    ensures loading <==> v.Skeleton?
    ensures v.Skeleton? ==> v.count == TabSkeletons
    ensures v.Items? ==> |v.items| == |categories|
    ensures v.Items? ==> forall i :: 0 <= i < |categories| ==>
      v.items[i].categoryId == categories[i].id &&
      v.items[i].caption == CategoryName(categories[i], language) &&
      (v.items[i].active <==> activeTab == Some(categories[i].id))
  {
    if loading then Skeleton(TabSkeletons)
    else Items(seq(|categories|, i requires 0 <= i < |categories| =>
      TabButton(categories[i].id, CategoryName(categories[i], language), activeTab == Some(categories[i].id))))
  }

  /** With distinct category ids, at most one tab is marked active. */
  lemma AtMostOneActiveTab(categories: seq<Category>, activeTab: Option<Id>, language: string, i: nat, j: nat)
    requires DistinctIds(categories)
    requires i < |categories| && j < |categories|
    requires TabBar(false, categories, activeTab, language).items[i].active
    requires TabBar(false, categories, activeTab, language).items[j].active
    ensures i == j
  {
  }

  /** With distinct ids and `activeTab` naming a listed category, exactly one tab
      is active: the one for that category. */
  lemma ExactlyOneActiveTab(categories: seq<Category>, activeTab: Option<Id>, language: string)
    requires DistinctIds(categories)
    requires activeTab.Some? && HasCategory(categories, activeTab.value)
    ensures exists i :: 0 <= i < |categories| && TabBar(false, categories, activeTab, language).items[i].active
    ensures var tabs := TabBar(false, categories, activeTab, language).items;
      forall i, j :: 0 <= i < |categories| && 0 <= j < |categories| && tabs[i].active && tabs[j].active ==> i == j
  {
    var k :| 0 <= k < |categories| && categories[k].id == activeTab.value;
    assert TabBar(false, categories, activeTab, language).items[k].active;
  }

  // ----- Product grid -----

  /** The card rendered for one visible product. */
  function CardOf(p: Product, language: string): (c: ProductCard)
    ensures c.productId == p.id && c.weight == p.weight
    ensures c.heading == ProductName(p, language) && c.alt == p.name
    ensures c.imageUrl == ImageBase + p.image
  {
    ProductCard(p.id, ProductName(p, language), p.name, p.weight, ImageBase + p.image)
  }

  /** The product grid: six placeholders while products load, then one card per
      product of the active category, in order. */
  function ProductGrid(loading: bool, products: seq<Product>, activeTab: Option<Id>, language: string): (v: Pane<ProductCard>)
    ensures loading <==> v.Skeleton?
    ensures v.Skeleton? ==> v.count == ProductSkeletons
    ensures v.Items? ==> |v.items| == |VisibleProducts(products, activeTab)|
    ensures v.Items? ==> forall i :: 0 <= i < |v.items| ==>
      v.items[i] == CardOf(VisibleProducts(products, activeTab)[i], language)
  {
    if loading then Skeleton(ProductSkeletons)
    else
      var visible := VisibleProducts(products, activeTab);
      Items(seq(|visible|, i requires 0 <= i < |visible| => CardOf(visible[i], language)))
  }
}
