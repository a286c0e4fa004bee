# House Kari product catalog page — a Dafny model

This project models the logic of the House Kari product catalog page
(`pages/product/index.js`). The page loads three collections: product
categories, products and recipes. It shows one tab per category, and the
products of the active category. It also shows a strip of at most seven
randomly chosen recipes whose titles have their paragraph tags removed.
Category names, product names and recipe titles are read in the page's
language.

The model has seven modules, one concept each:

- `Wrappers` (`wrappers.dfy`): `Option`, used for null and undefined.
- `Sequences` (`sequences.dfy`): subsequences, prefixes, distinctness.
- `Catalog` (`catalog.dfy`): the category, product and recipe records. It also
  holds `Fetch`, the outcome of one fetch (`Success(data)` or `Failure`).
- `Localization` (`localization.dfy`): `getCategoryName`, `getProductName` and
  `getRecipeTitle`, with JavaScript's `||` fallback written out.
- `ParagraphTags` (`paragraph_tags.dfy`): `stripPTags`. This is
  `replace(/<p[^>]*>|<\/p>/g, '')` written as one left-to-right scan that
  deletes leftmost, non-overlapping matches.
- `Presenter` (`presenter.dfy`): what the page renders from its state. That is
  the tab bar, the filtered product grid, the recipe sample (`slice(0, 7)`, with `Min`) and
  the recipe carousels.
- `ProductPage` (`product_page.dfy`): the class `Page`. Its fields are the
  seven `useState` cells, plus the ghost field `fetchedRecipes`, which records
  the fetched recipes so that `Valid()` can relate `recipeList` to them. Its methods are the three fetch-completion handlers
  and the tab click. `Valid()` is the invariant every method keeps.

Points where the code differs from what one might expect:

- The categories handler sets `activeTab` to `data[0]?.id` with no null check.
  An empty list therefore gives `undefined`, not "no change". The model shows
  that nothing is lost: `Page.CategoriesFetched` proves that `activeTab` was
  still absent when the handler ran.
- The sample can repeat a recipe only if the fetched list repeats it.
  `SampleDrawnFromFetched` proves that no recipe appears more often than it was
  fetched, and that a fetched list without repeats gives a sample without
  repeats.
- One pass does not remove every tag: `<<p>p>` becomes `<p>`
  (`NotIdempotent`). The opening alternative also deletes `<pre>` and other
  tags that start with `p`, while keeping `</pre>` (`OtherOpenTagDropped`).
- There is no guard against an update after unmount, and none is modelled.

## Model

| member | source | states |
|---|---|---|
| `Catalog.FirstId` | pages/product/index.js:40 | the active tab after a successful categories load is absent exactly when the list is empty, else the first category's id |
| `Localization.OrElse` | pages/product/index.js:95 | the JavaScript or-fallback: the localized string when present and non-empty, otherwise the base field |
| `Localization.Resolve` | pages/product/index.js:92-101 | the language switch always returns the base field or the variant of the current language; never empty unless the base is; any language other than `en`/`zh` gives the base |
| `Localization.CategoryName` | pages/product/index.js:92-101 | `en`: `name_en` when non-empty, else `name`; `zh`: `name_chi` when non-empty, else `name`; otherwise `name` |
| `Localization.ProductName` | pages/product/index.js:103-112 | the same rule over the product's `name`, `name_en`, `name_chi` |
| `Localization.RecipeTitle` | pages/product/index.js:118-127 | the same rule over `title`, `title_en`, `title_chi` |
| `Localization.DisplayNamesNeverBlank` | pages/product/index.js:92-127 | a non-empty base name yields a non-empty display name in every language |
| `ParagraphTags.OpenTagMatch` | pages/product/index.js:115 | `<p[^>]*>` matches at the start exactly when the text starts with `<p` and some `>` follows; the match ends at the first such `>` |
| `ParagraphTags.CloseTagMatch` | pages/product/index.js:115 | the `<\/p>` alternative matches exactly when the text starts with `</p>`, and the match is 4 long |
| `ParagraphTags.MatchAt` | pages/product/index.js:115 | the alternation matches exactly when one of its alternatives does; its match is the opening-tag match when that exists, otherwise the closing-tag match; a match is never empty and stays inside the text |
| `ParagraphTags.StripPTags` | pages/product/index.js:114-116 | the stripped string is never longer than the input |
| `ParagraphTags.StripIsSubsequence` | pages/product/index.js:114-116 | the kept characters appear in the input, in input order |
| `ParagraphTags.HeadKept` | pages/product/index.js:115 | a first character that does not start `<p` or `</p>` is kept, and the scan continues at the next character |
| `ParagraphTags.NoTagUnchanged` | pages/product/index.js:114-116 | a string in which neither `<p` nor `</p>` occurs is returned unchanged |
| `ParagraphTags.NoClosingBracketUnchanged` | pages/product/index.js:114-116 | a string without `>` is returned unchanged, so an unterminated `<p` is kept |
| `ParagraphTags.PlainPrefixKept` | pages/product/index.js:114-116 | text without `<` passes through unchanged in front of whatever follows |
| `ParagraphTags.OpenTagDropped` | pages/product/index.js:115 | `<p` + attributes without `>` + `>` is deleted whole |
| `ParagraphTags.CloseTagDropped` | pages/product/index.js:115 | `</p>` is deleted whole |
| `ParagraphTags.WrappedParagraphStripped` | pages/product/index.js:114-116 | `<p attrs>text</p>` becomes `text` when the text has no `<` |
| `ParagraphTags.HeadThenPlainKept` | pages/product/index.js:114-116 | a string with no match at its start and no `<` after it is unchanged |
| `ParagraphTags.OtherCloseTagKept` | pages/product/index.js:115 | the closing tag of an element with a longer name (`</pre>`) is kept |
| `ParagraphTags.OtherOpenTagDropped` | pages/product/index.js:115 | for `<pre>`-like elements the opening tag is deleted and the closing tag kept |
| `ParagraphTags.NotIdempotent` | pages/product/index.js:114-116 | `<<p>p>` strips to `<p>`, and a second pass strips that to the empty string |
| `Presenter.VisibleProducts` | pages/product/index.js:179-180 | every visible product has `category_id` equal to `activeTab`; each product occurs as often as in the list if it matches, otherwise not at all; nothing is visible when `activeTab` is null/undefined |
| `Presenter.VisibleInOriginalOrder` | pages/product/index.js:179-180 | visible products keep their original relative order |
| `Presenter.SampleRecipes` | pages/product/index.js:76 | the sample is the first `min(7, n)` recipes of the shuffled list |
| `Presenter.SampleDrawnFromFetched` | pages/product/index.js:70-76 | for any permutation of the fetched recipes, the sample has `min(7, n)` elements, all fetched, none more often than fetched, and no repeats when the fetch had none |
| `Presenter.StripItem` | pages/product/index.js:211-214 | a strip item equals its recipe except `title`, which is `stripPTags(getRecipeTitle(recipe))`, never longer than the localized title |
| `Presenter.RecipeStrip` | pages/product/index.js:211-218 | one strip item per recipe, same length and order |
| `Presenter.StripItemsKeepFields` | pages/product/index.js:211-218 | each item keeps the recipe's id, body and localized title fields, with only `title` replaced |
| `Presenter.RecipeSectionView` | pages/product/index.js:203-219 | three placeholders while recipes load; afterwards the desktop and mobile carousels get the identical strip |
| `Presenter.TabBar` | pages/product/index.js:147-161 | three placeholders while categories load, so no button exists; afterwards one button per category in order, captioned by its display name, active exactly when its id equals `activeTab` |
| `Presenter.AtMostOneActiveTab` | pages/product/index.js:152-156 | with distinct category ids, two active tabs are the same tab |
| `Presenter.ExactlyOneActiveTab` | pages/product/index.js:152-156 | with distinct ids and `activeTab` naming a listed category, exactly one tab is active |
| `Presenter.CardOf` | pages/product/index.js:181-190 | a card shows the product's id, localized name, base name as alt text, weight and image URL under the storage prefix |
| `Presenter.ProductGrid` | pages/product/index.js:167-193 | six placeholders while products load; afterwards one card per visible product, in order |
| `ProductPage.Page.constructor` | pages/product/index.js:27-33 | empty collections, `activeTab` null, all three loading flags true |
| `ProductPage.Page.CategoriesFetched` | pages/product/index.js:36-46 | on success stores the list and sets `activeTab` to the first id (absent if empty); on failure the list stays empty; the flag becomes false either way; `activeTab` was still absent; nothing else changes |
| `ProductPage.Page.ProductsFetched` | pages/product/index.js:52-61 | on success stores the products, on failure they stay empty; the flag becomes false either way; nothing else changes |
| `ProductPage.Page.RecipesFetched` | pages/product/index.js:67-84 | on success stores the first seven of the shuffled recipes, all from the fetch; on failure the list stays empty; the flag becomes false either way; nothing else changes |
| `ProductPage.Page.SelectTab` | pages/product/index.js:155 | a click on a rendered button, which exists only after categories load, sets `activeTab` to that category's id and changes nothing else |
| `ProductPage.LoadedPageMarksOneTab` | pages/product/index.js:147-161 | once non-empty categories with distinct ids have loaded, exactly one tab button is active |

`Page.Valid()` is the invariant every handler keeps. A collection stays empty
until its fetch completes. `activeTab` is absent exactly while there are no
categories, and otherwise names a listed category. `recipeList` has
`min(7, fetched)` elements, none more often than fetched. `EndToEndScenario`
is a client of the class. It loads categories 1 and 2 and products 10 and 11.
It then shows that product 10 is visible, and that after a click on the second
tab only product 11 is visible.

## Left out

- `pages/api/address/index.js` (the proxy to the upstream address API) is not part of this model. It is one HTTP GET relayed as a 200 or a fixed 500 body, with no logic to shape.
- `next.config.js` is not part of this model; it is static framework configuration.
- HTTP requests and async scheduling are not modelled. Each fetch's completion is a method call whose `Fetch` argument is the outcome.
- A response whose `data` is not an array is not modelled; the model treats any unusable response as `Failure`. That matches the recipes handler, which throws at the sort (line 73) before storing anything. The categories handler instead stores the malformed value (line 39); line 40 throws if that value is null or undefined, and otherwise sets `activeTab` to `data[0]?.id` (undefined for an object, a string or a number). The products handler stores the malformed value (line 55) without throwing. In both cases rendering then fails (lines 152 and 180).
- `Math.random` and the comparator-based sort are not modelled. Their result is the parameter `shuffled` of `RecipesFetched`, required to be a permutation of the fetched list. The sort also reorders the response array in place; that array is not visible outside the handler.
- Logging with `console.error` is not modelled.
- React rendering is not modelled: JSX markup, CSS classes, skeleton sizes and the product link's `href`. Placeholder counts are kept.
- The page title (line 90), `getStaticProps` and the i18n bootstrap are not modelled. They are static strings built from the translation table.
- Unmounting, re-running effects and React's strict-mode double invocation are not modelled. Each effect completes once per mount, so each handler requires its loading flag to be still true.
- Identifiers are modelled as integers compared with `===`. `weight` is an integer here, while in the source it is a JavaScript number.
- A product whose `category_id` is missing or null is not modelled. Under `===`, such a product would match an `undefined` or `null` `activeTab`.
- Localized fields that hold non-string JavaScript values are not modelled. Only absent, null, undefined and the empty string count as falsy here.
- A record whose base `name` or `title` is absent or not a string is not modelled: every base field is a `string` here. For a recipe, `stripPTags` would call `replace` on that value and throw (line 115, reached from lines 213 and 217), and the page would fail to render.
