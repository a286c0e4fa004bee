/** Locale-dependent display names: `getCategoryName`, `getProductName` and
    `getRecipeTitle` switch on the i18n language and use JavaScript's `||`,
    so an absent, null or empty localized field falls back to the base field. */
module Localization {
  import opened Wrappers
  import opened Catalog

  /** JavaScript `localized || base` for a string field: an absent field and the
      empty string are both falsy. */
  function OrElse(localized: Option<string>, base: string): (r: string)
    ensures localized.Some? && localized.value != "" ==> r == localized.value
    ensures localized.None? || localized.value == "" ==> r == base
  {
    match localized
    case Some(s) => if s != "" then s else base
    case None => base
  }

  /** The `switch (i18n.language)` shared by the three resolvers: `en` reads the
      English variant, `zh` the Chinese one, any other language the base field. */
  function Resolve(language: string, base: string, en: Option<string>, chi: Option<string>): (r: string)
    ensures r == base || (language == "en" && en == Some(r)) || (language == "zh" && chi == Some(r))
    ensures r == "" ==> base == ""
    ensures language != "en" && language != "zh" ==> r == base
  {
    if language == "en" then OrElse(en, base)
    else if language == "zh" then OrElse(chi, base)
    else base
  }

  /** Display name of a category tab. */
  function CategoryName(c: Category, language: string): (r: string)
    ensures language == "en" ==> r == (if c.nameEn.Some? && c.nameEn.value != "" then c.nameEn.value else c.name)
    ensures language == "zh" ==> r == (if c.nameChi.Some? && c.nameChi.value != "" then c.nameChi.value else c.name)
    ensures language != "en" && language != "zh" ==> r == c.name
  {
    Resolve(language, c.name, c.nameEn, c.nameChi)
  }

  /** Display name of a product card. */
  function ProductName(p: Product, language: string): (r: string)
    ensures language == "en" ==> r == (if p.nameEn.Some? && p.nameEn.value != "" then p.nameEn.value else p.name)
    ensures language == "zh" ==> r == (if p.nameChi.Some? && p.nameChi.value != "" then p.nameChi.value else p.name)
    ensures language != "en" && language != "zh" ==> r == p.name
  {
    Resolve(language, p.name, p.nameEn, p.nameChi)
  }

  /** Title of a recipe before its paragraph tags are stripped. */
  function RecipeTitle(r: Recipe, language: string): (t: string)
    ensures language == "en" ==> t == (if r.titleEn.Some? && r.titleEn.value != "" then r.titleEn.value else r.title)
    ensures language == "zh" ==> t == (if r.titleChi.Some? && r.titleChi.value != "" then r.titleChi.value else r.title)
    ensures language != "en" && language != "zh" ==> t == r.title
  {
    Resolve(language, r.title, r.titleEn, r.titleChi)
  }

  /** A record whose base name is non-empty always gets a non-empty display name,
      whatever the language and whatever its localized fields hold. */
  lemma DisplayNamesNeverBlank(c: Category, p: Product, r: Recipe, language: string)
    ensures c.name != "" ==> CategoryName(c, language) != ""
    ensures p.name != "" ==> ProductName(p, language) != ""
    ensures r.title != "" ==> RecipeTitle(r, language) != ""
  {
  }
}
