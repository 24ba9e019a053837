/** The built-in drink list that recommendations are drawn from. */
module Catalog {
  import opened Conditions

  /** A drink: its display name and the set of tags it offers. */
  datatype Drink = Drink(name: string, attrs: set<Tag>)

  /** The fixed catalog, in listing order. */
  const Drinks: seq<Drink> := [
    Drink("珍珠奶茶", {"bubble", "milk"}),
    Drink("水果茶（椰果）", {"fruittea", "coconut"}),
    Drink("粉粿鮮奶", {"jelly2", "milk"}),
    Drink("椰果茶凍", {"coconut", "jelly"}),
    Drink("波霸鮮奶", {"booba", "milk"}),
    Drink("無咖啡因水果茶", {"nocoffee", "fruittea"}),
    Drink("純茶（茶凍）", {"jelly"})
  ]

  /** The catalog holds seven drinks, each offering at least one tag, and
      every tag it uses is one the main window has a checkbox for. */
  lemma CatalogShape()
    ensures |Drinks| == 7
    ensures forall d :: d in Drinks ==> d.attrs != {}
    ensures forall d, t :: d in Drinks && t in d.attrs ==> t in Vocabulary
  {
  }

  /** No tag of the catalog contains a comma. */
  lemma CatalogTagsHaveNoComma()
    ensures forall d, t :: d in Drinks && t in d.attrs ==> ',' !in t
  {
  }
}
