/** The preference tags of the main window and how the requested tag set is
    read off its checkboxes. */
module Conditions {

  /** An attribute tag, such as "milk" or "bubble". */
  type Tag = string

  /** The checkbox names the main window is scanned for, in scan order. */
  const Vocabulary: seq<Tag> :=
    ["nocoffee", "jelly2", "coconut", "milk", "jelly", "bubble", "fruittea", "booba"]

  /** The checkboxes of the main window: a name is a key only when a checkbox
      of that name exists, and it maps to whether that checkbox is checked. */
  type Widgets = map<string, bool>

  /** A checkbox counts as checked only when it exists and reports checked;
      a missing checkbox counts as unchecked. */
  predicate IsChecked(widgets: Widgets, name: string) {
    name in widgets && widgets[name]
  }

  /** The names among `names` whose checkbox is checked. */
  function GatherFrom(names: seq<string>, widgets: Widgets): (r: set<Tag>)
    ensures forall t :: t in r <==> t in names && IsChecked(widgets, t)
  {
    if names == [] then {}
    else
      var head: set<Tag> := if IsChecked(widgets, names[0]) then {names[0]} else {};
      head + GatherFrom(names[1..], widgets)
  }

  /** The requested tag set built from the main window's checkboxes. */
  function GatherConditions(widgets: Widgets): (r: set<Tag>)
    ensures forall t :: t in r <==> t in Vocabulary && IsChecked(widgets, t)
  {
    GatherFrom(Vocabulary, widgets)
  }

  /** Checkboxes outside the vocabulary, and the states of missing ones, play
      no part: two windows that agree on which vocabulary boxes are checked
      yield the same request. */
  lemma GatherOnlyReadsVocabulary(w1: Widgets, w2: Widgets)
    requires forall t :: t in Vocabulary ==> (IsChecked(w1, t) <==> IsChecked(w2, t))
    ensures GatherConditions(w1) == GatherConditions(w2)
  {
  }

  /** A window with no checkboxes at all requests nothing. */
  lemma NoCheckboxesRequestNothing()
    ensures GatherConditions(map[]) == {}
  {
  }
}
