# Drink recommender: selection rule

A model of the one piece of logic in the AAAdrink desktop dialog (`main.py`):
the main window's preference checkboxes are read into a set of requested
tags; the built-in list of seven drinks is filtered to those that offer every
requested tag; one of the matches is picked at random and reported as a full
match, or, when nothing matches, any drink of the whole list is picked and
reported as a fallback. The result dialog also shows the chosen drink's tags,
sorted and joined with `", "`, and offers a restart button that runs the
selection again with the same request.

Modules, following the flow of `UI01.show_result`:

- `Conditions` (`conditions.dfy`): the eight-tag vocabulary and
  `gather_conditions`. The window's checkboxes are a `map<string, bool>`; a
  name that is not a key has no checkbox and counts as unchecked.
- `Catalog` (`catalog.dfy`): the `Drink` record and the fixed catalog.
- `Selector` (`selector.dfy`): the match list, `random.choice`, and the
  full-match / fallback rule. The random source is replaced by a `draw`
  argument: the index `random.choice` would use, below the pool's length.
  `random.choice` on an empty sequence raises `IndexError`; that outcome is
  `EmptySequence`, and it happens exactly when the catalog is empty.
- `TagText` (`tagtext.dfy`): Python's string order, `sorted` on a set of
  strings, `str.join`, and `str.split`, used to state what the attribute line
  contains.
- `ResultDialog` (`resultdialog.dfy`): one run of `show_result`, both with
  `required=None` (read the checkboxes) and with an explicit collection
  (normalised with `set(...)`), and the restart button.

The code picks uniformly with `random.choice` (main.py:94, 97) and its drinks
carry no distance.

## Model

| member | source | states |
|---|---|---|
| Conditions.GatherFrom | main.py:61-64 | a name is gathered exactly when it is among the scanned names and its checkbox exists and is checked |
| Conditions.GatherConditions | main.py:57-65 | the gathered set only holds vocabulary tags, and holds a vocabulary tag exactly when its checkbox exists and is checked; a missing checkbox counts as unchecked |
| Conditions.NoCheckboxesRequestNothing | main.py:59-65 | a window without any of the checkboxes requests nothing, since a missing checkbox counts as unchecked |
| Conditions.GatherOnlyReadsVocabulary | main.py:59-64 | two windows that agree on which vocabulary boxes are checked give the same request, whatever else they contain |
| Catalog.CatalogShape | main.py:75-83 | the catalog has seven drinks, each with at least one tag, all from the checkbox vocabulary |
| Catalog.CatalogTagsHaveNoComma | main.py:75-83 | no catalog tag contains a comma, so the attribute line can be split back into tags |
| Selector.Matches | main.py:91 | a drink is in the match list exactly when it is in the catalog and offers every requested tag, and the list keeps catalog order |
| Selector.SatisfyingSubsequenceBound | main.py:91 | no order-keeping selection of satisfying drinks from the catalog is longer than the match list |
| Selector.MatchesUnique | main.py:91 | any order-keeping selection of satisfying drinks as long as the match list is the match list: it leaves out no satisfying drink and adds nothing |
| Selector.EmptyRequestMatchesAll | main.py:91 | an empty request matches every drink: the match list is the whole catalog |
| Selector.NothingSatisfiesNoMatches | main.py:91 | when no drink offers every requested tag the match list is empty |
| Selector.Choose | main.py:94 | `random.choice` fails exactly on an empty sequence and otherwise returns one of its members |
| Selector.ChooseReachesEveryMember | main.py:94 | every member of the sequence is the choice for some draw |
| Selector.Pool | main.py:93-97 | the pool the pick is drawn from is empty only when the catalog is empty, since the match list is used only when it has a drink |
| Selector.NoteText | main.py:93-98 | the full-match branch shows the note `符合所有條件` and the fallback branch `沒有完全符合的結果，已隨機挑選一項`; each text belongs to exactly one outcome, so the note tells which branch was taken |
| Selector.Select | main.py:91-98 | selection fails only on an empty catalog; the pick is a catalog drink; the note is the full-match one exactly when some drink matches, and a full-match pick is a match and offers every requested tag |
| Selector.SelectReachesEveryPoolMember | main.py:93-98 | every drink of the pool is the pick for some draw |
| Selector.EmptyRequestIsFullMatch | main.py:91-95 | with an empty request the pool is the whole catalog and every pick is a full match |
| Selector.MilkAndFruitTeaFallsBack | main.py:75-98 | no catalog drink offers both milk and fruit tea, so that request picks from the whole catalog with the fallback note |
| Selector.BubbleIsSingleMatch | main.py:75-95 | only the first drink offers bubbles, so requesting them always picks it as a full match |
| TagText.SortedSeq | main.py:123 | `sorted` of a tag set lists each tag of the set exactly once, nothing else, in strictly ascending order |
| TagText.SortedUnique | main.py:123 | two strictly ascending listings of the same tags are equal, so the sorted listing is determined by the set alone |
| TagText.SplitJoin | main.py:123 | splitting a joined non-empty listing on the separator gives the listing back when no item holds the separator's first character |
| TagText.SplitSortedTags | main.py:123 | splitting the attribute line on `", "` gives back the sorted tags when there is at least one tag and none holds a comma |
| TagText.Join | main.py:123 | `", ".join` starts with the first piece and is as long as the pieces plus one separator between each neighbouring pair; `TagText.SplitJoin` is its inverse |
| TagText.AttrsText | main.py:123 | the attribute line is empty for no tags; when there is at least one tag and no tag holds a comma, it splits on `", "` into the drink's tags, each once, in strictly ascending order |
| ResultDialog.Required | main.py:86-89 | without an argument the request is the checked vocabulary boxes; with one it is the set of the given tags |
| ResultDialog.PoolNeverEmpty | main.py:75-98 | with the fixed catalog there is always something to pick from, so `random.choice` never fails |
| ResultDialog.ShowResult | main.py:86-123 | the dialog shows a catalog drink; the note is the full-match one exactly when some drink matches the request, a full-match drink offers every requested tag, and the attribute line lists the drink's tags once each in ascending order |
| ResultDialog.GivenIsNormalisedToSet | main.py:88-89 | the order and repetition of an explicit request, and the checkboxes, do not change the result |
| ResultDialog.ListingRequestsItsSet | main.py:89 | an explicit listing of a set's tags requests exactly that set |
| ResultDialog.Restart | main.py:109-112 | the restart keeps the captured request and makes the pick the selection rule makes for it |
| ResultDialog.RestartRepeatsCapturedRequest | main.py:112 | the restart gives the same dialog as an explicit run with any listing of the captured tags, whatever the checkboxes now say |
| ResultDialog.NothingCheckedIsFullMatch | main.py:57-95 | with no box checked the request is empty, and the drawn catalog drink is shown as a full match |
| ResultDialog.MilkAndFruitTeaShowsFallback | main.py:57-98 | checking only milk and fruit tea shows the drawn catalog drink with the fallback note |
| ResultDialog.PearlMilkTeaAttrsText | main.py:123 | the attribute line of the first drink reads `bubble, milk` |

## Left out

- Loading `project.ui` and `result.ui`, the file-existence checks and their message boxes (main.py:20-28, 69-72, 100-101): GUI and filesystem I/O.
- Finding the quit, generate, close and restart buttons by attribute name or button text and wiring their signals (main.py:30-55, 103-112): reflective widget lookup. Only the restart button's effect, a new run with the captured request, is modelled.
- The HTML markup of the drink-name label and the composition of the second label from the note and the attribute line (main.py:115-124): presentation. The note texts themselves are `Selector.NoteText`.
- The distribution of `random.choice`: the draw is a parameter, and the model says which drinks can be drawn, not how likely each is.
- Distance, weighting and distance formatting: the code has none.
- Checkbox objects without an `isChecked` method (main.py:63) are not modelled separately: a widget state of `false` covers them, since both count as unchecked.
- Explicit requests are modelled as sequences of tags; Python also accepts any iterable. The restart passes its captured set on as the sorted listing of its tags, and `ResultDialog.RestartRepeatsCapturedRequest` shows that any listing gives the same result.
- The modal `dlg.exec()` loop and the `__main__` bootstrap (main.py:126, 129-133).
