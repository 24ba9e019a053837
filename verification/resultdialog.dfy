/** What the result dialog shows for one press of the generate button or of
    the dialog's restart button: the request it was built from, the chosen
    drink, the match note and the attribute line. */
module ResultDialog {
  import opened Conditions
  import opened Catalog
  import opened Selector
  import opened TagText

  /** The `required` argument: absent, so the checkboxes are read, or an
      explicit collection of tags in any order and with any repetition. */
  datatype Request = FromCheckboxes | Given(tags: seq<Tag>)

  /** The requested tag set a request stands for. */
  function Required(req: Request, widgets: Widgets): (r: set<Tag>)
    ensures req.FromCheckboxes? ==> forall t :: t in r <==> t in Vocabulary && IsChecked(widgets, t)
    ensures req.Given? ==> forall t :: t in r <==> t in req.tags
  {
    match req
    case FromCheckboxes => GatherConditions(widgets)
    case Given(tags) => set t | t in tags
  }

  /** The content of one result dialog. */
  datatype Shown = Shown(required: set<Tag>, drink: Drink, note: Note, attrsText: string)

  /** The fixed catalog always offers something to pick from. */
  lemma PoolNeverEmpty(required: set<Tag>)
    ensures |Pool(Drinks, required)| >= 1
  {
    CatalogShape();
  }

  /** One run of the result dialog; `draw` is the random index into the pool
      the pick is made from. */
  function ShowResult(widgets: Widgets, req: Request, draw: nat): (r: Shown)
    requires draw < |Pool(Drinks, Required(req, widgets))|
    ensures r.required == Required(req, widgets)
    ensures r.drink in Drinks
    ensures r.note == FullMatch <==> Matches(Drinks, r.required) != []
    ensures r.note == FullMatch ==> r.drink in Matches(Drinks, r.required) && r.required <= r.drink.attrs
    ensures var pieces := Split(r.attrsText, Separator);
            && StrictlySorted(pieces)
            && |pieces| == |r.drink.attrs|
            && (forall t :: t in pieces <==> t in r.drink.attrs)
  {
    var required := Required(req, widgets);
    CatalogShape();
    CatalogTagsHaveNoComma();
    var pick := Select(Drinks, required, draw).value;
    Shown(required, pick.drink, pick.note, AttrsText(pick.drink.attrs))
  }

  /** The restart button: a fresh run with the request captured by the shown
      dialog, whatever the checkboxes now say. The captured set is passed on
      as a listing of its tags. */
  function Restart(shown: Shown, widgets: Widgets, draw: nat): (r: Shown)
    requires draw < |Pool(Drinks, shown.required)|
    ensures r.required == shown.required
    ensures Select(Drinks, shown.required, draw) == Chosen(Selection(r.drink, r.note))
  {
    ListingRequestsItsSet(SortedSeq(shown.required), shown.required, widgets);
    ShowResult(widgets, Given(SortedSeq(shown.required)), draw)
  }

  /** Only the tags of an explicit request matter, not their order or
      repetition, and the checkboxes are then not read at all. */
  lemma GivenIsNormalisedToSet(w1: Widgets, w2: Widgets, tags1: seq<Tag>, tags2: seq<Tag>, draw: nat)
    requires forall t :: t in tags1 <==> t in tags2
    requires draw < |Pool(Drinks, Required(Given(tags1), w1))|
    ensures Required(Given(tags1), w1) == Required(Given(tags2), w2)
    ensures ShowResult(w1, Given(tags1), draw) == ShowResult(w2, Given(tags2), draw)
  {
    assert Required(Given(tags1), w1) == Required(Given(tags2), w2);
  }

  /** An explicit listing of a set's tags requests exactly that set. */
  lemma ListingRequestsItsSet(tags: seq<Tag>, required: set<Tag>, widgets: Widgets)
    requires forall t :: t in tags <==> t in required
    ensures Required(Given(tags), widgets) == required
  {
  }

  /** Restarting ignores the current checkboxes and repeats the run that any
      explicit listing of the captured tags would give. */
  lemma RestartRepeatsCapturedRequest(shown: Shown, w1: Widgets, w2: Widgets, tags: seq<Tag>, draw: nat)
    requires (set t | t in tags) == shown.required
    requires draw < |Pool(Drinks, shown.required)|
    ensures Restart(shown, w1, draw) == ShowResult(w2, Given(tags), draw)
  {
    var listing := SortedSeq(shown.required);
    ListingRequestsItsSet(listing, shown.required, w1);
    GivenIsNormalisedToSet(w1, w2, listing, tags, draw);
  }

  /** With no box checked the whole catalog matches: the pick is the drawn
      catalog entry and is reported as a full match. */
  lemma NothingCheckedIsFullMatch(widgets: Widgets, draw: nat)
    requires forall t :: t in Vocabulary ==> !IsChecked(widgets, t)
    requires draw < |Drinks|
    ensures Required(FromCheckboxes, widgets) == {}
    ensures draw < |Pool(Drinks, Required(FromCheckboxes, widgets))|
    ensures ShowResult(widgets, FromCheckboxes, draw).drink == Drinks[draw]
    ensures ShowResult(widgets, FromCheckboxes, draw).note == FullMatch
  {
    assert Required(FromCheckboxes, widgets) == {};
    EmptyRequestIsFullMatch(Drinks, draw);
  }

  /** Checking milk and fruit tea finds no drink with both, so the dialog
      shows the drawn catalog entry with the fallback note. */
  lemma MilkAndFruitTeaShowsFallback(widgets: Widgets, draw: nat)
    requires forall t :: t in Vocabulary ==> (IsChecked(widgets, t) <==> t == "milk" || t == "fruittea")
    requires draw < |Drinks|
    ensures Required(FromCheckboxes, widgets) == {"milk", "fruittea"}
    ensures draw < |Pool(Drinks, Required(FromCheckboxes, widgets))|
    ensures ShowResult(widgets, FromCheckboxes, draw).drink == Drinks[draw]
    ensures ShowResult(widgets, FromCheckboxes, draw).note == Fallback
  {
    var req: set<Tag> := {"milk", "fruittea"};
    assert "milk" in Vocabulary && "fruittea" in Vocabulary;
    assert Required(FromCheckboxes, widgets) == req;
    MilkAndFruitTeaFallsBack(draw);
  }

  /** The first drink's attribute line reads "bubble, milk". */
  lemma PearlMilkTeaAttrsText()
    ensures AttrsText(Drinks[0].attrs) == "bubble, milk"
  {
    var listing: seq<string> := ["bubble", "milk"];
    assert Less("bubble", "milk");
    assert StrictlySorted(listing);
    SortedUnique(listing, SortedSeq(Drinks[0].attrs));
  }
}
