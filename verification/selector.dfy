/** The recommendation rule: keep the drinks that offer every requested tag,
    pick one of them, and fall back to the whole catalog when none qualifies. */
module Selector {
  import opened Conditions
  import opened Catalog

  /** A drink satisfies a request when it offers every requested tag. */
  predicate Satisfies(d: Drink, required: set<Tag>) {
    required <= d.attrs
  }

  /** `s` is obtained from `c` by deleting elements, keeping the order. */
  predicate IsSubsequence<T(==)>(s: seq<T>, c: seq<T>)
    decreases |c|
  {
    if s == [] then true
    else if c == [] then false
    else (s[0] == c[0] && IsSubsequence(s[1..], c[1..])) || IsSubsequence(s, c[1..])
  }

  /** The drinks of `catalog` that satisfy `required`, in catalog order. */
  function Matches(catalog: seq<Drink>, required: set<Tag>): (r: seq<Drink>)
    ensures forall d :: d in r <==> d in catalog && Satisfies(d, required)
    ensures IsSubsequence(r, catalog)
    ensures |r| <= |catalog|
  {
    if catalog == [] then []
    else if Satisfies(catalog[0], required) then [catalog[0]] + Matches(catalog[1..], required)
    else Matches(catalog[1..], required)
  }

  /** No order-keeping selection of satisfying drinks is longer than the
      match list. */
  lemma {:induction false} SatisfyingSubsequenceBound(catalog: seq<Drink>, required: set<Tag>, s: seq<Drink>)
    requires IsSubsequence(s, catalog)
    requires forall d :: d in s ==> Satisfies(d, required)
    ensures |s| <= |Matches(catalog, required)|
    decreases |catalog|
  {
    if s == [] {
    } else if s[0] == catalog[0] && IsSubsequence(s[1..], catalog[1..]) {
      assert s[0] in s;
      forall d | d in s[1..] ensures Satisfies(d, required) {
        assert d in s;
      }
      SatisfyingSubsequenceBound(catalog[1..], required, s[1..]);
    } else {
      SatisfyingSubsequenceBound(catalog[1..], required, s);
    }
  }

  /** The match list is the only longest order-keeping selection of
      satisfying drinks: it contains every satisfying drink, in catalog order,
      and nothing else. */
  lemma {:induction false} MatchesUnique(catalog: seq<Drink>, required: set<Tag>, s: seq<Drink>)
    requires IsSubsequence(s, catalog)
    requires forall d :: d in s ==> Satisfies(d, required)
    requires |s| >= |Matches(catalog, required)|
    ensures s == Matches(catalog, required)
    decreases |catalog|
  {
    if catalog == [] {
    } else if s == [] {
    } else {
      forall d | d in s[1..] ensures Satisfies(d, required) {
        assert d in s;
      }
      assert s[0] in s;
      if s[0] == catalog[0] && IsSubsequence(s[1..], catalog[1..]) {
        assert Satisfies(catalog[0], required);
        MatchesUnique(catalog[1..], required, s[1..]);
        assert s == [s[0]] + s[1..];
      } else {
        SatisfyingSubsequenceBound(catalog[1..], required, s);
        if Satisfies(catalog[0], required) {
          assert false;
        }
        MatchesUnique(catalog[1..], required, s);
      }
    }
  }

  /** An empty request constrains nothing: every drink matches. */
  lemma {:induction false} EmptyRequestMatchesAll(catalog: seq<Drink>)
    ensures Matches(catalog, {}) == catalog
  {
    if catalog != [] {
      EmptyRequestMatchesAll(catalog[1..]);
      assert catalog == [catalog[0]] + catalog[1..];
    }
  }

  /** The outcome of `random.choice`: a member of a non-empty sequence, or
      the error it raises on an empty one. */
  datatype Choice<T> = Chosen(value: T) | EmptySequence

  /** `random.choice(pool)`, where `draw` is the index the random source
      produced; it lies below the length of a non-empty pool. */
  function Choose<T>(pool: seq<T>, draw: nat): (r: Choice<T>)
    requires pool == [] || draw < |pool|
    ensures r.EmptySequence? <==> pool == []
    ensures r.Chosen? ==> r.value in pool
  {
    if pool == [] then EmptySequence else Chosen(pool[draw])
  }

  /** Every member of a pool is the choice for some draw. */
  lemma ChooseReachesEveryMember<T>(pool: seq<T>, x: T)
    requires x in pool
    ensures exists draw: nat :: draw < |pool| && Choose(pool, draw) == Chosen(x)
  {
    var i :| 0 <= i < |pool| && pool[i] == x;
    assert Choose(pool, i) == Chosen(x);
  }

  /** Whether the pick satisfied every requested tag or was a fallback. */
  datatype Note = FullMatch | Fallback

  /** The note shown with a full match. */
  const FullMatchText: string := "符合所有條件"

  /** The note shown with a fallback pick. */
  const FallbackText: string := "沒有完全符合的結果，已隨機挑選一項"

  /** The note text shown with the pick; each outcome has its own text, so
      the text tells which branch was taken. */
  function NoteText(n: Note): (r: string)
    ensures r == FullMatchText <==> n == FullMatch
    ensures r == FallbackText <==> n == Fallback
  {
    match n
    case FullMatch => FullMatchText
    case Fallback => FallbackText
  }

  /** The chosen drink together with how it was reached. */
  datatype Selection = Selection(drink: Drink, note: Note)

  /** The sequence the pick is drawn from: the match list when it is
      non-empty, the whole catalog otherwise. */
  function Pool(catalog: seq<Drink>, required: set<Tag>): (r: seq<Drink>)
    ensures r == [] <==> catalog == []
  {
    var matches := Matches(catalog, required);
    if matches != [] then matches else catalog
  }

  /** Filter the catalog, then pick from the matches or, failing any, from
      the whole catalog. */
  function Select(catalog: seq<Drink>, required: set<Tag>, draw: nat): (r: Choice<Selection>)
    requires Pool(catalog, required) == [] || draw < |Pool(catalog, required)|
    ensures r.EmptySequence? <==> catalog == []
    ensures r.Chosen? ==> r.value.drink in catalog
    ensures r.Chosen? ==> (r.value.note == FullMatch <==> Matches(catalog, required) != [])
    ensures r.Chosen? && r.value.note == FullMatch ==>
              r.value.drink in Matches(catalog, required) && required <= r.value.drink.attrs
  {
    var matches := Matches(catalog, required);
    if matches != [] then
      match Choose(matches, draw)
      case Chosen(d) => Chosen(Selection(d, FullMatch))
      case EmptySequence => EmptySequence
    else
      match Choose(catalog, draw)
      case Chosen(d) => Chosen(Selection(d, Fallback))
      case EmptySequence => EmptySequence
  }

  /** Every drink of the pool is the pick for some draw, with the note that
      says which pool it came from. */
  lemma SelectReachesEveryPoolMember(catalog: seq<Drink>, required: set<Tag>, d: Drink)
    requires d in Pool(catalog, required)
    ensures exists draw: nat :: draw < |Pool(catalog, required)| &&
              Select(catalog, required, draw).Chosen? &&
              Select(catalog, required, draw).value.drink == d
  {
    var pool := Pool(catalog, required);
    var i :| 0 <= i < |pool| && pool[i] == d;
    assert Select(catalog, required, i).value.drink == d;
  }

  /** With an empty request the pick is always a full match from the whole
      catalog. */
  lemma EmptyRequestIsFullMatch(catalog: seq<Drink>, draw: nat)
    requires draw < |catalog|
    ensures Pool(catalog, {}) == catalog
    ensures Select(catalog, {}, draw) == Chosen(Selection(catalog[draw], FullMatch))
  {
    EmptyRequestMatchesAll(catalog);
  }

  /** When no drink satisfies the request the match list is empty. */
  lemma NothingSatisfiesNoMatches(catalog: seq<Drink>, required: set<Tag>)
    requires forall i :: 0 <= i < |catalog| ==> !Satisfies(catalog[i], required)
    ensures Matches(catalog, required) == []
  {
    if Matches(catalog, required) != [] {
      assert Matches(catalog, required)[0] in Matches(catalog, required);
    }
  }

  /** No drink of the catalog offers both milk and fruit tea, so that request
      always falls back. */
  lemma MilkAndFruitTeaFallsBack(draw: nat)
    requires draw < |Drinks|
    ensures Matches(Drinks, {"milk", "fruittea"}) == []
    ensures Select(Drinks, {"milk", "fruittea"}, draw) == Chosen(Selection(Drinks[draw], Fallback))
  {
    var req: set<Tag> := {"milk", "fruittea"};
    assert "milk" in req && "fruittea" in req;
    assert "fruittea" !in Drinks[0].attrs;
    assert "milk" !in Drinks[1].attrs;
    assert "fruittea" !in Drinks[2].attrs;
    assert "milk" !in Drinks[3].attrs;
    assert "fruittea" !in Drinks[4].attrs;
    assert "milk" !in Drinks[5].attrs;
    assert "milk" !in Drinks[6].attrs;
    NothingSatisfiesNoMatches(Drinks, req);
  }

  /** Only the first drink offers bubbles, so requesting them always picks it. */
  lemma BubbleIsSingleMatch(draw: nat)
    requires draw < 1
    ensures Matches(Drinks, {"bubble"}) == [Drinks[0]]
    ensures Select(Drinks, {"bubble"}, draw) == Chosen(Selection(Drinks[0], FullMatch))
  {
    var req: set<Tag> := {"bubble"};
    assert "bubble" in req;
    assert Satisfies(Drinks[0], req);
    var rest := Drinks[1..];
    assert rest == [Drinks[1], Drinks[2], Drinks[3], Drinks[4], Drinks[5], Drinks[6]];
    assert forall i :: 1 <= i < |Drinks| ==> "bubble" !in Drinks[i].attrs;
    NothingSatisfiesNoMatches(rest, req);
    assert Matches(Drinks, req) == [Drinks[0]] + Matches(rest, req);
  }
}
