/** The catalog store: the list of places, the search text and the category filter,
    the three operations that change them, and the derived reads. The derived reads
    are functions of the store's fields, as the getters compute them from `get()`. */
module CatalogStore {
  import opened Seqs
  import opened Text
  import opened Heritage

  // ---------------------------------------------------------------------------
  // toggleVisited

  /** The place with its visited flag negated when its id is `placeId`. */
  function ToggleIfMatches(p: Place, placeId: string): Place
  {
    if p.id == placeId then p.(isVisited := !p.isVisited) else p
  }

  /** `places.map(...)` of toggleVisited. */
  function Toggled(places: seq<Place>, placeId: string): (r: seq<Place>)
    ensures |r| == |places|
    ensures forall i :: 0 <= i < |places| ==>
      if places[i].id == placeId
      then r[i] == places[i].(isVisited := !places[i].isVisited)
      else r[i] == places[i]
  {
    if |places| == 0 then []
    else [ToggleIfMatches(places[0], placeId)] + Toggled(places[1..], placeId)
  }

  /** Toggling the same id twice restores the list. */
  lemma ToggledTwice(places: seq<Place>, placeId: string)
    ensures Toggled(Toggled(places, placeId), placeId) == places
  {
    var once := Toggled(places, placeId);
    var twice := Toggled(once, placeId);
    assert forall i :: 0 <= i < |places| ==> twice[i] == places[i];
  }

  /** Toggling an id that no place has changes nothing. */
  lemma ToggledUnknownId(places: seq<Place>, placeId: string)
    requires forall i :: 0 <= i < |places| ==> places[i].id != placeId
    ensures Toggled(places, placeId) == places
  {
    assert forall i :: 0 <= i < |places| ==> Toggled(places, placeId)[i] == places[i];
  }

  /** Toggling never changes which ids are present or in what order. */
  lemma ToggledKeepsIds(places: seq<Place>, placeId: string)
    ensures forall i :: 0 <= i < |places| ==>
      Toggled(places, placeId)[i].id == places[i].id
      && Toggled(places, placeId)[i].category == places[i].category
  {
  }

  // ---------------------------------------------------------------------------
  // getVisitedPlaces / getUnvisitedPlaces

  function VisitedFlag(p: Place): bool
  {
    p.isVisited
  }

  /** `places.filter((place) => place.isVisited)` */
  function VisitedPlaces(places: seq<Place>): (r: seq<Place>)
    ensures forall p :: p in r <==> p in places && p.isVisited
  {
    FilterMembers(places, VisitedFlag);
    Filter(places, VisitedFlag)
  }

  /** `places.filter((place) => !place.isVisited)` */
  function UnvisitedPlaces(places: seq<Place>): (r: seq<Place>)
    ensures forall p :: p in r <==> p in places && !p.isVisited
  {
    FilterMembers(places, Not(VisitedFlag));
    Filter(places, Not(VisitedFlag))
  }

  /** The visited and unvisited lists are the order-preserving selections of the
      places whose flag is set and clear, and together they hold every place once. */
  lemma VisitedUnvisitedPartition(places: seq<Place>)
    ensures SelectedBy(VisitedPlaces(places), places, FilterIndices(places, VisitedFlag), VisitedFlag)
    ensures SelectedBy(UnvisitedPlaces(places), places,
                       FilterIndices(places, Not(VisitedFlag)), Not(VisitedFlag))
    ensures multiset(VisitedPlaces(places)) + multiset(UnvisitedPlaces(places)) == multiset(places)
    ensures |VisitedPlaces(places)| + |UnvisitedPlaces(places)| == |places|
  {
    FilterSelects(places, VisitedFlag);
    FilterSelects(places, Not(VisitedFlag));
    FilterPartition(places, VisitedFlag, Not(VisitedFlag));
  }

  // ---------------------------------------------------------------------------
  // getRandomPlace

  /** getRandomPlace, with `Math.floor(Math.random() * unvisitedPlaces.length)`
      supplied by the caller as `pick`. */
  function RandomPlace(places: seq<Place>, pick: nat): (r: Option<Place>)
    requires UnvisitedPlaces(places) == [] || pick < |UnvisitedPlaces(places)|
    ensures r.None? <==> forall i :: 0 <= i < |places| ==> places[i].isVisited
    ensures r.Some? ==> r.value == UnvisitedPlaces(places)[pick]
    ensures r.Some? ==> r.value in places && !r.value.isVisited
  {
    var unvisited := UnvisitedPlaces(places);
    if |unvisited| == 0 then
      assert forall i :: 0 <= i < |places| ==> places[i] in places;
      None
    else
      assert unvisited[pick] in places && !unvisited[pick].isVisited;
      assert exists i :: 0 <= i < |places| && places[i] == unvisited[pick];
      Some(unvisited[pick])
  }

  /** Every unvisited place is the outcome of some pick. */
  lemma RandomPlaceReachesEveryUnvisited(places: seq<Place>, p: Place)
    requires p in places && !p.isVisited
    ensures exists pick: nat :: pick < |UnvisitedPlaces(places)| && RandomPlace(places, pick) == Some(p)
  {
    var unvisited := UnvisitedPlaces(places);
    var pick :| 0 <= pick < |unvisited| && unvisited[pick] == p;
    assert RandomPlace(places, pick) == Some(p);
  }

  // ---------------------------------------------------------------------------
  // getFilteredPlaces

  /** `matchesSearch`: the query occurs, ignoring case, in the name, city,
      province or description. */
  predicate MatchesSearch(p: Place, query: string)
  {
    || MatchesIgnoringCase(p.name, query)
    || MatchesIgnoringCase(p.location.city, query)
    || MatchesIgnoringCase(p.location.province, query)
    || MatchesIgnoringCase(p.description, query)
  }

  /** `matchesCategory`: the filter is "all" or names the place's category. */
  predicate MatchesCategory(p: Place, selectedCategory: string)
  {
    selectedCategory == AllCategories || CategoryName(p.category) == selectedCategory
  }

  function SearchFilter(query: string): Place -> bool
  {
    p => MatchesSearch(p, query)
  }

  function CategoryFilter(selectedCategory: string): Place -> bool
  {
    p => MatchesCategory(p, selectedCategory)
  }

  /** getFilteredPlaces: the places passing both the search and the category test. */
  function FilteredPlaces(places: seq<Place>, query: string, selectedCategory: string): (r: seq<Place>)
    ensures forall p :: p in r <==>
      p in places && MatchesSearch(p, query) && MatchesCategory(p, selectedCategory)
  {
    FilterMembers(places, And(SearchFilter(query), CategoryFilter(selectedCategory)));
    Filter(places, And(SearchFilter(query), CategoryFilter(selectedCategory)))
  }

  /** The filtered list is the order-preserving selection of the places that pass
      both tests, and equals applying the search test and then the category test. */
  lemma FilteredPlacesIsIntersection(places: seq<Place>, query: string, selectedCategory: string)
    ensures SelectedBy(FilteredPlaces(places, query, selectedCategory), places,
                       FilterIndices(places, And(SearchFilter(query), CategoryFilter(selectedCategory))),
                       And(SearchFilter(query), CategoryFilter(selectedCategory)))
    ensures FilteredPlaces(places, query, selectedCategory)
         == Filter(Filter(places, SearchFilter(query)), CategoryFilter(selectedCategory))
  {
    FilterSelects(places, And(SearchFilter(query), CategoryFilter(selectedCategory)));
    FilterAnd(places, SearchFilter(query), CategoryFilter(selectedCategory));
  }

  /** With an empty query and the "all" filter every place is listed, in order. */
  lemma FilteredPlacesDefaultIsAll(places: seq<Place>)
    ensures FilteredPlaces(places, "", AllCategories) == places
  {
    var keep := And(SearchFilter(""), CategoryFilter(AllCategories));
    forall i | 0 <= i < |places| ensures keep(places[i]) {
      IncludesEmpty(Lower(places[i].name));
    }
    FilterKeepsAll(places, keep);
  }

  /** Selecting a category by its name with an empty query lists exactly the
      places of that category. */
  lemma FilteredByCategoryOnly(places: seq<Place>, c: Category)
    ensures forall p :: p in FilteredPlaces(places, "", CategoryName(c)) <==>
      p in places && p.category == c
  {
    forall p | p in places ensures MatchesSearch(p, "") {
      IncludesEmpty(Lower(p.name));
    }
    forall p ensures MatchesCategory(p, CategoryName(c)) <==> p.category == c {
      CategoryNamesDistinct(p.category, c);
    }
  }

  // ---------------------------------------------------------------------------
  // getPlaceById

  /** `places.find((place) => place.id === id)` */
  function PlaceById(places: seq<Place>, id: string): (r: Option<Place>)
    ensures r.None? <==> forall i :: 0 <= i < |places| ==> places[i].id != id
    ensures r.Some? ==> r.value in places && r.value.id == id
  {
    if |places| == 0 then None
    else if places[0].id == id then Some(places[0])
    else PlaceById(places[1..], id)
  }

  /** The place found is the first one carrying the id. */
  lemma {:induction false} PlaceByIdIsFirst(places: seq<Place>, id: string, i: nat)
    requires i < |places| && places[i].id == id
    requires forall j :: 0 <= j < i ==> places[j].id != id
    ensures PlaceById(places, id) == Some(places[i])
  {
    if i > 0 {
      PlaceByIdIsFirst(places[1..], id, i - 1);
    }
  }

  /** After toggling an id, looking it up finds the same place with its flag negated;
      looking up any other id finds what it found before. */
  lemma {:induction false} PlaceByIdAfterToggle(places: seq<Place>, placeId: string, id: string)
    ensures PlaceById(Toggled(places, placeId), id) ==
      match PlaceById(places, id)
      case None => None
      case Some(p) => Some(ToggleIfMatches(p, placeId))
  {
    if |places| > 0 {
      assert Toggled(places, placeId)[1..] == Toggled(places[1..], placeId);
      PlaceByIdAfterToggle(places[1..], placeId, id);
    }
  }

  // ---------------------------------------------------------------------------
  // The store object

  /** The store's state; every change goes through one of its methods. */
  class HeritageStore {
    var places: seq<Place>
    var searchQuery: string
    var selectedCategory: string

    /** The store starts from the seed data with an empty query and the "all" filter. */
    constructor (seed: seq<Place>)
      ensures places == seed && searchQuery == "" && selectedCategory == AllCategories
    {
      places := seed;
      searchQuery := "";
      selectedCategory := AllCategories;
    }

    /** Negates `isVisited` of every place whose id is `placeId`; no place with that
        id means no change. The session fields are untouched. */
    method ToggleVisited(placeId: string)
      modifies this
      ensures places == Toggled(old(places), placeId)
      ensures searchQuery == old(searchQuery) && selectedCategory == old(selectedCategory)
    {
      places := Toggled(places, placeId);
    }

    /** Replaces the search text verbatim. */
    method SetSearchQuery(query: string)
      modifies this
      ensures searchQuery == query
      ensures places == old(places) && selectedCategory == old(selectedCategory)
    {
      searchQuery := query;
    }

    /** Replaces the category filter verbatim, without checking it against the categories. */
    method SetSelectedCategory(category: string)
      modifies this
      ensures selectedCategory == category
      ensures places == old(places) && searchQuery == old(searchQuery)
    {
      selectedCategory := category;
    }
  }

  /** Two toggles of one id, made through the store, leave its places as they were,
      and the session fields are never touched by toggling. */
  method ToggleTwiceRestores(store: HeritageStore, placeId: string)
    modifies store
    ensures store.places == old(store.places)
    ensures store.searchQuery == old(store.searchQuery)
    ensures store.selectedCategory == old(store.selectedCategory)
  {
    store.ToggleVisited(placeId);
    store.ToggleVisited(placeId);
    ToggledTwice(old(store.places), placeId);
  }
}
