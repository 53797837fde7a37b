/** The computations of the visited-places page: the visited places grouped by
    category, the most visited category, and the achievement badges. */
module VisitedSummary {
  import opened Seqs
  import opened Heritage

  // ---------------------------------------------------------------------------
  // Grouping by category

  /** The `placesByCategory` object: its keys in insertion order (as `Object.keys`
      and `Object.entries` list them) and the bucket stored under each key. */
  datatype Grouping = Grouping(keys: seq<Category>, buckets: map<Category, seq<Place>>)

  function HasCategory(c: Category): (r: Place -> bool)
    ensures forall p :: r(p) == (p.category == c)
  {
    (p: Place) => p.category == c
  }

  /** The categories of `s`, each once, in the order they first occur. */
  function CategoryOrder(s: seq<Place>): (r: seq<Category>)
    ensures forall k :: 0 <= k < |r| ==> exists i :: 0 <= i < |s| && s[i].category == r[k]
    ensures forall i :: 0 <= i < |s| ==> s[i].category in r
    ensures forall i, j :: 0 <= i < j < |r| ==> r[i] != r[j]
    ensures |r| <= |s|
  {
    if |s| == 0 then []
    else
      var init, last := s[..|s| - 1], s[|s| - 1];
      assert forall i :: 0 <= i < |init| ==> init[i] == s[i];
      var keys := CategoryOrder(init);
      if last.category in keys then keys else keys + [last.category]
  }

  /** The place bucket of category `c`: the places of `s` in that category, in order. */
  function Bucket(s: seq<Place>, c: Category): seq<Place>
  {
    Filter(s, HasCategory(c))
  }

  /** The grouping the page's reduce produces, as a value. */
  function GroupingOf(s: seq<Place>): Grouping
  {
    var keys := CategoryOrder(s);
    Grouping(keys, map c | c in keys :: Bucket(s, c))
  }

  lemma CategoryOrderSnoc(s: seq<Place>, p: Place)
    ensures CategoryOrder(s + [p]) ==
      if p.category in CategoryOrder(s) then CategoryOrder(s) else CategoryOrder(s) + [p.category]
  {
    assert (s + [p])[..|s|] == s;
  }

  lemma BucketSnoc(s: seq<Place>, p: Place, d: Category)
    ensures Bucket(s + [p], d) == Bucket(s, d) + (if p.category == d then [p] else [])
    ensures d !in CategoryOrder(s) ==> Bucket(s, d) == []
  {
    FilterSnoc(s, p, HasCategory(d));
    if d !in CategoryOrder(s) {
      FilterKeepsNone(s, HasCategory(d));
    }
  }

  /** The buckets after one more place, as the reduce leaves them. */
  function PushPlace(g: Grouping, p: Place): map<Category, seq<Place>>
  {
    var c := p.category;
    if c in g.buckets then g.buckets[c := g.buckets[c] + [p]] else g.buckets[c := [p]]
  }

  /** One call of the reducer: a new key (and bucket) the first time a category is
      met, then the place appended to its bucket. */
  function Push(g: Grouping, p: Place): Grouping
  {
    Grouping(if p.category in g.buckets then g.keys else g.keys + [p.category], PushPlace(g, p))
  }

  /** The reduce over `s`, starting from the empty object. */
  function Reduce(s: seq<Place>): Grouping
  {
    if |s| == 0 then Grouping([], map[]) else Push(Reduce(s[..|s| - 1]), s[|s| - 1])
  }

  /** The reduce produces the grouping described by GroupingOf: the keys in order of
      first occurrence and, under each, the places of that category in order. */
  lemma {:induction false} ReduceIsGroupingOf(s: seq<Place>)
    ensures Reduce(s) == GroupingOf(s)
  {
    if |s| == 0 {
      assert GroupingOf(s).buckets == map[];
    } else {
      var init, last := s[..|s| - 1], s[|s| - 1];
      ReduceIsGroupingOf(init);
      assert s == init + [last];
      GroupingSnoc(init, last);
    }
  }

  /** The `visitedPlaces.reduce(...)` that fills `placesByCategory`: an empty
      bucket is created the first time a category is met, then the place is pushed. */
  method GroupByCategory(visited: seq<Place>) returns (g: Grouping)
    ensures g == Reduce(visited)
    ensures g == GroupingOf(visited)
  {
    var keys: seq<Category> := [];
    var buckets: map<Category, seq<Place>> := map[];
    var i := 0;
    while i < |visited|
      invariant 0 <= i <= |visited|
      invariant Grouping(keys, buckets) == Reduce(visited[..i])
    {
      var place := visited[i];
      assert visited[..i + 1][..i] == visited[..i];
      ghost var before := buckets;
      if place.category !in buckets {
        buckets := buckets[place.category := []];
        keys := keys + [place.category];
      }
      buckets := buckets[place.category := buckets[place.category] + [place]];
      assert place.category !in before ==> buckets == before[place.category := [place]] by {
        assert [] + [place] == [place];
      }
      i := i + 1;
    }
    assert visited[..i] == visited;
    g := Grouping(keys, buckets);
    ReduceIsGroupingOf(visited);
  }

  /** Looking a category up in the grouping: present exactly for the keys, and
      then holding that category's bucket. */
  lemma GroupingLookup(s: seq<Place>, d: Category)
    ensures d in GroupingOf(s).buckets <==> d in CategoryOrder(s)
    ensures d in CategoryOrder(s) ==> GroupingOf(s).buckets[d] == Bucket(s, d)
  {
  }

  /** The bucket of `d` after one more place, as the reducer step leaves it. */
  lemma GroupingSnocAt(s: seq<Place>, p: Place, d: Category)
    requires d in CategoryOrder(s + [p])
    ensures d in PushPlace(GroupingOf(s), p)
    ensures GroupingOf(s + [p]).buckets[d] == PushPlace(GroupingOf(s), p)[d]
  {
    CategoryOrderSnoc(s, p);
    BucketSnoc(s, p, d);
    GroupingLookup(s + [p], d);
    GroupingLookup(s, d);
    GroupingLookup(s, p.category);
    var g := GroupingOf(s);
    if d == p.category {
      if p.category in g.buckets {
        assert PushPlace(g, p)[d] == Bucket(s, d) + [p];
      } else {
        assert PushPlace(g, p)[d] == [p];
        assert Bucket(s, d) == [];
      }
    } else {
      assert d in g.buckets;
      assert PushPlace(g, p)[d] == g.buckets[d];
    }
  }

  lemma GroupingSnocKeys(s: seq<Place>, p: Place)
    ensures GroupingOf(s + [p]).buckets.Keys == PushPlace(GroupingOf(s), p).Keys
  {
    CategoryOrderSnoc(s, p);
    var m, wanted := GroupingOf(s + [p]).buckets, PushPlace(GroupingOf(s), p);
    forall d ensures d in m <==> d in wanted {
      GroupingLookup(s + [p], d);
      GroupingLookup(s, d);
    }
  }

  lemma GroupingSnocBuckets(s: seq<Place>, p: Place)
    ensures GroupingOf(s + [p]).buckets == PushPlace(GroupingOf(s), p)
  {
    GroupingSnocKeys(s, p);
    var m, wanted := GroupingOf(s + [p]).buckets, PushPlace(GroupingOf(s), p);
    forall d | d in m ensures m[d] == wanted[d] {
      GroupingSnocAt(s, p, d);
    }
  }

  /** One step of the reduce: the grouping of `s + [p]` from the grouping of `s`. */
  lemma GroupingSnoc(s: seq<Place>, p: Place)
    ensures GroupingOf(s + [p]) == Push(GroupingOf(s), p)
  {
    CategoryOrderSnoc(s, p);
    GroupingSnocBuckets(s, p);
    GroupingLookup(s, p.category);
  }

  /** Each place of `s` lies in the bucket of its own category and in no other. */
  lemma PlaceInOwnBucketOnly(s: seq<Place>, p: Place, c: Category)
    requires p in s
    ensures c in GroupingOf(s).buckets <==> c in GroupingOf(s).keys
    ensures p.category in GroupingOf(s).buckets
    ensures p in GroupingOf(s).buckets[p.category]
    ensures c != p.category && c in GroupingOf(s).buckets ==> p !in GroupingOf(s).buckets[c]
  {
    var i :| 0 <= i < |s| && s[i] == p;
    FilterMembers(s, HasCategory(p.category));
    FilterMembers(s, HasCategory(c));
  }

  /** A bucket keeps the order of `s`: it is the selection of the places of its category. */
  lemma BucketKeepsOrder(s: seq<Place>, c: Category)
    ensures c in GroupingOf(s).buckets ==>
      SelectedBy(GroupingOf(s).buckets[c], s, FilterIndices(s, HasCategory(c)), HasCategory(c))
  {
    FilterSelects(s, HasCategory(c));
  }

  /** The total size of the buckets listed under `keys`. */
  function SumSizes(keys: seq<Category>, buckets: map<Category, seq<Place>>): nat
    requires forall k :: k in keys ==> k in buckets
  {
    if |keys| == 0 then 0 else SumSizes(keys[..|keys| - 1], buckets) + |buckets[keys[|keys| - 1]]|
  }

  /** The bucket sizes of the categories in `keys`, counted in `s`. */
  function BucketSizes(keys: seq<Category>, s: seq<Place>): nat
  {
    if |keys| == 0 then 0 else BucketSizes(keys[..|keys| - 1], s) + |Bucket(s, keys[|keys| - 1])|
  }

  lemma {:induction false} SumSizesIsBucketSizes(keys: seq<Category>, s: seq<Place>)
    requires forall k :: k in keys ==> k in GroupingOf(s).buckets
    ensures SumSizes(keys, GroupingOf(s).buckets) == BucketSizes(keys, s)
  {
    if |keys| > 0 {
      SumSizesIsBucketSizes(keys[..|keys| - 1], s);
    }
  }

  /** Adding a place grows by one the bucket of its category, counted over any keys
      that list that category once, and leaves the rest alone. */
  lemma {:induction false} BucketSizesSnoc(keys: seq<Category>, s: seq<Place>, p: Place)
    requires forall i, j :: 0 <= i < j < |keys| ==> keys[i] != keys[j]
    ensures BucketSizes(keys, s + [p]) == BucketSizes(keys, s) + (if p.category in keys then 1 else 0)
  {
    if |keys| > 0 {
      var init, last := keys[..|keys| - 1], keys[|keys| - 1];
      BucketSizesSnoc(init, s, p);
      FilterSnoc(s, p, HasCategory(last));
      assert p.category in keys <==> p.category in init || p.category == last;
      assert p.category == last ==> p.category !in init;
    }
  }

  /** The bucket sizes add up to the number of visited places. */
  lemma {:induction false} GroupSizesSum(s: seq<Place>)
    ensures SumSizes(GroupingOf(s).keys, GroupingOf(s).buckets) == |s|
  {
    GroupSizesSumBySnoc(s);
    SumSizesIsBucketSizes(CategoryOrder(s), s);
  }

  lemma {:induction false} GroupSizesSumBySnoc(s: seq<Place>)
    ensures BucketSizes(CategoryOrder(s), s) == |s|
  {
    if |s| > 0 {
      var init, last := s[..|s| - 1], s[|s| - 1];
      assert s == init + [last];
      GroupSizesSumBySnoc(init);
      var keys := CategoryOrder(init);
      BucketSizesSnoc(keys, init, last);
      if last.category !in keys {
        FilterSnoc(init, last, HasCategory(last.category));
        FilterKeepsNone(init, HasCategory(last.category));
        assert (keys + [last.category])[..|keys|] == keys;
      }
    }
  }

  /** The position where category `c` first occurs in `s`. */
  ghost function FirstIndex(s: seq<Place>, c: Category): (i: nat)
    requires exists j :: 0 <= j < |s| && s[j].category == c
    ensures i < |s| && s[i].category == c
    ensures forall j :: 0 <= j < i ==> s[j].category != c
  {
    var init := s[..|s| - 1];
    if exists j :: 0 <= j < |init| && init[j].category == c then FirstIndex(init, c) else |s| - 1
  }

  /** The keys are ordered by where their category first occurs among the places. */
  lemma {:induction false} KeysInFirstOccurrenceOrder(s: seq<Place>)
    ensures forall i, j :: 0 <= i < j < |CategoryOrder(s)| ==>
      FirstIndex(s, CategoryOrder(s)[i]) < FirstIndex(s, CategoryOrder(s)[j])
  {
    if |s| > 0 {
      var init, last := s[..|s| - 1], s[|s| - 1];
      KeysInFirstOccurrenceOrder(init);
      var keys := CategoryOrder(init);
      forall i | 0 <= i < |keys| ensures FirstIndex(s, keys[i]) == FirstIndex(init, keys[i]) {
        assert exists j :: 0 <= j < |init| && init[j].category == keys[i];
      }
      if last.category !in keys {
        assert !exists j :: 0 <= j < |init| && init[j].category == last.category;
        assert FirstIndex(s, last.category) == |s| - 1;
      }
    }
  }

  // ---------------------------------------------------------------------------
  // Most visited category

  /** `Object.keys(placesByCategory).reduce((a, b) => size(a) > size(b) ? a : b)`:
      a key whose bucket is largest; from equally large buckets the later key wins. */
  function MostVisited(keys: seq<Category>, buckets: map<Category, seq<Place>>): (r: Category)
    requires |keys| > 0 && forall k :: k in keys ==> k in buckets
    requires forall i, j :: 0 <= i < j < |keys| ==> keys[i] != keys[j]
    ensures r in keys
    ensures forall k :: k in keys ==> |buckets[k]| <= |buckets[r]|
    ensures forall i, j :: 0 <= i < j < |keys| && keys[i] == r ==> |buckets[keys[j]]| < |buckets[r]|
  {
    if |keys| == 1 then keys[0]
    else
      var init, b := keys[..|keys| - 1], keys[|keys| - 1];
      assert keys == init + [b];
      var a := MostVisited(init, buckets);
      if |buckets[a]| > |buckets[b]| then a else b
  }

  /** `categoryLabels`: the heading shown for a category. */
  function Label(c: Category): string
  {
    match c
    case Temple => "Temples"
    case Palace => "Palaces"
    case Fort => "Forts"
    case Monument => "Monuments"
    case Site => "Sites"
    case Museum => "Museums"
  }

  /** The "Most Visited Category" card: the label of the winning key, or "-" when
      there are no groups. */
  function MostVisitedLabel(g: Grouping): (r: string)
    requires forall k :: k in g.keys ==> k in g.buckets
    requires forall i, j :: 0 <= i < j < |g.keys| ==> g.keys[i] != g.keys[j]
    ensures r == "-" <==> |g.keys| == 0
    ensures |g.keys| > 0 ==> r == Label(MostVisited(g.keys, g.buckets))
  {
    if |g.keys| > 0 then Label(MostVisited(g.keys, g.buckets)) else "-"
  }

  // ---------------------------------------------------------------------------
  // Achievements and the page summary

  /** The count-based badges; Half Explorer and Heritage Champion depend on a
      rounded percentage and are not part of this model. */
  datatype Badge = BeginnerExplorer | HeritageAdventurer | HistoryLover | CategoryMaster

  /** The count-based badges in the order the page renders them. */
  function Badges(visitedCount: nat, categoryCount: nat): (r: seq<Badge>)
    ensures BeginnerExplorer in r <==> visitedCount >= 1
    ensures HeritageAdventurer in r <==> visitedCount >= 3
    ensures HistoryLover in r <==> visitedCount >= 5
    ensures CategoryMaster in r <==> categoryCount >= 3
    ensures forall i, j :: 0 <= i < j < |r| ==> r[i] != r[j]
  {
    (if visitedCount >= 1 then [BeginnerExplorer] else [])
    + (if visitedCount >= 3 then [HeritageAdventurer] else [])
    + (if visitedCount >= 5 then [HistoryLover] else [])
    + (if categoryCount >= 3 then [CategoryMaster] else [])
  }

  /** Visiting more places, in more categories, never takes a badge away. */
  lemma BadgesMonotone(v: nat, c: nat, v': nat, c': nat)
    requires v <= v' && c <= c'
    ensures forall b :: b in Badges(v, c) ==> b in Badges(v', c')
  {
  }

  /** What the page shows: the empty state, or the journey cards. */
  datatype VisitedView =
    | EmptyState
    | Journey(totalVisited: nat, mostVisitedLabel: string, categoryTypes: nat,
              badges: seq<Badge>, groups: Grouping)

  /** The visited page for the list of visited places. */
  function View(visited: seq<Place>): (v: VisitedView)
    ensures v.EmptyState? <==> |visited| == 0
  {
    if |visited| > 0 then
      var g := GroupingOf(visited);
      Journey(|visited|, MostVisitedLabel(g), |g.keys|, Badges(|visited|, |g.keys|), g)
    else EmptyState
  }

  /** On the journey view: there is always a Beginner badge and a real category label,
      the number of category types is at most the number of places, so Category Master
      comes only with Heritage Adventurer, and the groups hold every visited place. */
  lemma JourneyFacts(visited: seq<Place>)
    requires |visited| > 0
    ensures var v := View(visited);
      && BeginnerExplorer in v.badges
      && v.mostVisitedLabel != "-"
      && 1 <= v.categoryTypes <= v.totalVisited
      && (CategoryMaster in v.badges ==> HeritageAdventurer in v.badges)
      && (HistoryLover in v.badges ==> HeritageAdventurer in v.badges)
      && SumSizes(v.groups.keys, v.groups.buckets) == v.totalVisited
  {
    assert visited[0].category in CategoryOrder(visited);
    GroupSizesSum(visited);
  }
}
