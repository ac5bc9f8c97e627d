/**
  * The decision logic of the repository list view (src/components/RepoList.tsx): the sort
  * comparator and the sorted snapshot, the column-header toggle and reset, the longest-name
  * fold, the infinite-scroll trigger and the backfill-after-delete rule. The pure parts are
  * functions; the handlers, which set view state or call the store, are methods of
  * `RepoListView`.
  */
module RepoList {
  import opened Wrappers
  import opened StringOrder
  import opened Store

  /** `keyof Repository`: the fields a column header can sort by. */
  datatype Field = Id | Name | Description | HtmlUrl

  datatype Order = Asc | Desc

  /** The view's sort state; both components are null until a header is clicked and after a reset. */
  datatype SortState = SortState(field: Option<Field>, order: Option<Order>)

  /** The value `a[sortField] ?? ''` the comparator reads: a number or a string. */
  datatype Value = Num(n: int) | Str(s: string)

  /** Distance from the bottom, in pixels, within which a scroll asks for more. */
  const ScrollThreshold: real := 5.0

  /** A delete that leaves fewer records than this asks for more. */
  const BackfillMinimum: nat := 10

  const Unsorted: SortState := SortState(None, None)

  /** The other order. */
  function Flip(o: Order): (r: Order)
  {
    if o == Asc then Desc else Asc
  }

  /** `handleSort`: a click on the header of `f` sorts by `f`, descending only if it was ascending by `f`. */
  function NextSort(f: Field, st: SortState): (r: SortState)
    ensures r.field == Some(f) && r.order.Some?
  {
    var newOrder := if st.field == Some(f) && st.order == Some(Asc) then Desc else Asc;
    SortState(Some(f), Some(newOrder))
  }

  /** The sort state after `k` clicks on the header of `f`. */
  ghost function Clicks(f: Field, st: SortState, k: nat): SortState
  {
    if k == 0 then st else NextSort(f, Clicks(f, st, k - 1))
  }

  /** After the first click, every further click on the same header flips the order. */
  lemma {:induction false} RepeatedClicksAlternate(f: Field, st: SortState, k: nat)
    ensures var first := NextSort(f, st).order.value;
      Clicks(f, st, k + 1) == SortState(Some(f), Some(if k % 2 == 0 then first else Flip(first)))
  {
    if k > 0 {
      RepeatedClicksAlternate(f, st, k - 1);
    }
  }

  /**
    * A click on the header of the current sort field flips its order; a click on any other
    * header, or on one with no order yet, sorts ascending.
    */
  lemma NextSortToggles(f: Field, st: SortState)
    ensures st.field == Some(f) && st.order.Some? ==>
      NextSort(f, st) == SortState(Some(f), Some(Flip(st.order.value)))
    ensures st.field != Some(f) || st.order.None? ==>
      NextSort(f, st) == SortState(Some(f), Some(Asc))
  {
  }

  /** The value the comparator reads from a record; a missing description reads as `''`. */
  function FieldValue(r: Repository, f: Field): (v: Value)
    ensures v.Num? <==> f == Id
    ensures f == Description && r.description.None? ==> v == Str("")
  {
    match f
    case Id => Num(r.id)
    case Name => Str(r.name)
    case Description => Str(match r.description case Some(d) => d case None => "")
    case HtmlUrl => Str(r.htmlUrl)
  }

  /**
    * Comparison of two field values: strings by StrCompare, numbers by difference, a mixed pair
    * as equal. Two values of one kind tie exactly when they are equal, in either order.
    */
  function CompareValues(x: Value, y: Value, o: Order): (c: int)
    ensures c == 0 <==> x == y || x.Num? != y.Num?
  {
    match (x, y)
    case (Str(a), Str(b)) => if o == Asc then StrCompare(a, b) else StrCompare(b, a)
    case (Num(a), Num(b)) => if o == Asc then a - b else b - a
    case _ => 0
  }

  /**
    * The comparator passed to `sort`: negative when `a` goes first, 0 when the two tie. With no
    * field or no order every pair ties; otherwise two records tie exactly when they hold the
    * same value in the sort field.
    */
  function Compare(a: Repository, b: Repository, st: SortState): (c: int)
    ensures st.field.None? || st.order.None? ==> c == 0
    ensures st.field.Some? && st.order.Some? ==>
      (c == 0 <==> FieldValue(a, st.field.value) == FieldValue(b, st.field.value))
  {
    if st.field.None? || st.order.None? then 0
    else CompareValues(FieldValue(a, st.field.value), FieldValue(b, st.field.value), st.order.value)
  }

  /** Swapping the records negates the comparator. */
  lemma CompareAntisymmetric(a: Repository, b: Repository, st: SortState)
    ensures Compare(b, a, st) == -Compare(a, b, st)
  {
    if st.field.Some? && st.order.Some? {
      var f := st.field.value;
      if FieldValue(a, f).Str? {
        StrCompareAntisymmetric(FieldValue(a, f).s, FieldValue(b, f).s);
      }
    }
  }

  /** The comparator's "goes no later than" is transitive. */
  lemma CompareTransitive(a: Repository, b: Repository, c: Repository, st: SortState)
    requires Compare(a, b, st) <= 0 && Compare(b, c, st) <= 0
    ensures Compare(a, c, st) <= 0
  {
    if st.field.Some? && st.order.Some? {
      var f := st.field.value;
      if FieldValue(a, f).Str? {
        var x, y, z := FieldValue(a, f).s, FieldValue(b, f).s, FieldValue(c, f).s;
        if st.order.value == Asc {
          StrCompareTransitive(x, y, z);
        } else {
          StrCompareTransitive(z, y, x);
        }
      }
    }
  }

  /** Two records that tie with a third tie with each other. */
  lemma CompareTiesAreEquivalent(a: Repository, b: Repository, k: Repository, st: SortState)
    requires Compare(a, k, st) == 0 && Compare(b, k, st) == 0
    ensures Compare(a, b, st) == 0
  {
    CompareAntisymmetric(b, k, st);
    CompareAntisymmetric(a, k, st);
    CompareTransitive(a, k, b, st);
    CompareTransitive(b, k, a, st);
    CompareAntisymmetric(a, b, st);
  }

  /** `s` is ordered by the comparator: no later record sorts strictly before an earlier one. */
  ghost predicate SortedBy(s: seq<Repository>, st: SortState)
  {
    forall i, j :: 0 <= i < j < |s| ==> Compare(s[i], s[j], st) <= 0
  }

  /** Insert `x` before the first record it does not sort after. */
  function Insert(x: Repository, s: seq<Repository>, st: SortState): (r: seq<Repository>)
    ensures |r| == |s| + 1
    ensures multiset(r) == multiset(s) + multiset{x}
  {
    if s == [] || Compare(x, s[0], st) <= 0 then [x] + s
    else
      assert s == [s[0]] + s[1..];
      [s[0]] + Insert(x, s[1..], st)
  }

  /**
    * `[...repositories].sort(comparator)`: a stable sort, built by insertion. Since ECMAScript 2019
    * `Array.prototype.sort` is stable, and for a consistent comparator the stable sorted order is
    * unique, so this is the order the view shows.
    */
  function SortedView(s: seq<Repository>, st: SortState): (r: seq<Repository>)
    ensures |r| == |s|
    ensures multiset(r) == multiset(s)
  {
    if s == [] then []
    else
      assert s == [s[0]] + s[1..];
      Insert(s[0], SortedView(s[1..], st), st)
  }

  /** A record that sorts no later than every record of an ordered list can go in front of it. */
  lemma PrependSorted(y: Repository, s: seq<Repository>, st: SortState)
    requires SortedBy(s, st)
    requires forall j :: 0 <= j < |s| ==> Compare(y, s[j], st) <= 0
    ensures SortedBy([y] + s, st)
  {
    var r := [y] + s;
    forall i, j | 0 <= i < j < |r|
      ensures Compare(r[i], r[j], st) <= 0
    {
      assert r[j] == s[j - 1];
      if i > 0 {
        assert r[i] == s[i - 1];
      }
    }
  }

  lemma {:induction false} InsertSorted(x: Repository, s: seq<Repository>, st: SortState)
    requires SortedBy(s, st)
    ensures SortedBy(Insert(x, s, st), st)
  {
    if s == [] || Compare(x, s[0], st) <= 0 {
      forall j | 0 <= j < |s|
        ensures Compare(x, s[j], st) <= 0
      {
        if j > 0 {
          CompareTransitive(x, s[0], s[j], st);
        }
      }
      PrependSorted(x, s, st);
    } else {
      var rest := Insert(x, s[1..], st);
      InsertSorted(x, s[1..], st);
      forall j | 0 <= j < |rest|
        ensures Compare(s[0], rest[j], st) <= 0
      {
        var e := rest[j];
        assert e in multiset(rest);
        if e == x {
          CompareAntisymmetric(x, s[0], st);
        } else {
          assert e in multiset(s[1..]);
          var k :| 0 <= k < |s[1..]| && s[1..][k] == e;
          assert s[k + 1] == e;
        }
      }
      PrependSorted(s[0], rest, st);
    }
  }

  /** The sorted view is ordered by the comparator. */
  lemma {:induction false} SortedViewSorted(s: seq<Repository>, st: SortState)
    ensures SortedBy(SortedView(s, st), st)
  {
    if s != [] {
      SortedViewSorted(s[1..], st);
      InsertSorted(s[0], SortedView(s[1..], st), st);
    }
  }

  /** `[y]` when `y` ties with `k`, else nothing. */
  ghost function Tie(y: Repository, k: Repository, st: SortState): seq<Repository>
  {
    if Compare(y, k, st) == 0 then [y] else []
  }

  /** The records of `s` that tie with `k`, in the order `s` has them. */
  ghost function TiesWith(s: seq<Repository>, k: Repository, st: SortState): seq<Repository>
  {
    if s == [] then [] else Tie(s[0], k, st) + TiesWith(s[1..], k, st)
  }

  lemma TiesWithCons(y: Repository, s: seq<Repository>, k: Repository, st: SortState)
    ensures TiesWith([y] + s, k, st) == Tie(y, k, st) + TiesWith(s, k, st)
  {
    assert ([y] + s)[0] == y && ([y] + s)[1..] == s;
  }

  /** Two records that do not tie with each other cannot both tie with `k`, so their ties commute. */
  lemma TiesCommute(x: Repository, y: Repository, k: Repository, st: SortState, tail: seq<Repository>)
    requires Compare(x, y, st) != 0
    ensures Tie(y, k, st) + (Tie(x, k, st) + tail) == Tie(x, k, st) + (Tie(y, k, st) + tail)
  {
    if Tie(x, k, st) != [] && Tie(y, k, st) != [] {
      CompareTiesAreEquivalent(x, y, k, st);
      assert false;
    }
  }

  lemma {:induction false} InsertKeepsTies(x: Repository, s: seq<Repository>, k: Repository, st: SortState)
    ensures TiesWith(Insert(x, s, st), k, st) == Tie(x, k, st) + TiesWith(s, k, st)
  {
    if s == [] || Compare(x, s[0], st) <= 0 {
      TiesWithCons(x, s, k, st);
    } else {
      var rest := Insert(x, s[1..], st);
      assert Insert(x, s, st) == [s[0]] + rest;
      TiesWithCons(s[0], rest, k, st);
      InsertKeepsTies(x, s[1..], k, st);
      TiesCommute(x, s[0], k, st, TiesWith(s[1..], k, st));
    }
  }

  /** Stability: records that tie keep their relative order in the sorted view. */
  lemma {:induction false} SortedViewStable(s: seq<Repository>, k: Repository, st: SortState)
    ensures TiesWith(SortedView(s, st), k, st) == TiesWith(s, k, st)
  {
    if s != [] {
      SortedViewStable(s[1..], k, st);
      InsertKeepsTies(s[0], SortedView(s[1..], st), k, st);
    }
  }

  /** With no sort field or no order (after `resetSort`), the view keeps the store's order. */
  lemma {:induction false} SortedViewUnsorted(s: seq<Repository>, st: SortState)
    requires st.field.None? || st.order.None?
    ensures SortedView(s, st) == s
  {
    if s != [] {
      SortedViewUnsorted(s[1..], st);
      assert s == [s[0]] + s[1..];
    }
  }

  /** `x` sorts no later than `y` in ascending order. */
  predicate ValueLe(x: Value, y: Value)
  {
    match (x, y)
    case (Num(a), Num(b)) => a <= b
    case (Str(a), Str(b)) => StrCompare(a, b) <= 0
    case _ => true
  }

  /**
    * Sorting by a field: ascending gives non-decreasing field values, descending non-increasing
    * ones. A missing description counts as the empty string (FieldValue).
    */
  lemma SortedViewOrdersField(s: seq<Repository>, f: Field, o: Order)
    ensures var r := SortedView(s, SortState(Some(f), Some(o)));
      forall i, j :: 0 <= i < j < |r| ==>
        if o == Asc then ValueLe(FieldValue(r[i], f), FieldValue(r[j], f))
        else ValueLe(FieldValue(r[j], f), FieldValue(r[i], f))
  {
    var st := SortState(Some(f), Some(o));
    var r := SortedView(s, st);
    SortedViewSorted(s, st);
    forall i, j | 0 <= i < j < |r|
      ensures if o == Asc then ValueLe(FieldValue(r[i], f), FieldValue(r[j], f))
              else ValueLe(FieldValue(r[j], f), FieldValue(r[i], f))
    {
      assert Compare(r[i], r[j], st) <= 0;
    }
  }

  /** Sorting by name ascending puts the names in lexicographic order. */
  lemma SortByNameAscending(s: seq<Repository>)
    ensures var r := SortedView(s, SortState(Some(Name), Some(Asc)));
      forall i, j :: 0 <= i < j < |r| ==> StrCompare(r[i].name, r[j].name) <= 0
  {
    SortedViewOrdersField(s, Name, Asc);
  }

  /** Sorting by id descending puts the ids in non-increasing order. */
  lemma SortByIdDescending(s: seq<Repository>)
    ensures var r := SortedView(s, SortState(Some(Id), Some(Desc)));
      forall i, j :: 0 <= i < j < |r| ==> r[i].id >= r[j].id
  {
    SortedViewOrdersField(s, Id, Desc);
  }

  /**
    * JavaScript's `string.length`: the number of UTF-16 code units, so a character outside the
    * Basic Multilingual Plane (code point 0x10000 and above, such as an emoji) counts twice.
    */
  function Utf16Length(s: string): (n: nat)
    ensures |s| <= n <= 2 * |s|
  {
    if s == [] then 0
    else (if (s[0] as int) < 0x10000 then 1 else 2) + Utf16Length(s[1..])
  }

  /** The code-unit length is the character count exactly when no character lies above the BMP. */
  lemma {:induction false} Utf16LengthIsCharCount(s: string)
    ensures Utf16Length(s) == |s| <==> forall i :: 0 <= i < |s| ==> (s[i] as int) < 0x10000
  {
    if s != [] {
      Utf16LengthIsCharCount(s[1..]);
      assert forall i :: 1 <= i < |s| ==> s[i] == s[1..][i - 1];
    }
  }

  /** The `reduce` of `longestName` from accumulator `longest`: replace only on a strictly longer name. */
  function LongestFrom(longest: string, s: seq<Repository>): (r: string)
    ensures Utf16Length(longest) <= Utf16Length(r)
    ensures forall i :: 0 <= i < |s| ==> Utf16Length(s[i].name) <= Utf16Length(r)
    ensures r == longest ||
      exists i :: 0 <= i < |s| && r == s[i].name && Utf16Length(longest) < Utf16Length(r) &&
        forall j :: 0 <= j < i ==> Utf16Length(s[j].name) < Utf16Length(r)
    decreases |s|
  {
    if s == [] then longest
    else
      var next := if Utf16Length(s[0].name) > Utf16Length(longest) then s[0].name else longest;
      var r := LongestFrom(next, s[1..]);
      LongestFromStep(longest, s, next, r, Utf16Length);
      r
  }

  /**
    * One step of the `longestName` fold, for any length measure `len`: what the fold from `next`
    * over the tail promises carries over to the fold from `longest` over the whole list.
    */
  lemma LongestFromStep(longest: string, s: seq<Repository>, next: string, r: string, len: string -> nat)
    requires s != []
    requires next == if len(s[0].name) > len(longest) then s[0].name else longest
    requires len(next) <= len(r)
    requires forall i :: 0 <= i < |s[1..]| ==> len(s[1..][i].name) <= len(r)
    requires r == next ||
      exists i :: 0 <= i < |s[1..]| && r == s[1..][i].name && len(next) < len(r) &&
        forall j :: 0 <= j < i ==> len(s[1..][j].name) < len(r)
    ensures len(longest) <= len(r)
    ensures forall i :: 0 <= i < |s| ==> len(s[i].name) <= len(r)
    ensures r == longest ||
      exists i :: 0 <= i < |s| && r == s[i].name && len(longest) < len(r) &&
        forall j :: 0 <= j < i ==> len(s[j].name) < len(r)
  {
    forall i | 1 <= i < |s| ensures len(s[i].name) <= len(r) {
      assert s[i] == s[1..][i - 1];
    }
    if r != next {
      var i :| 0 <= i < |s[1..]| && r == s[1..][i].name && len(next) < len(r) &&
        forall j :: 0 <= j < i ==> len(s[1..][j].name) < len(r);
      forall j | 0 <= j < i + 1 ensures len(s[j].name) < len(r) {
        if j > 0 {
          assert s[j] == s[1..][j - 1];
        }
      }
      assert r == s[i + 1].name && len(longest) < len(r);
    } else if next != longest {
      assert r == s[0].name && len(longest) < len(r);
    }
  }

  /**
    * `longestName`: `''` for no records, else the first name of maximal length, lengths counted
    * in UTF-16 code units as `string.length` counts them.
    */
  function LongestName(s: seq<Repository>): (r: string)
    ensures s == [] ==> r == ""
    ensures forall i :: 0 <= i < |s| ==> Utf16Length(s[i].name) <= Utf16Length(r)
    ensures s != [] ==> exists i :: 0 <= i < |s| && r == s[i].name &&
                                    forall j :: 0 <= j < i ==> Utf16Length(s[j].name) < Utf16Length(r)
  {
    var r := LongestFrom("", s);
    assert s != [] && r == "" ==> r == s[0].name by {
      if s != [] && r == "" {
        assert Utf16Length(s[0].name) <= 0;
      }
    }
    r
  }

  /**
    * Lengths are code units, not characters: two emoji (four code units) beat three ASCII
    * letters, although they are only two characters.
    */
  lemma LongestNameCountsCodeUnits()
    ensures var abc := Repository(1, "abc", None, "#");
      var emoji := Repository(2, "\U{1F600}\U{1F600}", None, "#");
      LongestName([abc, emoji]) == emoji.name && |emoji.name| < |abc.name|
  {
  }

  /**
    * The scroll condition of `handleScroll`: the part of the content below the visible area is
    * at most the threshold, and the store is not loading.
    */
  predicate ShouldLoadOnScroll(scrollTop: real, clientHeight: real, scrollHeight: real, loading: bool)
  {
    scrollTop + clientHeight >= scrollHeight - ScrollThreshold && !loading
  }

  /** Scrolling further down keeps the trigger. */
  lemma ScrollTriggerMonotone(scrollTop: real, further: real, clientHeight: real, scrollHeight: real, loading: bool)
    requires scrollTop <= further
    ensures ShouldLoadOnScroll(scrollTop, clientHeight, scrollHeight, loading) ==>
      ShouldLoadOnScroll(further, clientHeight, scrollHeight, loading)
  {
  }

  /** The backfill condition of `handleDelete`, on the number of records left after the delete. */
  predicate ShouldBackfill(remaining: nat, loading: bool)
  {
    remaining < BackfillMinimum && !loading
  }

  /** Two records: they are swapped exactly when the first sorts strictly after the second. */
  lemma SortedViewPair(x: Repository, y: Repository, st: SortState)
    ensures SortedView([x, y], st) == if Compare(x, y, st) > 0 then [y, x] else [x, y]
  {
    assert [x, y][1..] == [y] && [y][1..] == [];
    assert SortedView([y], st) == [y];
  }

  /** Scenario of the view's sorting test: two records, one click on the name header. */
  method SortByNameScenario()
  {
    var b := Repository(1, "RepoB", Some("Description1"), "#");
    var a := Repository(2, "RepoA", Some("Description2"), "#");
    var st := NextSort(Name, Unsorted);
    assert st == SortState(Some(Name), Some(Asc));
    assert StrCompare("RepoB", "RepoA") == 1 by {
      assert "RepoB" == "Repo" + "B" && "RepoA" == "Repo" + "A";
      StrCompareCommonPrefix("Repo", "B", "A");
    }
    assert Compare(b, a, st) == 1;
    SortedViewPair(b, a, st);
    assert SortedView([b, a], st) == [a, b];
  }

  class RepoListView {
    const store: RepoStore
    var sortField: Option<Field>
    var sortOrder: Option<Order>
    var currentRepo: Option<Repository>
    var modalVisible: bool

    constructor (store: RepoStore)
      ensures this.store == store
      ensures sortField == None && sortOrder == None && currentRepo == None && !modalVisible
    {
      this.store := store;
      sortField := None;
      sortOrder := None;
      currentRepo := None;
      modalVisible := false;
    }

    /** The view's sort state as one value. */
    function Sort(): (st: SortState)
      reads this
    {
      SortState(sortField, sortOrder)
    }

    /** `sortedRepositories`: the store's records in the view's sort order, none added or lost. */
    function SortedRepositories(): (r: seq<Repository>)
      reads this, store
      ensures multiset(r) == multiset(store.repositories)
    {
      SortedView(store.repositories, Sort())
    }

    /** `totalRepositories`: the number shown as loaded. */
    function TotalRepositories(): (n: nat)
      reads this, store
      ensures n == |store.repositories|
    {
      |SortedRepositories()|
    }

    /**
      * The longest name shown, over the records in displayed order: `''` for an empty store,
      * else the name of a stored record, no shorter than any stored name in UTF-16 code units.
      */
    function LongestNameShown(): (name: string)
      reads this, store
      ensures store.repositories == [] ==> name == ""
      ensures forall x :: x in store.repositories ==> Utf16Length(x.name) <= Utf16Length(name)
      ensures store.repositories != [] ==> exists x :: x in store.repositories && x.name == name
    {
      var s := SortedRepositories();
      assert forall x :: x in s <==> x in store.repositories by {
        forall x ensures x in s <==> x in store.repositories {
          assert x in s <==> x in multiset(s);
        }
      }
      LongestName(s)
    }

    /** The effect on mount: the first fetch begins. */
    method Mount() returns (requestedPage: nat)
      requires store.Valid()
      modifies store
      ensures store.Valid()
      ensures store.loading && requestedPage == old(store.pagination.page)
      ensures store.repositories == old(store.repositories) && store.error == old(store.error)
      ensures store.pagination == old(store.pagination)
    {
      requestedPage := store.BeginFetch();
    }

    /** `handleSort`: a click on the header of `f`. */
    method HandleSort(f: Field)
      modifies this
      ensures Sort() == NextSort(f, old(Sort()))
      ensures currentRepo == old(currentRepo) && modalVisible == old(modalVisible)
    {
      var newOrder := if sortField == Some(f) && sortOrder == Some(Asc) then Desc else Asc;
      sortField := Some(f);
      sortOrder := Some(newOrder);
    }

    /** `resetSort`: forget the sort, so the view shows the store's order again. */
    method ResetSort()
      modifies this
      ensures Sort() == Unsorted
      ensures SortedRepositories() == store.repositories
      ensures currentRepo == old(currentRepo) && modalVisible == old(modalVisible)
    {
      sortField := None;
      sortOrder := None;
      SortedViewUnsorted(store.repositories, Sort());
    }

    /**
      * `handleScroll`: near the bottom of a store that is not loading, call `loadMore`, which
      * requests the next page only when the server reported more records than are loaded.
      */
    method HandleScroll(scrollTop: real, clientHeight: real, scrollHeight: real) returns (requestedPage: Option<nat>)
      requires store.Valid()
      modifies store
      ensures store.Valid()
      ensures requestedPage.Some? <==>
        ShouldLoadOnScroll(scrollTop, clientHeight, scrollHeight, old(store.loading)) &&
        !old(AllLoaded(store.repositories, store.pagination))
      ensures requestedPage.None? ==> unchanged(store)
      ensures requestedPage.Some? ==>
        requestedPage.value == old(store.pagination.page) + 1 && store.loading &&
        store.pagination == old(store.pagination).(page := old(store.pagination.page) + 1) &&
        store.repositories == old(store.repositories) && store.error == old(store.error)
    {
      if ShouldLoadOnScroll(scrollTop, clientHeight, scrollHeight, store.loading) {
        requestedPage := store.LoadMore();
      } else {
        requestedPage := None;
      }
    }

    /**
      * `handleDelete`: the record always goes; when fewer than ten remain and the store is not
      * loading, `loadMore` is called to backfill.
      */
    method HandleDelete(id: int) returns (requestedPage: Option<nat>)
      requires store.Valid()
      modifies store
      ensures store.Valid()
      ensures store.repositories == Without(old(store.repositories), id)
      ensures forall x :: x in store.repositories ==> x.id != id
      ensures requestedPage.Some? <==>
        ShouldBackfill(|store.repositories|, old(store.loading)) &&
        |store.repositories| < old(store.pagination.total)
      ensures requestedPage.None? ==>
        store.loading == old(store.loading) && store.pagination == old(store.pagination)
      ensures requestedPage.Some? ==>
        requestedPage.value == old(store.pagination.page) + 1 && store.loading &&
        store.pagination == old(store.pagination).(page := old(store.pagination.page) + 1)
      ensures store.error == old(store.error)
    {
      store.RemoveRepository(id);
      if ShouldBackfill(|store.repositories|, store.loading) {
        requestedPage := store.LoadMore();
      } else {
        requestedPage := None;
      }
    }

    /** `handleEditClick`: remember the record and open the dialog. */
    method HandleEditClick(repo: Repository)
      modifies this
      ensures currentRepo == Some(repo) && modalVisible
      ensures Sort() == old(Sort())
    {
      currentRepo := Some(repo);
      modalVisible := true;
    }

    /** `handleEditSave`: edit the store's record with the selected record's id, if one is selected. */
    method HandleEditSave(newName: string, newDescription: string)
      requires store.Valid()
      modifies store
      ensures store.Valid()
      ensures currentRepo.None? ==> unchanged(store)
      ensures currentRepo.Some? ==>
        store.repositories == EditFirst(old(store.repositories), currentRepo.value.id, newName, newDescription)
      ensures store.loading == old(store.loading) && store.error == old(store.error)
      ensures store.pagination == old(store.pagination)
    {
      if currentRepo.Some? {
        store.EditRepository(currentRepo.value.id, newName, newDescription);
      }
    }
  }

}
