/**
  * The repository store (src/store/RepoStore.ts): the list of repository records fetched page
  * by page from the search API, the pagination cursor, a loading flag and the last error.
  *
  * The asynchronous `fetchData` is split at its `await`: `BeginFetch` is what runs before the
  * request goes out, `FetchSucceeded` and `FetchFailed` are the two ways the request completes.
  * The server's response is a parameter of those steps.
  */
module Store {
  import opened Wrappers

  /** A repository record as the search API returns it. */
  datatype Repository = Repository(id: int, name: string, description: Option<string>, htmlUrl: string)

  /** `page` is the next page to request, `total` the server-reported number of results. */
  datatype Pagination = Pagination(page: nat, total: nat)

  /** A JavaScript `Error` object; only its message is observable here. */
  datatype Error = Error(message: string)

  /** What a failed request throws: an `Error`, or any other JavaScript value. */
  datatype Thrown = ThrownError(err: Error) | ThrownOther

  /** How a request completes: the response body's `items` and `total_count`, or a thrown value. */
  datatype Response = Succeeded(items: seq<Repository>, totalCount: nat) | Failed(thrown: Thrown)

  /** The message of the error recorded when something other than an `Error` is thrown. */
  const UnknownErrorMessage: string := "Неизвестная ошибка"

  /** The error the store records for a thrown value: the `Error` itself, else a generic one. */
  function CaughtError(thrown: Thrown): (e: Error)
  {
    match thrown
    case ThrownError(e) => e
    case ThrownOther => Error(UnknownErrorMessage)
  }

  /** `Array.prototype.findIndex` on the id: the first position holding `id`, or None for -1. */
  function FindIndex(s: seq<Repository>, id: int): (r: Option<nat>)
    ensures r.Some? ==> r.value < |s| && s[r.value].id == id
    ensures r.Some? ==> forall j :: 0 <= j < r.value ==> s[j].id != id
    ensures r.None? <==> forall j :: 0 <= j < |s| ==> s[j].id != id
  {
    if s == [] then None
    else if s[0].id == id then Some(0)
    else
      match FindIndex(s[1..], id)
      case None => None
      case Some(i) => Some(i + 1)
  }

  /** Two lists with the same ids position by position give the same answer to FindIndex. */
  lemma {:induction false} FindIndexSeesOnlyIds(s: seq<Repository>, t: seq<Repository>, id: int)
    requires |s| == |t| && forall k :: 0 <= k < |s| ==> s[k].id == t[k].id
    ensures FindIndex(s, id) == FindIndex(t, id)
  {
    if s != [] && s[0].id != id {
      FindIndexSeesOnlyIds(s[1..], t[1..], id);
    }
  }

  /** The records of `s` whose id is not `id`, in their original order (`filter`). */
  function Without(s: seq<Repository>, id: int): (r: seq<Repository>)
    ensures forall x :: x in r <==> x in s && x.id != id
    ensures |r| <= |s|
  {
    if s == [] then []
    else (if s[0].id == id then [] else [s[0]]) + Without(s[1..], id)
  }

  /** Removing an id that no record carries changes nothing. */
  lemma {:induction false} WithoutAbsent(s: seq<Repository>, id: int)
    requires forall x :: x in s ==> x.id != id
    ensures Without(s, id) == s
  {
    if s != [] {
      WithoutAbsent(s[1..], id);
      assert s == [s[0]] + s[1..];
    }
  }

  /** Removing the same id twice is the same as removing it once. */
  lemma {:induction false} WithoutIdempotent(s: seq<Repository>, id: int)
    ensures Without(Without(s, id), id) == Without(s, id)
  {
    WithoutAbsent(Without(s, id), id);
  }

  /** Removal works piecewise, so the records that stay keep their relative order. */
  lemma {:induction false} WithoutAppend(a: seq<Repository>, b: seq<Repository>, id: int)
    ensures Without(a + b, id) == Without(a, id) + Without(b, id)
  {
    if a == [] {
      assert a + b == b;
    } else {
      assert (a + b)[0] == a[0] && (a + b)[1..] == a[1..] + b;
      WithoutAppend(a[1..], b, id);
    }
  }

  /** Every record with another id stays as many times as it occurred; none with `id` stays. */
  lemma {:induction false} WithoutCounts(s: seq<Repository>, id: int, x: Repository)
    ensures multiset(Without(s, id))[x] == if x.id == id then 0 else multiset(s)[x]
  {
    if s != [] {
      var head := if s[0].id == id then [] else [s[0]];
      assert Without(s, id) == head + Without(s[1..], id);
      assert multiset(Without(s, id)) == multiset(head) + multiset(Without(s[1..], id));
      assert s == [s[0]] + s[1..];
      assert multiset(s) == multiset{s[0]} + multiset(s[1..]);
      WithoutCounts(s[1..], id, x);
    }
  }

  /**
    * `editRepository` on a list: the first record with `id` gets the new name and description;
    * nothing else changes, and a list without `id` is returned as it is.
    */
  function EditFirst(s: seq<Repository>, id: int, newName: string, newDescription: string): (r: seq<Repository>)
    ensures |r| == |s|
    ensures forall k :: 0 <= k < |s| ==> r[k].id == s[k].id && r[k].htmlUrl == s[k].htmlUrl
    ensures (forall k :: 0 <= k < |s| ==> s[k].id != id) ==> r == s
    ensures forall i :: 0 <= i < |s| && s[i].id == id && (forall j :: 0 <= j < i ==> s[j].id != id) ==>
      r[i].name == newName && r[i].description == Some(newDescription) &&
      forall k :: 0 <= k < |s| && k != i ==> r[k] == s[k]
  {
    match FindIndex(s, id)
    case None => s
    case Some(i) => s[i := s[i].(name := newName, description := Some(newDescription))]
  }

  /** Saving the same edit twice is the same as saving it once. */
  lemma EditFirstIdempotent(s: seq<Repository>, id: int, newName: string, newDescription: string)
    ensures EditFirst(EditFirst(s, id, newName, newDescription), id, newName, newDescription)
         == EditFirst(s, id, newName, newDescription)
  {
    FindIndexSeesOnlyIds(s, EditFirst(s, id, newName, newDescription), id);
  }

  /** True when every record the server reported is already loaded (`loadMore`'s early return). */
  predicate AllLoaded(repositories: seq<Repository>, pagination: Pagination)
  {
    |repositories| >= pagination.total
  }

  /** A delete never makes the list complete: a `loadMore` refused after a delete was refused before it too. */
  lemma AllLoadedMonotone(repositories: seq<Repository>, id: int, pagination: Pagination)
    ensures AllLoaded(Without(repositories, id), pagination) ==> AllLoaded(repositories, pagination)
  {
  }

  class RepoStore {
    var repositories: seq<Repository>
    var loading: bool
    var error: Option<Error>
    var pagination: Pagination

    /** Pages are numbered from 1, so no request ever asks for page 0. */
    ghost predicate Valid()
      reads this
    {
      pagination.page >= 1
    }

    constructor ()
      ensures Valid()
      ensures repositories == [] && !loading && error == None && pagination == Pagination(1, 0)
    {
      repositories := [];
      loading := false;
      error := None;
      pagination := Pagination(1, 0);
    }

    /** The part of `fetchData` before the request: raise `loading`, request the current page. */
    method BeginFetch() returns (requestedPage: nat)
      requires Valid()
      modifies this
      ensures Valid()
      ensures loading && requestedPage == old(pagination.page) && requestedPage >= 1
      ensures repositories == old(repositories) && error == old(error) && pagination == old(pagination)
    {
      loading := true;
      requestedPage := pagination.page;
    }

    /** The request succeeded: append the page in server order, take the total, advance the page. */
    method FetchSucceeded(items: seq<Repository>, totalCount: nat)
      requires Valid()
      modifies this
      ensures Valid()
      ensures repositories == old(repositories) + items
      ensures pagination == Pagination(old(pagination.page) + 1, totalCount)
      ensures !loading
      ensures error == old(error)
    {
      repositories := repositories + items;
      pagination := pagination.(total := totalCount);
      pagination := pagination.(page := pagination.page + 1);
      loading := false;
    }

    /** The request failed: record the error (a non-`Error` becomes a generic one), clear `loading`. */
    method FetchFailed(thrown: Thrown)
      requires Valid()
      modifies this
      ensures Valid()
      ensures thrown.ThrownError? ==> error == Some(thrown.err)
      ensures thrown.ThrownOther? ==> error == Some(Error(UnknownErrorMessage))
      ensures !loading
      ensures repositories == old(repositories) && pagination == old(pagination)
    {
      error := Some(CaughtError(thrown));
      loading := false;
    }

    /** `fetchData` run to completion with no other event in between. */
    method FetchData(response: Response) returns (requestedPage: nat)
      requires Valid()
      modifies this
      ensures Valid()
      ensures requestedPage == old(pagination.page) && requestedPage >= 1 && !loading
      ensures response.Succeeded? ==>
        repositories == old(repositories) + response.items &&
        pagination == Pagination(old(pagination.page) + 1, response.totalCount) &&
        error == old(error)
      ensures response.Failed? ==>
        repositories == old(repositories) && pagination == old(pagination) &&
        error == Some(CaughtError(response.thrown))
    {
      requestedPage := BeginFetch();
      match response
      case Succeeded(items, totalCount) => FetchSucceeded(items, totalCount);
      case Failed(thrown) => FetchFailed(thrown);
    }

    /**
      * The synchronous part of `loadMore`: nothing when everything is loaded; otherwise advance
      * the page and begin a fetch, which therefore requests the page after the current one.
      */
    method LoadMore() returns (requestedPage: Option<nat>)
      requires Valid()
      modifies this
      ensures Valid()
      ensures old(AllLoaded(repositories, pagination)) ==> requestedPage == None && unchanged(this)
      ensures !old(AllLoaded(repositories, pagination)) ==>
        requestedPage == Some(old(pagination.page) + 1) && requestedPage.value >= 2 && loading &&
        pagination == old(pagination).(page := old(pagination.page) + 1) &&
        repositories == old(repositories) && error == old(error)
    {
      if AllLoaded(repositories, pagination) {
        return None;
      }
      pagination := pagination.(page := pagination.page + 1);
      var page := BeginFetch();
      requestedPage := Some(page);
    }

    /**
      * `loadMore` awaited to completion with no other event in between. Because both `loadMore`
      * and the successful fetch advance the page, a success leaves it two past where it was.
      */
    method LoadMoreToCompletion(response: Response) returns (requestedPage: Option<nat>)
      requires Valid()
      modifies this
      ensures Valid()
      ensures old(AllLoaded(repositories, pagination)) ==> requestedPage == None && unchanged(this)
      ensures !old(AllLoaded(repositories, pagination)) ==>
        requestedPage == Some(old(pagination.page) + 1) && !loading
      ensures !old(AllLoaded(repositories, pagination)) && response.Succeeded? ==>
        repositories == old(repositories) + response.items &&
        pagination == Pagination(old(pagination.page) + 2, response.totalCount) &&
        error == old(error)
      ensures !old(AllLoaded(repositories, pagination)) && response.Failed? ==>
        repositories == old(repositories) &&
        pagination == old(pagination).(page := old(pagination.page) + 1) &&
        error == Some(CaughtError(response.thrown))
    {
      requestedPage := LoadMore();
      if requestedPage.Some? {
        match response
        case Succeeded(items, totalCount) => FetchSucceeded(items, totalCount);
        case Failed(thrown) => FetchFailed(thrown);
      }
    }

    /** `removeRepository`: drop every record carrying `id`. */
    method RemoveRepository(id: int)
      requires Valid()
      modifies this
      ensures Valid()
      ensures repositories == Without(old(repositories), id)
      ensures forall x :: x in repositories ==> x.id != id
      ensures loading == old(loading) && error == old(error) && pagination == old(pagination)
    {
      repositories := Without(repositories, id);
    }

    /** `editRepository`: overwrite name and description of the first record carrying `id`. */
    method EditRepository(id: int, newName: string, newDescription: string)
      requires Valid()
      modifies this
      ensures Valid()
      ensures repositories == EditFirst(old(repositories), id, newName, newDescription)
      ensures FindIndex(old(repositories), id).None? ==> repositories == old(repositories)
      ensures loading == old(loading) && error == old(error) && pagination == old(pagination)
    {
      var index := FindIndex(repositories, id);
      if index.Some? {
        var i := index.value;
        repositories := repositories[i := repositories[i].(name := newName)];
        repositories := repositories[i := repositories[i].(description := Some(newDescription))];
      }
    }
  }

  /** Scenarios of the store's tests, replayed through the contracts above. */
  method StoreScenarios()
  {
    var repo1 := Repository(1, "Repo1", Some("Description1"), "http://example.com/repo1");
    var repo2 := Repository(2, "Repo2", Some("Description2"), "http://example.com/repo2");
    var repo3 := Repository(3, "Repo3", Some("Description3"), "http://example.com/repo3");

    // fetchData on a fresh store: two records out of two.
    var store := new RepoStore();
    var page := store.FetchData(Succeeded([repo1, repo2], 2));
    assert page == 1 && |store.repositories| == 2 && !store.loading;
    assert store.pagination == Pagination(2, 2);

    // fetchData that fails with an Error.
    store := new RepoStore();
    page := store.FetchData(Failed(ThrownError(Error("Network Error"))));
    assert store.error == Some(Error("Network Error")) && !store.loading;

    // loadMore with one of three records loaded.
    store := new RepoStore();
    store.repositories := [repo1];
    store.pagination := store.pagination.(total := 3);
    var requested := store.LoadMoreToCompletion(Succeeded([repo3], 3));
    assert requested == Some(2) && store.pagination.page == 3;
    assert |store.repositories| == 2 && store.repositories[1].name == "Repo3";

    // removeRepository(1) on two records.
    store.repositories := [repo1, repo2];
    store.RemoveRepository(1);
    assert [repo1, repo2][1..] == [repo2];
    assert store.repositories == [repo2];

    // editRepository(1, ...) on one record.
    store.repositories := [repo1];
    store.EditRepository(1, "NewRepoName", "NewDescription");
    assert store.repositories[0].name == "NewRepoName";
    assert store.repositories[0].description == Some("NewDescription");
  }

}
