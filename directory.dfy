/** The employee list component: normalisation of the fetched records, deletion,
    the three-record page window with its Previous/Next guards, and the component
    state those handlers replace. */
module Directory {
  import opened Wrappers
  import opened Text
  import opened Records

  /** One element of the fetched JSON array: an id, a combined name, an e-mail,
      perhaps a department, and the other fields (`extra`). */
  datatype RawUser = RawUser(
    id: int,
    name: string,
    email: string,
    department: Option<string>,
    extra: map<string, string>)

  /** The outcome of the one request: the response body, or any failure. */
  datatype FetchResult = Fetched(data: seq<RawUser>) | FetchFailed

  const UsersPerPage: nat := 3
  const FetchErrorMessage: string := "Failed to fetch users"
  const NoLastName: string := "N/A"
  const DefaultDepartment: string := "General"

  function Min(a: int, b: int): int { if a <= b then a else b }
  function Max(a: int, b: int): int { if a <= b then b else a }

  /** JavaScript truthiness of an optional string: `undefined` and the empty
      string are falsy, every other string is truthy. */
  predicate Truthy(s: Option<string>): (truthy: bool)
    ensures s == None || s == Some("") ==> !truthy
    ensures s.Some? && |s.value| > 0 ==> truthy
  {
    s.Some? && s.value != ""
  }

  /** The name is split on spaces (UserList.jsx line 24); the first word is the
      first name and the other words, joined again with spaces, are the last name,
      which falls back to "N/A" when empty (line 28). So the first name is the text
      before the first space, and the last name is all the text after it, or "N/A"
      when that is empty or there is no space at all. */
  function SplitName(name: string): (names: (string, string))
    ensures ' ' !in names.0
    ensures names.1 != ""
    ensures ' ' !in name ==> names == (name, NoLastName)
    ensures ' ' in name ==>
      var i := IndexOf(name, ' ').value;
      names.0 == name[..i] &&
      names.1 == (if name[i + 1..] == "" then NoLastName else name[i + 1..])
  {
    var words := Split(name, ' ');
    var rest := Join(words[1..], " ");
    if ' ' in name then
      SplitAtFirst(name, ' ');
      var i := IndexOf(name, ' ').value;
      assert words[1..] == Split(name[i + 1..], ' ');
      JoinSplit(name[i + 1..], ' ');
      (words[0], if rest == "" then NoLastName else rest)
    else
      SplitWithoutSeparator(name, ' ');
      (words[0], if rest == "" then NoLastName else rest)
  }

  /** The split is undone by joining the two names with a space, whenever the name
      has text after its first space. */
  lemma SplitNameRoundTrip(name: string)
    requires ' ' in name
    requires IndexOf(name, ' ').value < |name| - 1
    ensures SplitName(name).0 + " " + SplitName(name).1 == name
  {
    var i := IndexOf(name, ' ').value;
    var first, rest := name[..i], name[i + 1..];
    assert name == first + " " + rest;
    SplitNameAt(first, rest);
  }

  /** "John Smith Jr" is John and Smith Jr: the last name keeps its inner space. */
  lemma SplitNameSeveralWords()
    ensures SplitName("John Smith Jr") == ("John", "Smith Jr")
  {
    var name := "John Smith Jr";
    var first, rest := name[..4], name[5..];
    assert first == "John" && rest == "Smith Jr";
    assert name == first + " " + rest;
    assert ' ' !in first;
    SplitNameAt(first, rest);
  }

  /** A single word is the first name, with no last name. */
  lemma SplitNameOneWord()
    ensures SplitName("Madonna") == ("Madonna", NoLastName)
  {
    assert ' ' !in "Madonna";
  }

  /** A name made of a space-free first part, a space and the rest splits there. */
  lemma SplitNameAt(first: string, rest: string)
    requires ' ' !in first && rest != ""
    ensures SplitName(first + " " + rest) == (first, rest)
  {
    var name := first + " " + rest;
    IndexOfFirst(name, ' ', |first|);
    assert name[..|first|] == first && name[|first| + 1..] == rest;
  }

  /** One record of the response, spread into a new object that overrides
      `firstName`, `lastName` and `department`. */
  function NormalizeUser(raw: RawUser): (u: UserRecord)
    ensures u.id == raw.id && u.email == raw.email
    ensures u.name == Some(raw.name) && u.extra == raw.extra
    ensures (u.firstName, u.lastName) == SplitName(raw.name)
    ensures u.department == if Truthy(raw.department) then raw.department.value else DefaultDepartment
  {
    var names := SplitName(raw.name);
    UserRecord(
      id := raw.id,
      firstName := names.0,
      lastName := names.1,
      email := raw.email,
      department := if Truthy(raw.department) then raw.department.value else DefaultDepartment,
      name := Some(raw.name),
      extra := raw.extra)
  }

  /** `response.data.map(...)`: one normalised record per raw record, in order, so
      the ids are exactly the fetched ids. */
  function Normalize(data: seq<RawUser>): (users: seq<UserRecord>)
    ensures |users| == |data|
    ensures forall k :: 0 <= k < |data| ==> users[k] == NormalizeUser(data[k])
    ensures UniqueIds(users) <==> forall i, j :: 0 <= i < j < |data| ==> data[i].id != data[j].id
  {
    seq(|data|, k requires 0 <= k < |data| => NormalizeUser(data[k]))
  }

  /** The delete filter (UserList.jsx line 45): every record whose id differs from
      `id` survives, as often as it occurs, and every record with that id is dropped. */
  function DeleteById(users: seq<UserRecord>, id: int): (survivors: seq<UserRecord>)
    ensures forall u :: multiset(survivors)[u] == if u.id != id then multiset(users)[u] else 0
    ensures forall u :: u in survivors <==> u in users && u.id != id
    ensures (forall u :: u in users ==> u.id != id) ==> survivors == users
    ensures |survivors| <= |users|
  {
    if users == [] then []
    else
      assert users == [users[0]] + users[1..];
      assert multiset(users) == multiset{users[0]} + multiset(users[1..]);
      assert forall u :: u in users <==> u == users[0] || u in users[1..];
      (if users[0].id != id then [users[0]] else []) + DeleteById(users[1..], id)
  }

  /** Deletion keeps the survivors in their original relative order. */
  lemma {:induction false} DeleteKeepsOrder(users: seq<UserRecord>, id: int)
    ensures Subsequence(DeleteById(users, id), users)
  {
    if users != [] {
      DeleteKeepsOrder(users[1..], id);
      var rest := DeleteById(users[1..], id);
      if users[0].id != id {
        assert DeleteById(users, id) == [users[0]] + rest;
        assert ([users[0]] + rest)[1..] == rest;
      } else {
        assert DeleteById(users, id) == rest;
        SubsequenceOfTail(rest, users);
      }
    }
  }

  /** A subsequence of the tail is a subsequence of the whole. */
  lemma SubsequenceOfTail(r: seq<UserRecord>, s: seq<UserRecord>)
    requires s != [] && Subsequence(r, s[1..])
    ensures Subsequence(r, s)
  {
  }

  /** Deletion keeps ids unique, and afterwards no record has the deleted id. */
  lemma DeleteKeepsUnique(users: seq<UserRecord>, id: int)
    requires UniqueIds(users)
    ensures UniqueIds(DeleteById(users, id))
    ensures forall k :: 0 <= k < |DeleteById(users, id)| ==> DeleteById(users, id)[k].id != id
  {
    var r := DeleteById(users, id);
    DeleteKeepsOrder(users, id);
    SubsequenceKeepsUnique(r, users);
    forall k | 0 <= k < |r|
      ensures r[k].id != id
    {
      assert r[k] in r;
    }
  }

  /** `slice` with non-negative arguments: both bounds are clamped to the length,
      and the result is empty when `end` is not past `begin`; otherwise it is the
      run of records from `begin` up to, not including, `end`. */
  function Slice(s: seq<UserRecord>, begin: nat, end: nat): (r: seq<UserRecord>)
    ensures |r| == Max(0, Min(end, |s|) - Min(begin, |s|))
    ensures forall k :: 0 <= k < |r| ==> begin + k < |s| && r[k] == s[begin + k]
  {
    var lo := Min(begin, |s|);
    var hi := Max(lo, Min(end, |s|));
    s[lo..hi]
  }

  /** The records shown on `page` (UserList.jsx lines 61-62): three records from
      index `(page - 1) * 3` on. The window is the run of at most three records
      starting at `start`, and it never reaches past the end of the collection. */
  function Window(users: seq<UserRecord>, page: int): (window: seq<UserRecord>)
    requires page >= 1
    ensures var start := (page - 1) * UsersPerPage;
      |window| == Min(UsersPerPage, Max(0, |users| - start)) &&
      forall k :: 0 <= k < |window| ==> start + k < |users| && window[k] == users[start + k]
  {
    var start := (page - 1) * UsersPerPage;
    Slice(users, start, start + UsersPerPage)
  }

  /** The Previous button is disabled on page 1 only; on a 1-based page it is
      enabled exactly when there is an earlier page to go back to. */
  predicate CanGoPrevious(page: int): (enabled: bool)
    ensures page >= 1 ==> (enabled <==> page - 1 >= 1)
  {
    page != 1
  }

  /** The Next button is disabled once the pages so far cover the whole collection;
      on a 1-based page it is enabled exactly when the following page has something
      to show. */
  predicate CanGoNext(page: int, users: seq<UserRecord>): (enabled: bool)
    ensures page >= 1 ==> (enabled <==> Window(users, page + 1) != [])
  {
    assert page >= 1 ==> (page + 1 - 1) * UsersPerPage == page * UsersPerPage;
    !(page * UsersPerPage >= |users|)
  }

  /** The state of the list component. */
  class UserList {
    var users: seq<UserRecord>
    var loading: bool
    var error: Option<string>
    var page: int
    var isModalOpen: bool
    var mode: Mode
    var selectedUser: Option<UserRecord>

    /** The page is 1-based and an edit always has a selected record, an add never. */
    ghost predicate Valid()
      reads this
    {
      page >= 1 && (mode == Add <==> selectedUser == None)
    }

    /** The initial state: nothing loaded yet, loading, page 1, no modal. */
    constructor ()
      ensures Valid()
      ensures users == [] && loading && error == None && page == 1
      ensures !isModalOpen && mode == Add && selectedUser == None
    {
      users := [];
      loading := true;
      error := None;
      page := 1;
      isModalOpen := false;
      mode := Add;
      selectedUser := None;
    }

    /** The records on the current page: at most three, consecutive in the
        collection from index `(page - 1) * 3` on. */
    function PaginatedUsers(): (shown: seq<UserRecord>)
      reads this
      requires Valid()
      ensures |shown| == Min(UsersPerPage, Max(0, |users| - (page - 1) * UsersPerPage))
      ensures forall k :: 0 <= k < |shown| ==>
        (page - 1) * UsersPerPage + k < |users| && shown[k] == users[(page - 1) * UsersPerPage + k]
    {
      Window(users, page)
    }

    /** `fetchUsers`, with the request's outcome as an argument: on success the
        normalised records replace the collection; on failure the collection is left
        as it was and the error message is set. Either way loading ends. */
    method FetchUsers(response: FetchResult)
      requires Valid()
      modifies this`users, this`loading, this`error
      ensures Valid() && !loading
      ensures response.Fetched? ==> users == Normalize(response.data) && error == old(error)
      ensures response.FetchFailed? ==> users == old(users) && error == Some(FetchErrorMessage)
    {
      match response
      case Fetched(data) =>
        users := Normalize(data);
        loading := false;
      case FetchFailed =>
        error := Some(FetchErrorMessage);
        loading := false;
    }

    /** `handleDelete`: drops every record with the id; the page is not touched. */
    method HandleDelete(id: int)
      requires Valid()
      modifies this`users
      ensures Valid()
      ensures users == DeleteById(old(users), id)
      ensures old(UniqueIds(users)) ==> UniqueIds(users)
    {
      DeleteKeepsOrder(users, id);
      if UniqueIds(users) {
        DeleteKeepsUnique(users, id);
      }
      users := DeleteById(users, id);
    }

    /** `handleEdit`: selects the record, switches to edit mode and opens the form. */
    method HandleEdit(user: UserRecord)
      requires Valid()
      modifies this`selectedUser, this`mode, this`isModalOpen
      ensures Valid()
      ensures selectedUser == Some(user) && mode == Edit && isModalOpen
    {
      selectedUser := Some(user);
      mode := Edit;
      isModalOpen := true;
    }

    /** `handleAdd`: switches to add mode, clears the selection and opens the form. */
    method HandleAdd()
      requires Valid()
      modifies this`selectedUser, this`mode, this`isModalOpen
      ensures Valid()
      ensures selectedUser == None && mode == Add && isModalOpen
    {
      mode := Add;
      selectedUser := None;
      isModalOpen := true;
    }

    /** `setIsModalOpen(false)`, the callback the form calls to close itself. */
    method CloseModal()
      modifies this`isModalOpen
      ensures !isModalOpen
    {
      isModalOpen := false;
    }

    /** The Previous button; it can only be pressed while enabled. */
    method Previous()
      requires Valid() && CanGoPrevious(page)
      modifies this`page
      ensures Valid()
      ensures page == old(page) - 1
    {
      page := page - 1;
    }

    /** The Next button; it can only be pressed while enabled, and then the new page
        shows at least one record. */
    method Next()
      requires Valid() && CanGoNext(page, users)
      modifies this`page
      ensures Valid()
      ensures page == old(page) + 1
      ensures PaginatedUsers() != []
    {
      page := page + 1;
    }
  }
}
