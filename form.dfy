/** The add/edit form: id allocation for a new record, one-field edits of the
    form data, the required-field check, and the commit into the list's collection. */
module Form {
  import opened Wrappers
  import opened Records
  import Directory

  /** The four named inputs of the form. */
  datatype Field = FirstName | LastName | Email | Department

  /** What a submit does: it is refused with the one message, or it commits. */
  datatype Outcome = Rejected(message: string) | Committed

  const FillAllFields: string := "Please fill out all fields."

  /** The data of a fresh add form: three empty inputs and department "General",
      no raw name and no other keys, so submitting it unchanged is refused. The
      source's object has no id; the placeholder id 0 is never observed, since
      adding overwrites it. */
  function BlankForm(): (blank: UserRecord)
    ensures forall field :: field != Department ==> Get(blank, field) == ""
    ensures blank.department == Directory.DefaultDepartment
    ensures blank.name == None && blank.extra == map[]
    ensures MissingField(blank)
  {
    UserRecord(0, "", "", "", Directory.DefaultDepartment, None, map[])
  }

  /** The value of one named input. */
  function Get(r: UserRecord, field: Field): string {
    match field
    case FirstName => r.firstName
    case LastName => r.lastName
    case Email => r.email
    case Department => r.department
  }

  /** The change handler's update (UserForm.jsx line 25): a copy of the form data
      in which the one named input has the new value. */
  function SetField(r: UserRecord, field: Field, value: string): (r': UserRecord)
    ensures Get(r', field) == value
    ensures forall other :: other != field ==> Get(r', other) == Get(r, other)
    ensures r'.id == r.id && r'.name == r.name && r'.extra == r.extra
  {
    match field
    case FirstName => r.(firstName := value)
    case LastName => r.(lastName := value)
    case Email => r.(email := value)
    case Department => r.(department := value)
  }

  /** The submit guard (UserForm.jsx line 30): some input is falsy, and the only
      falsy string is the empty one. It holds exactly when some named input is empty. */
  predicate MissingField(f: UserRecord): (missing: bool)
    ensures missing <==> exists field :: Get(f, field) == ""
  {
    var missing := f.firstName == "" || f.lastName == "" || f.email == "" || f.department == "";
    assert missing ==> exists field :: Get(f, field) == "" by {
      if missing {
        if f.firstName == "" { assert Get(f, FirstName) == ""; }
        else if f.lastName == "" { assert Get(f, LastName) == ""; }
        else if f.email == "" { assert Get(f, Email) == ""; }
        else { assert Get(f, Department) == ""; }
      }
    }
    missing
  }

  /** The largest id of the collection with 0 among the candidates (UserForm.jsx
      line 14): the largest id, or 0 when that is larger, in particular on an empty
      collection. */
  function MaxId(users: seq<UserRecord>): (m: int)
    ensures m >= 0
    ensures forall k :: 0 <= k < |users| ==> users[k].id <= m
    ensures m == 0 || exists k :: 0 <= k < |users| && users[k].id == m
  {
    if users == [] then 0
    else
      var rest := MaxId(users[1..]);
      if users[0].id > rest then users[0].id else rest
  }

  /** The id a new record gets: one past the largest id, so larger than every id in
      the collection, at least 1, and the least such number that is not below 1. */
  function NextId(users: seq<UserRecord>): (next: int)
    ensures next >= 1
    ensures forall k :: 0 <= k < |users| ==> users[k].id < next
    ensures next == 1 || exists k :: 0 <= k < |users| && users[k].id == next - 1
    ensures users == [] ==> next == 1
  {
    MaxId(users) + 1
  }

  /** A deleted id is not handed out again unless it was the largest: deleting any
      other id leaves the next id as it was. */
  lemma NextIdAfterDelete(users: seq<UserRecord>, id: int)
    requires id != MaxId(users)
    ensures NextId(Directory.DeleteById(users, id)) == NextId(users)
  {
    var survivors := Directory.DeleteById(users, id);
    var m := MaxId(users);
    forall k | 0 <= k < |survivors|
      ensures survivors[k].id <= m
    {
      assert survivors[k] in users;
    }
    if m != 0 {
      var k :| 0 <= k < |users| && users[k].id == m;
      assert users[k] in survivors;
    }
  }

  /** The collection {1, 2, 3} without id 2 gets id 4 next, not the freed 2. */
  lemma NextIdAfterDeleteExample(a: UserRecord, b: UserRecord, c: UserRecord)
    requires a.id == 1 && b.id == 2 && c.id == 3
    ensures NextId(Directory.DeleteById([a, b, c], 2)) == 4
  {
    assert [a, b, c][1..] == [b, c] && [b, c][1..] == [c];
    assert MaxId([c]) == 3 && MaxId([b, c]) == 3 && MaxId([a, b, c]) == 3;
    NextIdAfterDelete([a, b, c], 2);
  }

  /** Deleting the record with the largest id frees that id for the next add:
      when a record with the id just below it remains, the next id is the deleted
      one again ({1, 2, 3} without 3 gets 3 next). */
  lemma NextIdReusesDeletedLargest(users: seq<UserRecord>, largest: int, k: int)
    requires largest == MaxId(users) && largest >= 1
    requires 0 <= k < |users| && users[k].id == largest - 1
    ensures NextId(Directory.DeleteById(users, largest)) == largest
  {
    var survivors := Directory.DeleteById(users, largest);
    DeleteLargestLeavesSmaller(users);
    MaxIdAtMost(survivors, largest - 1);
    assert users[k] in survivors;
    MaxIdAtLeast(survivors, users[k]);
  }

  /** After the largest id is deleted, every surviving id is below it. */
  lemma DeleteLargestLeavesSmaller(users: seq<UserRecord>)
    ensures var survivors := Directory.DeleteById(users, MaxId(users));
      forall j :: 0 <= j < |survivors| ==> survivors[j].id < MaxId(users)
  {
    var survivors := Directory.DeleteById(users, MaxId(users));
    forall j | 0 <= j < |survivors|
      ensures survivors[j].id < MaxId(users)
    {
      assert survivors[j] in users;
    }
  }

  /** The largest id is at least the id of every record in the collection. */
  lemma MaxIdAtLeast(users: seq<UserRecord>, u: UserRecord)
    requires u in users
    ensures MaxId(users) >= u.id
  {
    var k :| 0 <= k < |users| && users[k] == u;
  }

  /** A non-negative bound on every id bounds the largest id. */
  lemma MaxIdAtMost(users: seq<UserRecord>, bound: int)
    requires bound >= 0
    requires forall k :: 0 <= k < |users| ==> users[k].id <= bound
    ensures MaxId(users) <= bound
  {
  }

  /** The edited record (UserForm.jsx line 39) spreads the record and then the form
      data into a new object: every field of the form data wins; a name the form
      data lacks is kept from `u`; the other keys are those of both, the form's value
      winning where both have one and the record's value kept where only it has one. */
  function Merge(u: UserRecord, f: UserRecord): (r: UserRecord)
    ensures forall field :: Get(r, field) == Get(f, field)
    ensures r.id == f.id
    ensures r.name == (if f.name.Some? then f.name else u.name)
    ensures r.extra.Keys == u.extra.Keys + f.extra.Keys
    ensures forall key :: key in f.extra ==> r.extra[key] == f.extra[key]
    ensures forall key :: key in u.extra && key !in f.extra ==> r.extra[key] == u.extra[key]
  {
    UserRecord(f.id, f.firstName, f.lastName, f.email, f.department,
      if f.name.Some? then f.name else u.name, u.extra + f.extra)
  }

  /** Merging a record with an unedited copy of itself leaves it as it was. */
  lemma MergeWithCopy(u: UserRecord)
    ensures Merge(u, u) == u
  {
    assert u.extra + u.extra == u.extra;
  }

  /** The edit commit (UserForm.jsx lines 37-41): every record with the id is
      replaced by its merge with the form data, every other record is kept, and the
      order is unchanged. */
  function ApplyEdit(users: seq<UserRecord>, id: int, formData: UserRecord): (edited: seq<UserRecord>)
    ensures |edited| == |users|
    ensures forall k :: 0 <= k < |users| && users[k].id != id ==> edited[k] == users[k]
    ensures forall k :: 0 <= k < |users| && users[k].id == id ==> edited[k] == Merge(users[k], formData)
  {
    seq(|users|, k requires 0 <= k < |users| => if users[k].id == id then Merge(users[k], formData) else users[k])
  }

  /** When the form data keeps the edited record's id, the edit changes no id, so
      unique ids stay unique; the edited record reads back the form's values. */
  lemma EditKeepsIds(users: seq<UserRecord>, formData: UserRecord)
    ensures forall k :: 0 <= k < |users| ==> ApplyEdit(users, formData.id, formData)[k].id == users[k].id
    ensures UniqueIds(users) ==> UniqueIds(ApplyEdit(users, formData.id, formData))
    ensures forall k, field :: 0 <= k < |users| && users[k].id == formData.id ==>
      Get(ApplyEdit(users, formData.id, formData)[k], field) == Get(formData, field)
  {
  }

  /** Submitting an edit form whose data is an unedited copy of a record of the
      collection (with ids unique) gives back the collection unchanged. */
  lemma EditWithCopyChangesNothing(users: seq<UserRecord>, k: nat)
    requires k < |users| && UniqueIds(users)
    ensures ApplyEdit(users, users[k].id, users[k]) == users
  {
    var edited := ApplyEdit(users, users[k].id, users[k]);
    forall j | 0 <= j < |users|
      ensures edited[j] == users[j]
    {
      if j == k {
        MergeWithCopy(users[k]);
      }
    }
  }

  /** The add commit (UserForm.jsx lines 45-46): the collection followed by the form
      data under the allocated id. */
  function AppendNew(users: seq<UserRecord>, formData: UserRecord, id: int): (added: seq<UserRecord>)
    ensures |added| == |users| + 1
    ensures added[..|users|] == users
    ensures added[|users|] == formData.(id := id)
  {
    users + [formData.(id := id)]
  }

  /** Appending with the allocated id keeps the ids unique. */
  lemma AddKeepsUnique(users: seq<UserRecord>, formData: UserRecord)
    requires UniqueIds(users)
    ensures UniqueIds(AppendNew(users, formData, NextId(users)))
  {
    var added := AppendNew(users, formData, NextId(users));
    forall i, j | 0 <= i < j < |added|
      ensures added[i].id != added[j].id
    {
      assert added[i] == users[i];
      if j < |users| {
        assert added[j] == users[j];
      }
    }
  }

  /** The state of one mounted form. */
  class UserForm {
    const mode: Mode
    const user: Option<UserRecord>
    var formData: UserRecord
    var nextId: Option<int>

    /** An add form has its id allocated; an edit form has a record and its data
        keeps that record's id, raw name and other keys. */
    ghost predicate Valid()
      reads this
    {
      (mode == Add <==> nextId.Some?) &&
      (mode == Edit ==>
        (user.Some? &&
         formData.id == user.value.id &&
         formData.name == user.value.name &&
         formData.extra == user.value.extra))
    }

    /** Mounting the form with the list's `mode` and `selectedUser`, and running its
        effect: in add mode the next id is computed from the current collection,
        which the updater returns unchanged; in edit mode the data is the record. */
    constructor (host: Directory.UserList)
      requires host.Valid()
      ensures Valid()
      ensures mode == host.mode && user == host.selectedUser
      ensures formData == if user.Some? then user.value else BlankForm()
      ensures nextId == if mode == Add then Some(NextId(host.users)) else None
    {
      mode := host.mode;
      user := host.selectedUser;
      formData := if host.selectedUser.Some? then host.selectedUser.value else BlankForm();
      nextId := if host.mode == Add then Some(NextId(host.users)) else None;
    }

    /** `handleChange`: one named input changes, nothing else does. */
    method HandleChange(field: Field, value: string)
      requires Valid()
      modifies this`formData
      ensures Valid()
      ensures formData == SetField(old(formData), field, value)
    {
      formData := SetField(formData, field, value);
    }

    /** `handleSubmit`: with a field empty nothing changes and the form stays open;
        otherwise the edit or the addition is committed and the modal closes. */
    method HandleSubmit(host: Directory.UserList) returns (outcome: Outcome)
      requires Valid() && host.Valid()
      modifies host`users, host`isModalOpen
      ensures host.Valid()
      ensures MissingField(formData) ==>
        outcome == Rejected(FillAllFields) &&
        host.users == old(host.users) && host.isModalOpen == old(host.isModalOpen)
      ensures !MissingField(formData) ==>
        outcome == Committed && !host.isModalOpen &&
        host.users == if mode == Edit
          then ApplyEdit(old(host.users), user.value.id, formData)
          else AppendNew(old(host.users), formData, nextId.value)
      ensures old(UniqueIds(host.users)) && (mode == Add ==> nextId == Some(NextId(old(host.users)))) ==>
        UniqueIds(host.users)
    {
      if MissingField(formData) {
        return Rejected(FillAllFields);
      }
      if mode == Edit {
        EditKeepsIds(host.users, formData);
        host.users := ApplyEdit(host.users, user.value.id, formData);
      } else {
        if UniqueIds(host.users) && nextId == Some(NextId(host.users)) {
          AddKeepsUnique(host.users, formData);
        }
        host.users := AppendNew(host.users, formData, nextId.value);
      }
      host.CloseModal();
      outcome := Committed;
    }

    /** The Close button: the modal closes and every edit is discarded. */
    method HandleClose(host: Directory.UserList)
      modifies host`isModalOpen
      ensures !host.isModalOpen
    {
      host.CloseModal();
    }
  }

  /** The fetched record of the example session, and what it normalises to. */
  const AnnRaw: Directory.RawUser := Directory.RawUser(7, "Ann Lee", "ann@x.com", None, map[])
  const AnnRecord: UserRecord := UserRecord(7, "Ann", "Lee", "ann@x.com", "General", Some("Ann Lee"), map[])

  /** The data typed into the add form of the example session. */
  const BoForm: UserRecord := UserRecord(0, "Bo", "Ray", "bo@x.com", "Data Science", None, map[])

  /** A session from an empty list: the fetch yields Ann Lee with id 7, the add
      form allocates id 8, and submitting Bo Ray appends a second record with id 8. */
  method LoadThenAddScenario() {
    var list := LoadAnn();
    list.HandleAdd();
    var form := new UserForm(list);
    assert form.nextId == Some(8) && form.formData == BlankForm();
    TypeBo(form);
    var outcome := form.HandleSubmit(list);
    assert outcome == Committed && !list.isModalOpen;
    assert list.users == [AnnRecord, BoForm.(id := 8)];
  }

  /** The first step of the session: a new list whose fetch succeeds with Ann Lee. */
  method LoadAnn() returns (list: Directory.UserList)
    ensures fresh(list) && list.Valid()
    ensures list.users == [AnnRecord] && !list.loading && list.error == None
  {
    list := new Directory.UserList();
    AnnIsNormalized();
    list.FetchUsers(Directory.Fetched([AnnRaw]));
  }

  /** The second step of the session: typing Bo Ray's data into a blank form. */
  method TypeBo(form: UserForm)
    requires form.Valid() && form.formData == BlankForm()
    modifies form`formData
    ensures form.Valid() && form.formData == BoForm
  {
    form.HandleChange(FirstName, "Bo");
    assert form.formData == BlankForm().(firstName := "Bo");
    form.HandleChange(LastName, "Ray");
    assert form.formData == BlankForm().(firstName := "Bo", lastName := "Ray");
    form.HandleChange(Email, "bo@x.com");
    assert form.formData == BlankForm().(firstName := "Bo", lastName := "Ray", email := "bo@x.com");
    form.HandleChange(Department, "Data Science");
  }

  /** The fetched record of the session normalises to Ann Lee of department "General". */
  lemma AnnIsNormalized()
    ensures Directory.Normalize([AnnRaw]) == [AnnRecord]
  {
    var first, rest := AnnRaw.name[..3], AnnRaw.name[4..];
    assert first == "Ann" && rest == "Lee";
    assert AnnRaw.name == first + " " + rest;
    assert ' ' !in first;
    Directory.SplitNameAt(first, rest);
    var u := Directory.NormalizeUser(AnnRaw);
    assert u == AnnRecord;
  }

  /** The add form opened before the fetch has returned, which the list allows
      since its buttons are drawn while loading: the form allocates id 1 from the
      empty collection, the fetch then brings in a record `raw` with id 1, and the
      submit appends a second record with id 1, so the ids are no longer unique. */
  method AddBeforeFetchDuplicatesId(raw: Directory.RawUser) returns (users: seq<UserRecord>)
    requires raw.id == 1
    ensures |users| == 2 && users[0].id == 1 && users[1].id == 1
    ensures !UniqueIds(users)
  {
    var list := new Directory.UserList();
    list.HandleAdd();
    var form := new UserForm(list);
    assert form.nextId == Some(1) && form.formData == BlankForm();
    list.FetchUsers(Directory.Fetched([raw]));
    assert |list.users| == 1 && list.users[0].id == 1;
    TypeBo(form);
    var outcome := form.HandleSubmit(list);
    users := list.users;
    assert users[0].id == users[1].id;
  }
}
