/** The employee record shared by the list and the form, and the id discipline
    the collection keeps. */
module Records {
  import opened Wrappers

  /** One employee as the application holds it. `name` is the raw combined name,
      present on fetched records and absent on records added through the form;
      `extra` stands for the other fields of the fetched JSON object, which are
      carried along untouched. */
  datatype UserRecord = UserRecord(
    id: int,
    firstName: string,
    lastName: string,
    email: string,
    department: string,
    name: Option<string>,
    extra: map<string, string>)

  /** The mode the form is opened in: the string "add" or "edit" in the source. */
  datatype Mode = Add | Edit

  /** No two records of the collection share an id. */
  predicate UniqueIds(users: seq<UserRecord>) {
    forall i, j :: 0 <= i < j < |users| ==> users[i].id != users[j].id
  }

  /** `r` is `s` with some elements dropped, the survivors in their original order. */
  ghost predicate Subsequence(r: seq<UserRecord>, s: seq<UserRecord>)
    decreases |s|
  {
    if r == [] then true
    else if s == [] then false
    else (r[0] == s[0] && Subsequence(r[1..], s[1..])) || Subsequence(r, s[1..])
  }

  /** Ids stay unique when records are dropped without reordering the rest. */
  lemma {:induction false} SubsequenceKeepsUnique(r: seq<UserRecord>, s: seq<UserRecord>)
    requires Subsequence(r, s) && UniqueIds(s)
    ensures UniqueIds(r)
    ensures forall u :: u in r ==> u in s
    decreases |s|
  {
    if r != [] {
      assert UniqueIds(s[1..]) by {
        forall i, j | 0 <= i < j < |s[1..]| ensures s[1..][i].id != s[1..][j].id {
          assert s[1..][i] == s[i + 1] && s[1..][j] == s[j + 1];
        }
      }
      if r[0] == s[0] && Subsequence(r[1..], s[1..]) {
        SubsequenceKeepsUnique(r[1..], s[1..]);
        forall j | 0 < j < |r| ensures r[0].id != r[j].id {
          assert r[j] == r[1..][j - 1] && r[j] in r[1..];
          assert r[j] in s[1..];
          var k :| 0 <= k < |s[1..]| && s[1..][k] == r[j];
          assert s[k + 1] == r[j];
        }
        forall i, j | 0 <= i < j < |r| ensures r[i].id != r[j].id {
          if i > 0 {
            assert r[i] == r[1..][i - 1] && r[j] == r[1..][j - 1];
          }
        }
        assert forall u :: u in r ==> u == r[0] || u in r[1..];
      } else {
        SubsequenceKeepsUnique(r, s[1..]);
      }
    }
  }
}
