/**
  The demo credential lookup of modules/auth.js: a fixed in-memory table of
  user records and `authenticate(username, password)`, which returns the first
  record whose username and password are both strictly equal to the arguments,
  or null when there is none.
 */
module Auth {
  import opened Wrappers

  /** One record of the in-memory user table. */
  datatype User = User(id: int, username: string, password: string)

  /** The predicate passed to `find`: both fields strictly equal (`===`) to the arguments. */
  predicate Matches(u: User, username: string, password: string) {
    u.username == username && u.password == password
  }

  /** `i` is the index `find` stops at: a match, with no match before it. */
  ghost predicate IsFirstMatch(users: seq<User>, i: int, username: string, password: string) {
    0 <= i < |users|
    && Matches(users[i], username, password)
    && forall j :: 0 <= j < i ==> !Matches(users[j], username, password)
  }

  /** No record of the table matches the credentials. */
  ghost predicate NoMatch(users: seq<User>, username: string, password: string) {
    forall i :: 0 <= i < |users| ==> !Matches(users[i], username, password)
  }

  /**
    The scan of `Array.prototype.find`: visit the indices from `start` upwards
    and stop at the first record satisfying the predicate.
   */
  function FindFrom(users: seq<User>, start: nat, username: string, password: string): (r: Option<nat>)
    requires start <= |users|
    ensures r.Some? ==> start <= r.value < |users| && Matches(users[r.value], username, password)
    ensures r.Some? ==> forall j :: start <= j < r.value ==> !Matches(users[j], username, password)
    ensures r.None? ==> forall j :: start <= j < |users| ==> !Matches(users[j], username, password)
    decreases |users| - start
  {
    if start == |users| then None
    else if Matches(users[start], username, password) then Some(start)
    else FindFrom(users, start + 1, username, password)
  }

  /**
    `authenticate` over an arbitrary table: `users.find(...)`, whose `undefined`
    the ternary turns into `null` (a record is always truthy, so a found record
    is returned as it is).
   */
  function Lookup(users: seq<User>, username: string, password: string): (r: Option<User>)
    ensures r.Some? ==> r.value in users
    ensures r.Some? ==> r.value.username == username && r.value.password == password
    ensures r.None? <==> NoMatch(users, username, password)
  {
    match FindFrom(users, 0, username, password)
    case Some(i) => Some(users[i])
    case None => None
  }

  /** When several records match, the one with the smallest index is returned. */
  lemma LookupReturnsFirstMatch(users: seq<User>, i: int, username: string, password: string)
    requires IsFirstMatch(users, i, username, password)
    ensures Lookup(users, username, password) == Some(users[i])
  {
  }

  /**
    Conversely, a found record sits at a first-match index: the result is the
    record at the smallest matching index and no other.
   */
  lemma LookupFoundAtFirstMatch(users: seq<User>, username: string, password: string)
    requires Lookup(users, username, password).Some?
    ensures exists i :: IsFirstMatch(users, i, username, password)
                      && Lookup(users, username, password) == Some(users[i])
  {
  }

  /** Scanning a concatenated table: the second part is consulted only when the first has no match. */
  lemma LookupAppend(a: seq<User>, b: seq<User>, username: string, password: string)
    ensures Lookup(a + b, username, password)
         == if Lookup(a, username, password).Some? then Lookup(a, username, password)
            else Lookup(b, username, password)
  {
    var ab := a + b;
    match FindFrom(a, 0, username, password)
    case Some(i) =>
      assert IsFirstMatch(ab, i, username, password) by {
        forall j | 0 <= j < i ensures !Matches(ab[j], username, password) {
          assert ab[j] == a[j];
        }
      }
      LookupReturnsFirstMatch(ab, i, username, password);
    case None =>
      match FindFrom(b, 0, username, password)
      case Some(i) =>
        assert IsFirstMatch(ab, |a| + i, username, password) by {
          forall j | 0 <= j < |a| + i ensures !Matches(ab[j], username, password) {
            if j < |a| { assert ab[j] == a[j]; } else { assert ab[j] == b[j - |a|]; }
          }
        }
        LookupReturnsFirstMatch(ab, |a| + i, username, password);
      case None =>
        assert NoMatch(ab, username, password) by {
          forall j | 0 <= j < |ab| ensures !Matches(ab[j], username, password) {
            if j < |a| { assert ab[j] == a[j]; } else { assert ab[j] == b[j - |a|]; }
          }
        }
  }

  /** No two records of the table share a username. */
  ghost predicate DistinctUsernames(users: seq<User>) {
    forall i, j :: 0 <= i < j < |users| ==> users[i].username != users[j].username
  }

  /** With distinct usernames, at most one record matches any credential pair. */
  lemma AtMostOneMatch(users: seq<User>, username: string, password: string, i: int, j: int)
    requires DistinctUsernames(users)
    requires 0 <= i < |users| && Matches(users[i], username, password)
    requires 0 <= j < |users| && Matches(users[j], username, password)
    ensures i == j
  {
  }

  /**
    With distinct usernames the order of the table does not matter: any
    rearrangement of the same records gives the same answer.
   */
  lemma LookupOrderIndependent(users: seq<User>, other: seq<User>, username: string, password: string)
    requires DistinctUsernames(users)
    requires multiset(users) == multiset(other)
    ensures Lookup(users, username, password) == Lookup(other, username, password)
  {
    var r := Lookup(users, username, password);
    var s := Lookup(other, username, password);
    if r.Some? {
      assert r.value in multiset(other);
      var k :| 0 <= k < |other| && other[k] == r.value;
      assert s.Some?;
      assert s.value in multiset(users);
      var i :| 0 <= i < |users| && users[i] == r.value;
      var j :| 0 <= j < |users| && users[j] == s.value;
      AtMostOneMatch(users, username, password, i, j);
    } else {
      forall k | 0 <= k < |other| ensures !Matches(other[k], username, password) {
        assert other[k] in multiset(users);
        var j :| 0 <= j < |users| && users[j] == other[k];
      }
    }
  }

  /** The shipped table (modules/auth.js); no operation of the module writes it. */
  const Users: seq<User> := [
    User(1, "john", "password1"),
    User(2, "jane", "password2")
  ]

  /** `authenticate(username, password)` as exported: the lookup over the shipped table. */
  function Authenticate(username: string, password: string): (r: Option<User>)
    ensures r.Some? ==> r.value in Users && r.value.username == username && r.value.password == password
    ensures r.None? <==> NoMatch(Users, username, password)
  {
    Lookup(Users, username, password)
  }

  /** Every shipped username is different. */
  lemma ShippedUsernamesDistinct()
    ensures DistinctUsernames(Users)
  {
  }

  /** The shipped credentials authenticate their own records. */
  lemma AuthenticateShippedUsers()
    ensures Authenticate("john", "password1") == Some(User(1, "john", "password1"))
    ensures Authenticate("jane", "password2") == Some(User(2, "jane", "password2"))
  {
  }

  /** Both fields must match: a known username with another user's password is refused. */
  lemma AuthenticateNeedsBothFields()
    ensures Authenticate("john", "password2") == None
    ensures Authenticate("jane", "password1") == None
  {
  }

  /** On the shipped data the answer does not depend on the order of the table. */
  lemma AuthenticateOrderIndependent(other: seq<User>, username: string, password: string)
    requires multiset(other) == multiset(Users)
    ensures Lookup(other, username, password) == Authenticate(username, password)
  {
  }
}
