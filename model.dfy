/** Records shared by every stage of the friendship pipeline, and the
    lookups (`Array.prototype.findIndex`) the stages use on them. */
module Model {

  datatype Option<T> = None | Some(value: T)

  /** A record as served by the random-user endpoint: only the fields the app reads. */
  datatype RawUser = RawUser(id: int, uid: string, firstName: string, lastName: string,
                             avatar: string, email: string)

  /** A normalised person. It is also the shape of every friend copy: a
      projection without a friend list of its own. */
  datatype Person = Person(id: int, uid: string, name: string, avatar: string,
                           email: string, cover: string)

  /** An enriched user: a person together with copies of its friends. */
  datatype User = User(id: int, uid: string, name: string, avatar: string,
                       email: string, cover: string, friends: seq<Person>)

  /** A directed friendship pair. */
  datatype Relation = Relation(userId: int, friendId: int)

  /** One friend-of-friend record: issuer and receiver display names and the
      number of nodes strictly between them on a shortest path. */
  datatype PathRecord = PathRecord(issuer: string, receiver: string, shortestPath: int)

  /** The person part of an enriched user. */
  function Profile(u: User): Person {
    Person(u.id, u.uid, u.name, u.avatar, u.email, u.cover)
  }

  function PersonIds(ps: seq<Person>): seq<int> {
    seq(|ps|, i requires 0 <= i < |ps| => ps[i].id)
  }

  function PersonNames(ps: seq<Person>): seq<string> {
    seq(|ps|, i requires 0 <= i < |ps| => ps[i].name)
  }

  function UserIds(us: seq<User>): seq<int> {
    seq(|us|, i requires 0 <= i < |us| => us[i].id)
  }

  function UserNames(us: seq<User>): seq<string> {
    seq(|us|, i requires 0 <= i < |us| => us[i].name)
  }

  predicate Distinct<T(==)>(s: seq<T>) {
    forall i, j :: 0 <= i < j < |s| ==> s[i] != s[j]
  }

  function Min(a: int, b: int): int {
    if a < b then a else b
  }

  /** `findIndex` with an equality test: the first position holding `x`, or -1. */
  function IndexOf<T(==)>(s: seq<T>, x: T): (r: int)
    ensures -1 <= r < |s|
    ensures r == -1 <==> x !in s
    ensures r >= 0 ==> s[r] == x && x !in s[..r]
  {
    if |s| == 0 then -1
    else if s[0] == x then 0
    else
      var k := IndexOf(s[1..], x);
      if k == -1 then -1
      else
        assert s[..k + 1] == [s[0]] + s[1..][..k];
        k + 1
  }

  /** In a sequence without repeats the lookup of an element finds its own position. */
  lemma IndexOfDistinct<T>(s: seq<T>, i: nat)
    requires Distinct(s) && i < |s|
    ensures IndexOf(s, s[i]) == i
  {
    assert s[i] !in s[..i] by {
      forall j | 0 <= j < i ensures s[..i][j] != s[i] { }
    }
  }

  /** Appending never moves the first occurrence of an element already present. */
  lemma IndexOfAppend<T>(a: seq<T>, b: seq<T>, x: T)
    requires x in a
    ensures IndexOf(a + b, x) == IndexOf(a, x)
  {
    var k, r := IndexOf(a, x), IndexOf(a + b, x);
    assert (a + b)[k] == x;
    assert forall j :: 0 <= j < k ==> (a + b)[j] != x by {
      forall j | 0 <= j < k ensures (a + b)[j] != x {
        assert a[..k][j] == (a + b)[j];
      }
    }
    assert forall j :: 0 <= j < r ==> (a + b)[..r][j] == (a + b)[j];
  }

  /** The friend ids of the pairs issued by `id`, in pair order: what
      `relations.map(...).filter(...)` keeps for one user. */
  function FriendIdsOf(rels: seq<Relation>, id: int): seq<int>
  {
    if rels == [] then []
    else (if rels[0].userId == id then [rels[0].friendId] else []) + FriendIdsOf(rels[1..], id)
  }

  lemma {:induction false} FriendIdsOfAppend(a: seq<Relation>, b: seq<Relation>, id: int)
    ensures FriendIdsOf(a + b, id) == FriendIdsOf(a, id) + FriendIdsOf(b, id)
  {
    if a == [] {
      assert a + b == b;
    } else {
      var head := if a[0].userId == id then [a[0].friendId] else [];
      assert (a + b)[0] == a[0] && (a + b)[1..] == a[1..] + b;
      FriendIdsOfAppend(a[1..], b, id);
      assert FriendIdsOf(a + b, id) == head + (FriendIdsOf(a[1..], id) + FriendIdsOf(b, id));
      assert FriendIdsOf(a, id) == head + FriendIdsOf(a[1..], id);
    }
  }

  /** A friend id is listed for `id` exactly when the pair is present. */
  lemma {:induction false} FriendIdsOfMember(rels: seq<Relation>, id: int, x: int)
    ensures x in FriendIdsOf(rels, id) <==> Relation(id, x) in rels
  {
    if rels != [] {
      FriendIdsOfMember(rels[1..], id, x);
      assert rels == [rels[0]] + rels[1..];
    }
  }

  /** Distinct pairs give distinct friend ids for each issuer. */
  lemma {:induction false} FriendIdsOfDistinct(rels: seq<Relation>, id: int)
    requires Distinct(rels)
    ensures Distinct(FriendIdsOf(rels, id))
  {
    if rels != [] {
      var rest := rels[1..];
      assert Distinct(rest) by {
        forall i, j | 0 <= i < j < |rest| ensures rest[i] != rest[j] {
          assert rest[i] == rels[i + 1] && rest[j] == rels[j + 1];
        }
      }
      FriendIdsOfDistinct(rest, id);
      if rels[0].userId == id {
        FriendIdsOfMember(rest, id, rels[0].friendId);
        assert Relation(id, rels[0].friendId) == rels[0];
        assert rels[0] !in rest by {
          forall j | 0 <= j < |rest| ensures rest[j] != rels[0] {
            assert rest[j] == rels[j + 1];
          }
        }
      }
    }
  }
}
