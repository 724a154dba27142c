/** Friend enrichment: every person receives copies of the persons its pairs
    point at, in the order of its pairs in the symmetric relation. */
module Enrich {
  import opened Model
  import Mutual

  /** Every pair issued by a listed person points at a listed person; otherwise
      the lookup of the friend yields index -1 and the copy dereferences undefined. */
  predicate Resolves(people: seq<Person>, rels: seq<Relation>) {
    forall r :: r in rels && r.userId in PersonIds(people) ==> r.friendId in PersonIds(people)
  }

  /** The person with the given id, found as `findIndex` finds it. */
  function Lookup(people: seq<Person>, id: int): (p: Person)
    requires id in PersonIds(people)
    ensures p in people && p.id == id
  {
    var k := IndexOf(PersonIds(people), id);
    people[k]
  }

  /** `relations.map(...).filter(...)` for the user with id `id`: one copy per pair
      it issues, in pair order. */
  function FriendsOf(people: seq<Person>, rels: seq<Relation>, id: int): (fs: seq<Person>)
    requires forall r :: r in rels && r.userId == id ==> r.friendId in PersonIds(people)
    ensures PersonIds(fs) == FriendIdsOf(rels, id)
    ensures forall k :: 0 <= k < |fs| ==> fs[k] in people
  {
    if rels == [] then []
    else
      var head, tail := rels[0], rels[1..];
      assert forall r :: r in tail ==> r in rels;
      var rest := FriendsOf(people, tail, id);
      assert FriendIdsOf(rels, id) == (if head.userId == id then [head.friendId] else []) + FriendIdsOf(tail, id);
      if head.userId == id then
        var f := Lookup(people, head.friendId);
        assert PersonIds([f] + rest) == [f.id] + PersonIds(rest);
        [f] + rest
      else rest
  }

  function Enriched(people: seq<Person>, rels: seq<Relation>, p: Person): User
    requires p in people && Resolves(people, rels)
  {
    assert p.id in PersonIds(people) by {
      var i :| 0 <= i < |people| && people[i] == p;
      assert PersonIds(people)[i] == p.id;
    }
    User(p.id, p.uid, p.name, p.avatar, p.email, p.cover, FriendsOf(people, rels, p.id))
  }

  /** `finalUsers`: every person, in order, with its friend copies. */
  function Enrich(people: seq<Person>, rels: seq<Relation>): (users: seq<User>)
    requires Resolves(people, rels)
    ensures |users| == |people|
    ensures forall i :: 0 <= i < |people| ==>
      Profile(users[i]) == people[i] && PersonIds(users[i].friends) == FriendIdsOf(rels, people[i].id)
  {
    seq(|people|, i requires 0 <= i < |people| => Enriched(people, rels, people[i]))
  }

  /** The ids of the enriched users are the ids of the persons. */
  lemma EnrichIds(people: seq<Person>, rels: seq<Relation>)
    requires Resolves(people, rels)
    ensures UserIds(Enrich(people, rels)) == PersonIds(people)
    ensures UserNames(Enrich(people, rels)) == PersonNames(people)
  {
    var us := Enrich(people, rels);
    assert forall i :: 0 <= i < |people| ==> Profile(us[i]) == people[i];
  }

  /** With unique ids, a listed person is among the friends of `id` exactly when
      the pair is present. */
  lemma FriendsOfMember(people: seq<Person>, rels: seq<Relation>, id: int, q: Person)
    requires forall r :: r in rels && r.userId == id ==> r.friendId in PersonIds(people)
    requires Distinct(PersonIds(people)) && q in people
    ensures q in FriendsOf(people, rels, id) <==> Relation(id, q.id) in rels
  {
    var fs := FriendsOf(people, rels, id);
    FriendIdsOfMember(rels, id, q.id);
    var ids := PersonIds(people);
    if q.id in PersonIds(fs) {
      var k :| 0 <= k < |fs| && PersonIds(fs)[k] == q.id;
      var a :| 0 <= a < |people| && people[a] == fs[k];
      var b :| 0 <= b < |people| && people[b] == q;
      assert ids[a] == ids[b];
      assert fs[k] == q;
    }
    if q in fs {
      var k :| 0 <= k < |fs| && fs[k] == q;
      assert PersonIds(fs)[k] == q.id;
    }
  }

  /** Enrichment over a symmetric relation is mutual: `q` is a friend of `p`
      exactly when `p` is a friend of `q`. */
  lemma EnrichMutual(people: seq<Person>, rels: seq<Relation>, i: nat, j: nat)
    requires Resolves(people, rels) && Distinct(PersonIds(people)) && Mutual.Symmetric(rels)
    requires i < |people| && j < |people|
    ensures var us := Enrich(people, rels);
      people[j] in us[i].friends <==> people[i] in us[j].friends
  {
    var us := Enrich(people, rels);
    assert people[i].id == PersonIds(people)[i] && people[j].id == PersonIds(people)[j];
    FriendsOfMember(people, rels, people[i].id, people[j]);
    FriendsOfMember(people, rels, people[j].id, people[i]);
    var a, b := Relation(people[i].id, people[j].id), Relation(people[j].id, people[i].id);
    assert Mutual.Flip(a) == b && Mutual.Flip(b) == a;
  }

  /** Over an irreflexive relation with unique ids nobody is its own friend. */
  lemma EnrichNoSelf(people: seq<Person>, rels: seq<Relation>, i: nat)
    requires Resolves(people, rels) && Distinct(PersonIds(people)) && Mutual.Irreflexive(rels)
    requires i < |people|
    ensures people[i] !in Enrich(people, rels)[i].friends
  {
    assert people[i].id == PersonIds(people)[i];
    FriendsOfMember(people, rels, people[i].id, people[i]);
    assert Mutual.IsSelf(Relation(people[i].id, people[i].id));
  }

  /** Over a relation without repeats no friend appears twice: the copies have distinct ids. */
  lemma EnrichNoRepeats(people: seq<Person>, rels: seq<Relation>, i: nat)
    requires Resolves(people, rels) && Distinct(rels) && i < |people|
    ensures Distinct(Enrich(people, rels)[i].friends)
  {
    var fs := Enrich(people, rels)[i].friends;
    FriendIdsOfDistinct(rels, people[i].id);
    forall a, b | 0 <= a < b < |fs| ensures fs[a] != fs[b] {
      assert PersonIds(fs)[a] != PersonIds(fs)[b];
    }
  }

  /** The friend a pair points at is among the issuer's friend copies (no
      uniqueness needed: the same lookup is used). */
  lemma {:induction false} PairGivesFriend(people: seq<Person>, rels: seq<Relation>, r: Relation)
    requires forall x :: x in rels && x.userId == r.userId ==> x.friendId in PersonIds(people)
    requires r in rels
    ensures r.friendId in PersonIds(people)
    ensures Lookup(people, r.friendId) in FriendsOf(people, rels, r.userId)
  {
    assert rels == [rels[0]] + rels[1..];
    if rels[0] != r {
      PairGivesFriend(people, rels[1..], r);
    }
  }
}
