/** Relation sampling: every person draws between none and three distinct
    persons of the whole list (itself included) and issues one pair per draw.
    The random choices are arguments: the count `Math.floor(Math.random() * 4)`
    and the positions `_.sampleSize` picked. */
module Sampling {
  import opened Model
  import Normalize

  /** What `_.sampleSize(list, k)` can pick from a list of length `n`:
      min(k, n) distinct positions. */
  predicate IsSample(n: nat, k: nat, pick: seq<nat>) {
    |pick| == Min(k, n) && (forall j :: 0 <= j < |pick| ==> pick[j] < n) && Distinct(pick)
  }

  /** `generateUsers`: copies of the sampled persons, each with the shared cover. */
  function GenerateUsers(usersData: seq<Person>, numberOfUsers: nat, pick: seq<nat>): (r: seq<Person>)
    requires IsSample(|usersData|, numberOfUsers, pick)
    ensures |r| == Min(numberOfUsers, |usersData|)
    ensures forall j :: 0 <= j < |r| ==> r[j].id in PersonIds(usersData)
    ensures Distinct(PersonIds(usersData)) ==> Distinct(PersonIds(r))
  {
    var r := seq(|pick|, j requires 0 <= j < |pick| => usersData[pick[j]].(cover := Normalize.CoverAsset));
    assert forall j :: 0 <= j < |r| ==> r[j].id == PersonIds(usersData)[pick[j]];
    r
  }

  /** The random choices of one whole sampling pass: a count of at most three
      for every person and a sample of that size. */
  predicate ValidDraws(n: nat, counts: seq<nat>, picks: seq<seq<nat>>) {
    |counts| == n && |picks| == n &&
    forall i :: 0 <= i < n ==> counts[i] <= 3 && IsSample(n, counts[i], picks[i])
  }

  /** The pairs `userId` issues towards each of `friends`, in order. */
  function Pairs(userId: int, friends: seq<Person>): seq<Relation> {
    seq(|friends|, j requires 0 <= j < |friends| => Relation(userId, friends[j].id))
  }

  /** The pairs issued by the first `upto` persons; every pair joins two listed persons. */
  function Sampled(people: seq<Person>, counts: seq<nat>, picks: seq<seq<nat>>, upto: nat): (rels: seq<Relation>)
    requires ValidDraws(|people|, counts, picks) && upto <= |people|
    ensures forall r :: r in rels ==> r.userId in PersonIds(people) && r.friendId in PersonIds(people)
  {
    if upto == 0 then []
    else
      var i := upto - 1;
      var before := Sampled(people, counts, picks, i);
      var block := Pairs(people[i].id, GenerateUsers(people, counts[i], picks[i]));
      assert people[i].id == PersonIds(people)[i];
      before + block
  }

  /** The sampling loop of the refresh: for each person, in list order, push one
      pair per generated friend. */
  method SampleRelations(people: seq<Person>, counts: seq<nat>, picks: seq<seq<nat>>) returns (relations: seq<Relation>)
    requires ValidDraws(|people|, counts, picks)
    ensures relations == Sampled(people, counts, picks, |people|)
    ensures forall r :: r in relations ==> r.userId in PersonIds(people) && r.friendId in PersonIds(people)
  {
    relations := [];
    for i := 0 to |people|
      invariant relations == Sampled(people, counts, picks, i)
    {
      var generatedFriends := GenerateUsers(people, counts[i], picks[i]);
      var j := 0;
      while j < |generatedFriends|
        invariant 0 <= j <= |generatedFriends|
        invariant relations == Sampled(people, counts, picks, i) + Pairs(people[i].id, generatedFriends[..j])
      {
        relations := relations + [Relation(people[i].id, generatedFriends[j].id)];
        j := j + 1;
      }
      assert generatedFriends[..j] == generatedFriends;
    }
  }

  lemma PairsFriendIds(userId: int, friends: seq<Person>, id: int)
    ensures FriendIdsOf(Pairs(userId, friends), id) == if userId == id then PersonIds(friends) else []
    decreases |friends|
  {
    if friends != [] {
      assert Pairs(userId, friends)[1..] == Pairs(userId, friends[1..]);
      assert PersonIds(friends) == [friends[0].id] + PersonIds(friends[1..]);
      PairsFriendIds(userId, friends[1..], id);
    }
  }

  /** With unique ids, the pairs issued by person `i` are exactly its generated
      friends, in draw order. */
  lemma {:induction false} SampledBlock(people: seq<Person>, counts: seq<nat>, picks: seq<seq<nat>>, upto: nat, i: nat)
    requires ValidDraws(|people|, counts, picks) && upto <= |people| && i < |people|
    requires Distinct(PersonIds(people))
    ensures FriendIdsOf(Sampled(people, counts, picks, upto), people[i].id) ==
            if i < upto then PersonIds(GenerateUsers(people, counts[i], picks[i])) else []
  {
    if upto > 0 {
      var k := upto - 1;
      var id := people[i].id;
      var before := Sampled(people, counts, picks, k);
      var friends := GenerateUsers(people, counts[k], picks[k]);
      var block := Pairs(people[k].id, friends);
      assert Sampled(people, counts, picks, upto) == before + block;
      SampledBlock(people, counts, picks, k, i);
      FriendIdsOfAppend(before, block, id);
      PairsFriendIds(people[k].id, friends, id);
      if k == i {
        assert FriendIdsOf(before, id) == [];
        assert FriendIdsOf(block, id) == PersonIds(friends);
      } else {
        assert people[k].id != id by {
          assert PersonIds(people)[k] == people[k].id && PersonIds(people)[i] == id;
        }
        assert FriendIdsOf(block, id) == [];
      }
    }
  }

  /** The sampler's contract per person: between none and min(3, n) pairs, all
      issued by that person, towards distinct listed persons (possibly itself). */
  lemma SampledPerPerson(people: seq<Person>, counts: seq<nat>, picks: seq<seq<nat>>, i: nat)
    requires ValidDraws(|people|, counts, picks) && i < |people|
    requires Distinct(PersonIds(people))
    ensures var ids := FriendIdsOf(Sampled(people, counts, picks, |people|), people[i].id);
      |ids| == Min(counts[i], |people|) && |ids| <= 3 && Distinct(ids) &&
      forall x :: x in ids ==> x in PersonIds(people)
  {
    SampledBlock(people, counts, picks, |people|, i);
    var g := GenerateUsers(people, counts[i], picks[i]);
    var ids := PersonIds(g);
    assert counts[i] <= 3 && |ids| == |g|;
    forall x | x in ids ensures x in PersonIds(people) {
      var j :| 0 <= j < |ids| && ids[j] == x;
      assert g[j].id == x;
    }
  }
}
