/** Friend-of-friend path records (`findShortestPath`): for every pair, in
    order, and every friend of the pair's friend other than the issuer, the
    shortest path from the issuer to that friend's friend is asked of the
    graph and a record with the number of intermediate nodes is pushed. */
module Paths {
  import opened Model
  import opened GraphLib
  import Enrich
  import Scene

  /** One shortest-path question: from the issuer's name to the receiver's name. */
  datatype Query = Query(issuer: string, receiver: string)

  /** Every pair points at a listed user; otherwise `finalUsers[friendIndex]` is
      undefined and reading its `friends` throws. */
  predicate FriendsFound(users: seq<User>, rels: seq<Relation>) {
    forall r :: r in rels ==> r.friendId in UserIds(users)
  }

  /** The lists `f` gives for the elements of `s`, joined in order. */
  function ConcatMap<T, U>(f: T -> seq<U>, s: seq<T>): seq<U> {
    if s == [] then [] else ConcatMap(f, s[..|s| - 1]) + f(s[|s| - 1])
  }

  /** The question asked for one friend of the pair's friend: none for the issuer itself. */
  function AskOne(issuer: string, issuerId: int): Person -> seq<Query> {
    (f: Person) => if f.id == issuerId then [] else [Query(issuer, f.name)]
  }

  /** The questions asked for the friends `fs` of the pair's friend, in order. */
  function Receivers(issuer: string, issuerId: int, fs: seq<Person>): seq<Query> {
    ConcatMap(AskOne(issuer, issuerId), fs)
  }

  /** The questions of one pair; none when the issuer is not a listed user. A
      friend that is not listed makes the run throw instead, which
      `FindShortestPath` excludes by its precondition. */
  function PairQueries(users: seq<User>, r: Relation): seq<Query> {
    var ids := UserIds(users);
    var userIndex := IndexOf(ids, r.userId);
    var friendIndex := IndexOf(ids, r.friendId);
    if userIndex == -1 || friendIndex == -1 then []
    else Receivers(users[userIndex].name, r.userId, users[friendIndex].friends)
  }

  function Asker(users: seq<User>): Relation -> seq<Query> {
    (r: Relation) => PairQueries(users, r)
  }

  /** The questions of all pairs, in pair order; every one starts at a listed user. */
  function Queries(users: seq<User>, rels: seq<Relation>): (qs: seq<Query>)
    ensures forall q :: q in qs ==> q.issuer in UserNames(users)
  {
    AskedByListed(users, rels);
    ConcatMap(Asker(users), rels)
  }

  /** The records pushed while answering `qs` in order, and whether every query
      was answered: the package throws when it finds no path, and the run stops
      there. The records answer the questions before the first unanswered one,
      one each, in order, and the run completes exactly when none is unanswered. */
  function Answer(g: Digraph, qs: seq<Query>): (r: (seq<PathRecord>, bool))
    ensures |r.0| <= |qs| && (r.1 <==> |r.0| == |qs|)
    ensures forall k :: 0 <= k < |r.0| ==>
      Shortest(g, qs[k].issuer, qs[k].receiver).Some? && r.0[k] == Record(g, qs[k])
    ensures !r.1 ==> Shortest(g, qs[|r.0|].issuer, qs[|r.0|].receiver).None?
  {
    if qs == [] then ([], true)
    else
      var prior := Answer(g, qs[..|qs| - 1]);
      var q := qs[|qs| - 1];
      if !prior.1 then prior
      else
        match Shortest(g, q.issuer, q.receiver)
        case None => (prior.0, false)
        case Some(p) => (prior.0 + [PathRecord(q.issuer, q.receiver, HopCount(p, q.issuer, q.receiver))], true)
  }

  method FindShortestPath(graph: Graph, relations: seq<Relation>, finalUsers: seq<User>)
    returns (finalData: seq<PathRecord>, completed: bool)
    requires FriendsFound(finalUsers, relations)
    ensures (finalData, completed) == Answer(graph.state, Queries(finalUsers, relations))
  {
    var ids := UserIds(finalUsers);
    finalData := [];
    for i := 0 to |relations|
      invariant Answer(graph.state, Queries(finalUsers, relations[..i])) == (finalData, true)
    {
      var r := relations[i];
      QueriesStep(finalUsers, relations, i);
      var userIndex := IndexOf(ids, r.userId);
      var friendIndex := IndexOf(ids, r.friendId);
      var friends := finalUsers[friendIndex].friends;
      if userIndex != -1 {
        // with the issuer missing, every friend is skipped by the `finalUsers[userIndex]` test
        var ok;
        finalData, ok := AskFriends(graph, finalUsers[userIndex].name, r.userId, friends, finalData,
                                    Queries(finalUsers, relations[..i]));
        if !ok {
          completed := false;
          QueriesStop(graph.state, finalUsers, relations, i);
          return;
        }
      } else {
        assert Queries(finalUsers, relations[..i]) + [] == Queries(finalUsers, relations[..i]);
      }
    }
    assert relations[..|relations|] == relations;
    completed := true;
  }

  /** The inner loop of `findShortestPath` for a listed issuer: over the friends
      of the pair's friend, skipping the issuer, ask for a path and push its record. */
  method AskFriends(graph: Graph, issuer: string, issuerId: int, friends: seq<Person>,
                    prior: seq<PathRecord>, ghost done: seq<Query>)
    returns (finalData: seq<PathRecord>, completed: bool)
    requires Answer(graph.state, done) == (prior, true)
    ensures (finalData, completed) == Answer(graph.state, done + Receivers(issuer, issuerId, friends))
  {
    finalData := prior;
    assert friends[..0] == [] && done + [] == done;
    for j := 0 to |friends|
      invariant Answer(graph.state, done + Receivers(issuer, issuerId, friends[..j])) == (finalData, true)
    {
      var fFF := friends[j];
      AskStep(graph.state, done, issuer, issuerId, friends, j);
      if issuerId != fFF.id {
        var path := graph.ShortestPath(issuer, fFF.name);
        if path.None? {
          completed := false;
          ReceiversStop(graph.state, done, issuer, issuerId, friends, j);
          return;
        }
        finalData := finalData + [PathRecord(issuer, fFF.name, HopCount(path.value, issuer, fFF.name))];
      }
    }
    assert friends[..|friends|] == friends;
    completed := true;
  }

  /** One friend of the inner loop: nothing is asked for the issuer itself;
      otherwise its question is answered after those of the friends before it. */
  lemma AskStep(g: Digraph, done: seq<Query>, issuer: string, issuerId: int, friends: seq<Person>, j: nat)
    requires j < |friends| && Answer(g, done + Receivers(issuer, issuerId, friends[..j])).1
    ensures var before := Answer(g, done + Receivers(issuer, issuerId, friends[..j]));
      var after := Answer(g, done + Receivers(issuer, issuerId, friends[..j + 1]));
      var f := friends[j];
      if f.id == issuerId then after == before
      else match Shortest(g, issuer, f.name)
        case None => after == (before.0, false)
        case Some(p) => after == (before.0 + [PathRecord(issuer, f.name, HopCount(p, issuer, f.name))], true)
  {
    var f := friends[j];
    var qs := done + Receivers(issuer, issuerId, friends[..j]);
    var asked := done + Receivers(issuer, issuerId, friends[..j + 1]);
    assert asked == qs + AskOne(issuer, issuerId)(f) by {
      assert friends[..j + 1][..j] == friends[..j] && friends[..j + 1][j] == f;
    }
    if issuerId != f.id {
      assert asked[..|asked| - 1] == qs && asked[|asked| - 1] == Query(issuer, f.name);
    } else {
      assert asked == qs;
    }
  }

  /** Every question of one friend list starts at the given issuer. */
  lemma {:induction false} ReceiversFrom(issuer: string, issuerId: int, fs: seq<Person>)
    ensures forall q :: q in Receivers(issuer, issuerId, fs) ==> q.issuer == issuer
  {
    if fs != [] {
      ReceiversFrom(issuer, issuerId, fs[..|fs| - 1]);
    }
  }

  lemma {:induction false} AskedByListed(users: seq<User>, rels: seq<Relation>)
    ensures forall q :: q in ConcatMap(Asker(users), rels) ==> q.issuer in UserNames(users)
  {
    if rels != [] {
      var last := rels[|rels| - 1];
      AskedByListed(users, rels[..|rels| - 1]);
      var ids := UserIds(users);
      var userIndex, friendIndex := IndexOf(ids, last.userId), IndexOf(ids, last.friendId);
      if userIndex != -1 && friendIndex != -1 {
        ReceiversFrom(users[userIndex].name, last.userId, users[friendIndex].friends);
        assert UserNames(users)[userIndex] == users[userIndex].name;
      }
    }
  }

  lemma {:induction false} ConcatMapAppend<T, U>(f: T -> seq<U>, a: seq<T>, b: seq<T>)
    ensures ConcatMap(f, a + b) == ConcatMap(f, a) + ConcatMap(f, b)
    decreases |b|
  {
    if b == [] {
      assert a + b == a;
    } else {
      var b' := b[..|b| - 1];
      assert (a + b)[..|a + b| - 1] == a + b';
      assert (a + b)[|a + b| - 1] == b[|b| - 1];
      ConcatMapAppend(f, a, b');
    }
  }

  lemma QueriesAppend(users: seq<User>, a: seq<Relation>, b: seq<Relation>)
    ensures Queries(users, a + b) == Queries(users, a) + Queries(users, b)
  {
    ConcatMapAppend(Asker(users), a, b);
  }

  /** The questions of the first `i + 1` pairs: those of the first `i`, then those of pair `i`. */
  lemma QueriesStep(users: seq<User>, rels: seq<Relation>, i: nat)
    requires i < |rels|
    ensures Queries(users, rels[..i + 1]) == Queries(users, rels[..i]) + PairQueries(users, rels[i])
  {
    assert rels[..i + 1][..i] == rels[..i];
  }

  /** Once a query goes unanswered, later queries add nothing: the run has thrown. */
  lemma {:induction false} AnswerStuck(g: Digraph, a: seq<Query>, b: seq<Query>)
    requires !Answer(g, a).1
    ensures Answer(g, a + b) == Answer(g, a)
    decreases |b|
  {
    if b == [] {
      assert a + b == a;
    } else {
      var b' := b[..|b| - 1];
      assert (a + b)[..|a + b| - 1] == a + b';
      AnswerStuck(g, a, b');
    }
  }

  /** When the question for friend `j` goes unanswered, the later friends add nothing. */
  lemma ReceiversStop(g: Digraph, done: seq<Query>, issuer: string, issuerId: int, friends: seq<Person>, j: nat)
    requires j < |friends| && !Answer(g, done + Receivers(issuer, issuerId, friends[..j + 1])).1
    ensures Answer(g, done + Receivers(issuer, issuerId, friends)) ==
            Answer(g, done + Receivers(issuer, issuerId, friends[..j + 1]))
  {
    var front, back := friends[..j + 1], friends[j + 1..];
    assert friends == front + back;
    ConcatMapAppend(AskOne(issuer, issuerId), front, back);
    StuckAfter(g, done, Receivers(issuer, issuerId, front), Receivers(issuer, issuerId, back));
  }

  lemma StuckAfter(g: Digraph, done: seq<Query>, x: seq<Query>, y: seq<Query>)
    requires !Answer(g, done + x).1
    ensures Answer(g, done + (x + y)) == Answer(g, done + x)
  {
    assert done + (x + y) == (done + x) + y;
    AnswerStuck(g, done + x, y);
  }

  /** When a question of pair `i` goes unanswered, the later pairs add nothing. */
  lemma QueriesStop(g: Digraph, users: seq<User>, rels: seq<Relation>, i: nat)
    requires i < |rels| && !Answer(g, Queries(users, rels[..i + 1])).1
    ensures Answer(g, Queries(users, rels)) == Answer(g, Queries(users, rels[..i + 1]))
  {
    assert rels == rels[..i + 1] + rels[i + 1..];
    QueriesAppend(users, rels[..i + 1], rels[i + 1..]);
    AnswerStuck(g, Queries(users, rels[..i + 1]), Queries(users, rels[i + 1..]));
  }

  /** A query for which the package finds a path, and the record it gives. */
  function Record(g: Digraph, q: Query): PathRecord
    requires Shortest(g, q.issuer, q.receiver).Some?
  {
    PathRecord(q.issuer, q.receiver, HopCount(Shortest(g, q.issuer, q.receiver).value, q.issuer, q.receiver))
  }

  /** When every query has a path the run completes with one record per query, in order. */
  lemma {:induction false} AnswerAll(g: Digraph, qs: seq<Query>)
    requires forall q :: q in qs ==> Shortest(g, q.issuer, q.receiver).Some?
    ensures Answer(g, qs).1
    ensures Answer(g, qs).0 == seq(|qs|, k requires 0 <= k < |qs| => Record(g, qs[k]))
  {
    if qs != [] {
      var init := qs[..|qs| - 1];
      assert forall q :: q in init ==> q in qs;
      AnswerAll(g, init);
    }
  }

  lemma {:induction false} ReceiversMember(issuer: string, issuerId: int, fs: seq<Person>, q: Query)
    ensures q in Receivers(issuer, issuerId, fs) <==>
      exists f :: f in fs && f.id != issuerId && q == Query(issuer, f.name)
  {
    if fs != [] {
      var init, last := fs[..|fs| - 1], fs[|fs| - 1];
      assert fs == init + [last];
      ReceiversMember(issuer, issuerId, init, q);
    }
  }

  /** `q` is asked for pair `r` and a friend `f` of its friend. */
  predicate AskedFor(users: seq<User>, r: Relation, f: Person, q: Query) {
    var ids := UserIds(users);
    r.userId in ids && r.friendId in ids && f in users[IndexOf(ids, r.friendId)].friends && f.id != r.userId &&
    q == Query(users[IndexOf(ids, r.userId)].name, f.name)
  }

  /** The questions are exactly: for a pair whose issuer is listed, from the
      issuer to every friend of its friend other than the issuer. */
  lemma {:induction false} QueriesMember(users: seq<User>, rels: seq<Relation>, q: Query)
    ensures q in Queries(users, rels) <==> exists r, f :: r in rels && AskedFor(users, r, f, q)
  {
    if rels != [] {
      var init, last := rels[..|rels| - 1], rels[|rels| - 1];
      assert rels == init + [last];
      QueriesMember(users, init, q);
      var ids := UserIds(users);
      var userIndex := IndexOf(ids, last.userId);
      if userIndex != -1 && last.friendId in ids {
        ReceiversMember(users[userIndex].name, last.userId, users[IndexOf(ids, last.friendId)].friends, q);
      }
      if q in Queries(users, rels) && q !in Queries(users, init) {
        assert q in PairQueries(users, last);
        var f :| f in users[IndexOf(ids, last.friendId)].friends && f.id != last.userId &&
                 q == Query(users[userIndex].name, f.name);
        assert AskedFor(users, last, f, q);
      }
      if exists r, f :: r in rels && AskedFor(users, r, f, q) {
        var r, f :| r in rels && AskedFor(users, r, f, q);
        if r == last {
          assert q in PairQueries(users, last);
        }
      }
    }
  }

  /** The names of the friends of the first user called `name`. */
  function FriendNames(users: seq<User>, name: string): seq<string> {
    var k := IndexOf(UserNames(users), name);
    if k == -1 then [] else PersonNames(users[k].friends)
  }

  /** Every pair joins two listed persons. */
  predicate Joined(people: seq<Person>, rels: seq<Relation>) {
    forall r :: r in rels ==> r.userId in PersonIds(people) && r.friendId in PersonIds(people)
  }

  lemma NameListed(fs: seq<Person>, p: Person)
    requires p in fs
    ensures p.name in PersonNames(fs)
  {
    var k :| 0 <= k < |fs| && fs[k] == p;
    assert PersonNames(fs)[k] == p.name;
  }

  /** Persons with unique names and different ids have different names. */
  lemma NamesApart(people: seq<Person>, i: nat, j: nat)
    requires i < |people| && j < |people| && people[i].id != people[j].id
    requires Distinct(PersonNames(people))
    ensures people[i].name != people[j].name
  {
    assert PersonNames(people)[i] == people[i].name && PersonNames(people)[j] == people[j].name;
  }

  /** The users the refresh builds from `people` and `rels`, whose friends are all users. */
  lemma EnrichedListed(people: seq<Person>, rels: seq<Relation>)
    requires Enrich.Resolves(people, rels)
    ensures Scene.FriendsListed(Enrich.Enrich(people, rels))
  {
    var users := Enrich.Enrich(people, rels);
    Enrich.EnrichIds(people, rels);
    forall u, f | u in users && f in u.friends ensures f.name in UserNames(users) {
      var i :| 0 <= i < |users| && users[i] == u;
      var k :| 0 <= k < |u.friends| && u.friends[k] == f;
      assert f in people;
      NameListed(people, f);
    }
  }

  /** After enrichment with unique ids and names, a pair's friend is among the
      issuer's friends, and no friend of the pair's friend other than the issuer
      bears the issuer's name. */
  lemma PairEnriched(people: seq<Person>, rels: seq<Relation>, r: Relation)
    requires Distinct(PersonIds(people)) && Distinct(PersonNames(people)) && Joined(people, rels)
    requires r in rels
    ensures var users := Enrich.Enrich(people, rels);
      var ids := UserIds(users);
      var ui, fi := IndexOf(ids, r.userId), IndexOf(ids, r.friendId);
      0 <= ui < |users| && 0 <= fi < |users| &&
      users[fi].name in PersonNames(users[ui].friends) &&
      forall f :: f in users[fi].friends && f.id != r.userId ==> f.name != users[ui].name
  {
    var users := Enrich.Enrich(people, rels);
    Enrich.EnrichIds(people, rels);
    var ids := UserIds(users);
    var ui, fi := IndexOf(ids, r.userId), IndexOf(ids, r.friendId);
    assert people[ui].id == r.userId && people[fi].id == r.friendId;
    Enrich.PairGivesFriend(people, rels, r);
    assert Enrich.Lookup(people, r.friendId) == people[fi];
    assert users[ui].friends == Enrich.FriendsOf(people, rels, r.userId);
    NameListed(users[ui].friends, people[fi]);
    forall f | f in users[fi].friends && f.id != r.userId ensures f.name != users[ui].name {
      assert f in people;
      var m :| 0 <= m < |people| && people[m] == f;
      NamesApart(people, m, ui);
    }
  }

  /** On the freshly built graph a user's successors are the names of its friends,
      and every friend is a node. */
  lemma GraphEdges(users: seq<User>, ui: nat, fi: nat, f: Person)
    requires Distinct(UserNames(users)) && Scene.FriendsListed(users)
    requires ui < |users| && fi < |users|
    requires users[fi].name in PersonNames(users[ui].friends) && f in users[fi].friends
    ensures var g := Scene.Built(Empty, [], users);
      var a, c := users[ui].name, users[fi].name;
      WellFormed(g) && a in g.adj && c in g.adj[a] && c in g.adj && f.name in g.adj[c] && f.name in g.adj &&
      FriendNames(users, a) == g.adj[a]
  {
    var g := Scene.Built(Empty, [], users);
    Scene.FreshGraph(users);
    NameListed(users[fi].friends, f);
    assert f.name in UserNames(users);
    IndexOfDistinct(UserNames(users), ui);
  }

  /** One friend-of-friend question on the freshly built graph: the issuer and
      the receiver are different nodes, joined through the pair's friend `c`,
      and the issuer's successors are the names of its friends. */
  lemma QueryEdges(people: seq<Person>, rels: seq<Relation>, q: Query) returns (c: string)
    requires Distinct(PersonIds(people)) && Distinct(PersonNames(people)) && Joined(people, rels)
    requires var users := Enrich.Enrich(people, rels);
      q in Queries(users, rels) &&
      Distinct(UserNames(users)) && Scene.FriendsListed(users)
    ensures var users := Enrich.Enrich(people, rels);
      var g := Scene.Built(Empty, [], users);
      var a, b := q.issuer, q.receiver;
      WellFormed(g) && a != b && a in g.adj && c in g.adj[a] && c in g.adj && b in g.adj[c] && b in g.adj &&
      FriendNames(users, a) == g.adj[a]
  {
    var users := Enrich.Enrich(people, rels);
    QueriesMember(users, rels, q);
    var r, f :| r in rels && AskedFor(users, r, f, q);
    PairEnriched(people, rels, r);
    var ids := UserIds(users);
    var ui, fi := IndexOf(ids, r.userId), IndexOf(ids, r.friendId);
    c := users[fi].name;
    GraphEdges(users, ui, fi, f);
  }

  /** One friend-of-friend question on the freshly built graph: it is answered,
      it never asks from a user to itself, and it counts no intermediate node
      when the receiver is a friend of the issuer and exactly one otherwise. */
  lemma QueryHops(people: seq<Person>, rels: seq<Relation>, q: Query)
    requires Distinct(PersonIds(people)) && Distinct(PersonNames(people)) && Joined(people, rels)
    requires var users := Enrich.Enrich(people, rels);
      q in Queries(users, rels) &&
      Distinct(UserNames(users)) && Scene.FriendsListed(users)
    ensures var users := Enrich.Enrich(people, rels);
      var g := Scene.Built(Empty, [], users);
      q.issuer != q.receiver && Shortest(g, q.issuer, q.receiver).Some? &&
      HopCount(Shortest(g, q.issuer, q.receiver).value, q.issuer, q.receiver) ==
        if q.receiver in FriendNames(users, q.issuer) then 0 else 1
  {
    var c := QueryEdges(people, rels, q);
    TwoHop(Scene.Built(Empty, [], Enrich.Enrich(people, rels)), q.issuer, c, q.receiver);
  }

  /** The records of a refresh, on the freshly built graph and with unique ids and
      names: the run completes with one record per question, in order; no record
      runs from a user to itself; and each count is 0 when the receiver is a friend
      of the issuer and 1 otherwise, so it is always 0 or 1. */
  lemma PathRecords(people: seq<Person>, rels: seq<Relation>)
    requires Distinct(PersonIds(people)) && Distinct(PersonNames(people)) && Joined(people, rels)
    ensures var users := Enrich.Enrich(people, rels);
      FriendsFound(users, rels) &&
      var qs := Queries(users, rels);
      var run := Answer(Scene.Built(Empty, [], users), qs);
      run.1 && |run.0| == |qs| &&
      forall k :: 0 <= k < |qs| ==>
        run.0[k].issuer == qs[k].issuer && run.0[k].receiver == qs[k].receiver &&
        run.0[k].issuer != run.0[k].receiver &&
        run.0[k].shortestPath == if qs[k].receiver in FriendNames(users, qs[k].issuer) then 0 else 1
  {
    var users := Enrich.Enrich(people, rels);
    Enrich.EnrichIds(people, rels);
    assert FriendsFound(users, rels);
    EnrichedListed(people, rels);
    var qs := Queries(users, rels);
    var g := Scene.Built(Empty, [], users);
    forall q | q in qs
      ensures q.issuer != q.receiver && Shortest(g, q.issuer, q.receiver).Some?
      ensures HopCount(Shortest(g, q.issuer, q.receiver).value, q.issuer, q.receiver) ==
              if q.receiver in FriendNames(users, q.issuer) then 0 else 1
    {
      QueryHops(people, rels, q);
    }
    AnswerAll(g, qs);
  }
}
