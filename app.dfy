/** The component's state and the handlers that change it: a refresh runs the
    whole friendship pipeline and stores its results; `openDialog` and
    `changeProfileImage` let the selected profile change its avatar in place. */
module AppState {
  import opened Model
  import Normalize
  import Sampling
  import Mutual
  import Enrich
  import GraphLib
  import Scene
  import Paths

  /** A user object held in the `users` state. Only its avatar is ever assigned;
      its friend copies are separate values. */
  class UserObj {
    const id: int
    const uid: string
    const name: string
    var avatar: string
    const email: string
    const cover: string
    const friends: seq<Person>

    constructor (u: User)
      ensures Snapshot() == u
    {
      id, uid, name, avatar, email, cover, friends := u.id, u.uid, u.name, u.avatar, u.email, u.cover, u.friends;
    }

    function Snapshot(): User
      reads this
    {
      User(id, uid, name, avatar, email, cover, friends)
    }
  }

  function Snapshots(us: seq<UserObj>): (r: seq<User>)
    reads set u | u in us
    ensures |r| == |us|
  {
    seq(|us|, i reads set u | u in us requires 0 <= i < |us| => us[i].Snapshot())
  }

  /** The persons a refresh starts from. */
  function People(raw: seq<RawUser>): seq<Person> {
    Normalize.Normalize(raw)
  }

  /** The symmetric relation of a refresh; every pair joins two of its persons. */
  function Relations(raw: seq<RawUser>, counts: seq<nat>, picks: seq<seq<nat>>): (rels: seq<Relation>)
    requires Sampling.ValidDraws(|raw|, counts, picks)
    ensures Paths.Joined(People(raw), rels)
  {
    var people := People(raw);
    var sampled := Sampling.Sampled(people, counts, picks, |people|);
    Mutual.SymmetrizeSound(sampled);
    var rels := Mutual.Symmetrize(sampled);
    assert forall x :: x in rels ==> x in sampled || Mutual.Flip(x) in sampled;
    rels
  }

  /** `finalUsers` of a refresh: one user per person, in order, each pair joins
      two of them. */
  function FinalUsers(raw: seq<RawUser>, counts: seq<nat>, picks: seq<seq<nat>>): (users: seq<User>)
    requires Sampling.ValidDraws(|raw|, counts, picks)
    ensures UserIds(users) == PersonIds(People(raw)) && UserNames(users) == PersonNames(People(raw))
    ensures Scene.Listed(users, Relations(raw, counts, picks))
    ensures Paths.FriendsFound(users, Relations(raw, counts, picks))
  {
    var rels := Relations(raw, counts, picks);
    Enrich.EnrichIds(People(raw), rels);
    Enrich.Enrich(People(raw), rels)
  }

  /** The 62 characters the avatar picker draws from. */
  const Alphabet: string := "ABCDEFGHIJKLMNOPQRSTUVWXYZabcdefghijklmnopqrstuvwxyz0123456789"

  /** Five draws of `Math.floor(Math.random() * possible.length)`. */
  predicate AvatarDraws(draws: seq<nat>) {
    |draws| == 5 && forall i :: 0 <= i < 5 ==> draws[i] < |Alphabet|
  }

  /** `generateAvatarsToChangeProfile`: five one-character strings, the drawn
      characters of the alphabet, in draw order. */
  method GenerateAvatars(draws: seq<nat>) returns (avatarArray: seq<string>)
    requires AvatarDraws(draws)
    ensures |avatarArray| == 5
    ensures forall i :: 0 <= i < 5 ==> |avatarArray[i]| == 1 && avatarArray[i][0] == Alphabet[draws[i]]
  {
    avatarArray := [];
    for i := 0 to 5
      invariant |avatarArray| == i
      invariant forall k :: 0 <= k < i ==> |avatarArray[k]| == 1 && avatarArray[k][0] == Alphabet[draws[k]]
    {
      avatarArray := avatarArray + [[Alphabet[draws[i]]]];
    }
  }

  /** `item.id === selectedUser`: the initial empty string matches no id. */
  predicate Selected(selectedUser: Option<int>, id: int) {
    selectedUser == Some(id)
  }

  /** The users after `changeProfileImage(avatar)`. */
  function WithAvatar(us: seq<User>, selectedUser: Option<int>, avatar: string): (r: seq<User>)
    ensures |r| == |us|
    ensures forall i :: 0 <= i < |us| ==>
      r[i].(avatar := us[i].avatar) == us[i] &&
      (Selected(selectedUser, us[i].id) ==> r[i].avatar == avatar) &&
      (!Selected(selectedUser, us[i].id) ==> r[i] == us[i])
  {
    seq(|us|, i requires 0 <= i < |us| => if Selected(selectedUser, us[i].id) then us[i].(avatar := avatar) else us[i])
  }

  /** The id and name lists the lookups read are unchanged by a new avatar. */
  lemma WithAvatarOnlyAvatar(us: seq<User>, selectedUser: Option<int>, avatar: string)
    ensures var r := WithAvatar(us, selectedUser, avatar);
      UserIds(r) == UserIds(us) && UserNames(r) == UserNames(us)
  {
  }

  /** Choosing the same avatar again changes nothing. */
  lemma WithAvatarIdempotent(us: seq<User>, selectedUser: Option<int>, avatar: string)
    ensures WithAvatar(WithAvatar(us, selectedUser, avatar), selectedUser, avatar) == WithAvatar(us, selectedUser, avatar)
  {
  }

  /** Before any dialog was opened nothing is selected and nothing changes. */
  lemma WithAvatarUnselected(us: seq<User>, avatar: string)
    ensures WithAvatar(us, None, avatar) == us
  {
  }

  class App {
    var users: seq<UserObj>
    var visualization: seq<Scene.Element>
    var shortestPath: seq<PathRecord>
    var randomAvatars: seq<string>
    var dialogOpen: bool
    var selectedUser: Option<int>
    var selectedProfile: UserObj?

    /** The user objects are distinct. */
    predicate Valid()
      reads this
    {
      Distinct(users)
    }

    constructor ()
      ensures Valid()
      ensures users == [] && visualization == [] && shortestPath == [] && randomAvatars == []
      ensures !dialogOpen && selectedUser == None && selectedProfile == null
    {
      users, visualization, shortestPath, randomAvatars := [], [], [], [];
      dialogOpen, selectedUser, selectedProfile := false, None, null;
    }

    /** `openDialog(userId)`: reading the id of a missing profile throws; otherwise
        the dialog opens for the selected profile's own id and nothing happens for any other. */
    method OpenDialog(userId: int) returns (threw: bool)
      modifies this`dialogOpen, this`selectedUser
      ensures threw <==> selectedProfile == null
      ensures if !threw && selectedProfile.id == userId then dialogOpen && selectedUser == Some(userId)
              else dialogOpen == old(dialogOpen) && selectedUser == old(selectedUser)
    {
      if selectedProfile == null {
        return true;
      }
      threw := false;
      if selectedProfile.id != userId {
        return;
      }
      dialogOpen := true;
      selectedUser := Some(userId);
    }

    /** `closeDialog`. */
    method CloseDialog()
      modifies this`dialogOpen
      ensures !dialogOpen
    {
      dialogOpen := false;
    }

    /** `changeProfileImage(avatar)`: every user object whose id is the selected
        one takes the avatar, in place, and the dialog closes if there was one;
        the selected profile, being one of those objects, shows it too. */
    method ChangeProfileImage(avatar: string)
      requires Valid()
      modifies this`dialogOpen, set u | u in users
      ensures Snapshots(users) == WithAvatar(old(Snapshots(users)), selectedUser, avatar)
      ensures dialogOpen == if selectedUser.Some? && selectedUser.value in UserIds(old(Snapshots(users))) then false
                            else old(dialogOpen)
    {
      ghost var before := Snapshots(users);
      for i := 0 to |users|
        invariant forall k :: 0 <= k < |users| ==>
          users[k].Snapshot() == if k < i then WithAvatar(before, selectedUser, avatar)[k] else before[k]
        invariant dialogOpen == if selectedUser.Some? && selectedUser.value in UserIds(before[..i]) then false
                                else old(dialogOpen)
      {
        var item := users[i];
        assert UserIds(before[..i + 1]) == UserIds(before[..i]) + [item.id];
        if Selected(selectedUser, item.id) {
          item.avatar := avatar;
          dialogOpen := false;
        }
      }
      assert before[..|users|] == before;
    }

    /** Fresh user objects, one per enriched user, in order (`setUsers(finalUsers)`). */
    static method Allocate(finalUsers: seq<User>) returns (objs: seq<UserObj>)
      ensures Snapshots(objs) == finalUsers && Distinct(objs)
      ensures forall u :: u in objs ==> fresh(u)
    {
      objs := [];
      for i := 0 to |finalUsers|
        invariant Snapshots(objs) == finalUsers[..i] && Distinct(objs)
        invariant forall u :: u in objs ==> fresh(u)
      {
        var o := new UserObj(finalUsers[i]);
        objs := objs + [o];
      }
    }

    /** `getUsers` after the fetch: normalise, sample, symmetrise, enrich, store
        the users, build the graph and the visual elements, and push the path
        records. When the package finds no path the run throws, keeping the
        records stored so far, and the avatar choices and selected profile are
        not set. The graph and node list are those of the render the handler
        belongs to. */
    method Refresh(graph: GraphLib.Graph, nodes: Scene.JsArray<string>, raw: seq<RawUser>,
                   counts: seq<nat>, picks: seq<seq<nat>>, avatarDraws: seq<nat>)
      returns (threw: bool)
      requires Sampling.ValidDraws(|raw|, counts, picks) && AvatarDraws(avatarDraws)
      modifies this`users, this`visualization, this`shortestPath, this`randomAvatars, this`selectedProfile, graph, nodes
      ensures Valid() && (forall u :: u in users ==> fresh(u))
      ensures Snapshots(users) == FinalUsers(raw, counts, picks)
      ensures nodes.elems == old(nodes.elems) + UserNames(FinalUsers(raw, counts, picks))
      ensures graph.state == Scene.Built(old(graph.state), old(nodes.elems), FinalUsers(raw, counts, picks))
      ensures visualization == Scene.NodeElements(nodes.elems) +
                               Scene.EdgeElements(FinalUsers(raw, counts, picks), Relations(raw, counts, picks))
      ensures var run := Paths.Answer(graph.state, Paths.Queries(FinalUsers(raw, counts, picks), Relations(raw, counts, picks)));
        threw == !run.1 && shortestPath == if run.0 == [] then old(shortestPath) else run.0
      ensures threw ==> randomAvatars == old(randomAvatars) && selectedProfile == old(selectedProfile)
      ensures !threw ==>
        |randomAvatars| == 5 &&
        (forall i :: 0 <= i < 5 ==> randomAvatars[i] == [Alphabet[avatarDraws[i]]]) &&
        selectedProfile == if users == [] then null else users[0]
    {
      var relations, finalUsers := Pipeline(raw, counts, picks);
      var elements := Render(graph, nodes, finalUsers, relations);
      threw := Store(graph, relations, finalUsers, elements, avatarDraws);
    }

    /** The state updates of a refresh, on the graph already built: `setUsers`,
        `setVisualization`, the path records (stored when there are any), then
        the avatar choices and selected profile unless the package threw. */
    method Store(graph: GraphLib.Graph, relations: seq<Relation>, finalUsers: seq<User>,
                 elements: seq<Scene.Element>, avatarDraws: seq<nat>)
      returns (threw: bool)
      requires Paths.FriendsFound(finalUsers, relations) && AvatarDraws(avatarDraws)
      modifies this`users, this`visualization, this`shortestPath, this`randomAvatars, this`selectedProfile
      ensures Valid() && (forall u :: u in users ==> fresh(u)) && Snapshots(users) == finalUsers
      ensures visualization == elements
      ensures var run := Paths.Answer(graph.state, Paths.Queries(finalUsers, relations));
        threw == !run.1 && shortestPath == if run.0 == [] then old(shortestPath) else run.0
      ensures threw ==> randomAvatars == old(randomAvatars) && selectedProfile == old(selectedProfile)
      ensures !threw ==>
        |randomAvatars| == 5 &&
        (forall i :: 0 <= i < 5 ==> randomAvatars[i] == [Alphabet[avatarDraws[i]]]) &&
        selectedProfile == if users == [] then null else users[0]
    {
      var finalData, completed := Paths.FindShortestPath(graph, relations, finalUsers);
      var objs := Allocate(finalUsers);
      users, visualization := objs, elements;
      if finalData != [] {
        shortestPath := finalData;
      }
      threw := !completed;
      if completed {
        var avatars := GenerateAvatars(avatarDraws);
        assert forall i :: 0 <= i < 5 ==> avatars[i] == [Alphabet[avatarDraws[i]]];
        randomAvatars, selectedProfile := avatars, if objs == [] then null else objs[0];
      }
    }

    /** The data steps of `getUsers`: normalise, sample, symmetrise, enrich. */
    static method Pipeline(raw: seq<RawUser>, counts: seq<nat>, picks: seq<seq<nat>>)
      returns (relations: seq<Relation>, finalUsers: seq<User>)
      requires Sampling.ValidDraws(|raw|, counts, picks)
      ensures relations == Relations(raw, counts, picks) && finalUsers == FinalUsers(raw, counts, picks)
    {
      var usersData := Normalize.Normalize(raw);
      relations := Sampling.SampleRelations(usersData, counts, picks);
      relations := Mutual.AddMutualFriends(relations);
      finalUsers := Enrich.Enrich(usersData, relations);
    }

    /** `addNodesAndEdges` followed by `addEdgesToVisualization` on its result. */
    static method Render(graph: GraphLib.Graph, nodes: Scene.JsArray<string>, finalUsers: seq<User>, relations: seq<Relation>)
      returns (elements: seq<Scene.Element>)
      requires Scene.Listed(finalUsers, relations)
      modifies graph, nodes
      ensures nodes.elems == old(nodes.elems) + UserNames(finalUsers)
      ensures graph.state == Scene.Built(old(graph.state), old(nodes.elems), finalUsers)
      ensures elements == Scene.NodeElements(nodes.elems) + Scene.EdgeElements(finalUsers, relations)
    {
      var visualizationNodes := Scene.AddNodesAndEdges(nodes, graph, finalUsers);
      var visualizationData := Scene.AddEdgesToVisualization(visualizationNodes, finalUsers, relations);
      elements := visualizationData.elems;
    }
  }

  /** A refresh on the graph and node list of a fresh render, over records with
      unique ids and unique display names, never throws: every question finds a
      path, one record is pushed per question, no record runs from a user to
      itself, and every count is 0 for a receiver that is already a friend of
      the issuer and 1 otherwise. */
  lemma RefreshCompletes(raw: seq<RawUser>, counts: seq<nat>, picks: seq<seq<nat>>)
    requires Sampling.ValidDraws(|raw|, counts, picks)
    requires Distinct(Normalize.RawIds(raw)) && Distinct(PersonNames(People(raw)))
    ensures var users := FinalUsers(raw, counts, picks);
      var qs := Paths.Queries(users, Relations(raw, counts, picks));
      var run := Paths.Answer(Scene.Built(GraphLib.Empty, [], users), qs);
      run.1 && |run.0| == |qs| &&
      forall k :: 0 <= k < |run.0| ==>
        run.0[k].issuer != run.0[k].receiver &&
        run.0[k].shortestPath == if run.0[k].receiver in Paths.FriendNames(users, run.0[k].issuer) then 0 else 1
  {
    Paths.PathRecords(People(raw), Relations(raw, counts, picks));
  }
}
