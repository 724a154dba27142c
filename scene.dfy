/** Graph construction and the visual element list: `addNodesAndEdges` pushes
    one node name per user into the render's shared `nodes` array, builds the
    node elements and the graph's nodes from all of them, then adds an edge
    from every graph node with a matching user to each of that user's friends;
    `addEdgesToVisualization` pushes one edge element per pair into the array
    it is given and returns that same array. */
module Scene {
  import opened Model
  import opened GraphLib

  /** A JavaScript array that is pushed into in place. */
  class JsArray<T> {
    var elems: seq<T>

    constructor ()
      ensures elems == []
    {
      elems := [];
    }

    method Push(x: T)
      modifies this
      ensures elems == old(elems) + [x]
    {
      elems := elems + [x];
    }
  }

  /** A cytoscape element: `{group: "nodes", data: {id}}` or
      `{group: "edges", data: {id, source, target}}`. */
  datatype Element = NodeElement(id: string) | EdgeElement(id: string, source: string, target: string)

  function NodeElements(ns: seq<string>): seq<Element> {
    seq(|ns|, i requires 0 <= i < |ns| => NodeElement(ns[i]))
  }

  /** The graph after `graph.addNode` of every name, in order. */
  function AddNames(g: Digraph, ns: seq<string>): Digraph {
    if ns == [] then g else WithNode(AddNames(g, ns[..|ns| - 1]), ns[|ns| - 1])
  }

  /** The graph after `graph.addEdge(u, v)` for every `v`, in order. */
  function AddEdges(g: Digraph, u: string, vs: seq<string>): Digraph {
    if vs == [] then g else WithEdge(AddEdges(g, u, vs[..|vs| - 1]), u, vs[|vs| - 1])
  }

  /** The graph after the edge pass over the node list `snapshot`. */
  function Link(g: Digraph, snapshot: seq<string>, items: seq<User>): Digraph {
    if snapshot == [] then g
    else
      var before := Link(g, snapshot[..|snapshot| - 1], items);
      var gN := snapshot[|snapshot| - 1];
      var index := IndexOf(UserNames(items), gN);
      if index == -1 then before else AddEdges(before, gN, PersonNames(items[index].friends))
  }

  /** The graph `addNodesAndEdges` leaves behind, from the graph and node list it found. */
  function Built(g: Digraph, nodes: seq<string>, items: seq<User>): (h: Digraph)
    ensures WellFormed(g) ==> WellFormed(h)
    ensures forall n :: n in g.adj || n in nodes || n in UserNames(items) ==> n in h.adj
  {
    var withNodes := AddNames(g, nodes + UserNames(items));
    AddNamesKeeps(g, nodes + UserNames(items));
    LinkKeeps(withNodes, withNodes.order, items);
    Link(withNodes, withNodes.order, items)
  }

  /** Adding names keeps a graph well formed and makes exactly those names new nodes. */
  lemma {:induction false} AddNamesKeeps(g: Digraph, ns: seq<string>)
    ensures WellFormed(g) ==> WellFormed(AddNames(g, ns))
    ensures forall n :: n in AddNames(g, ns).adj <==> n in g.adj || n in ns
  {
    if ns != [] {
      AddNamesKeeps(g, ns[..|ns| - 1]);
    }
  }

  /** Adding edges keeps a graph well formed and removes no node. */
  lemma {:induction false} AddEdgesKeeps(g: Digraph, u: string, vs: seq<string>)
    ensures WellFormed(g) ==> WellFormed(AddEdges(g, u, vs))
    ensures forall n :: n in g.adj ==> n in AddEdges(g, u, vs).adj
  {
    if vs != [] {
      AddEdgesKeeps(g, u, vs[..|vs| - 1]);
    }
  }

  /** The edge pass keeps a graph well formed and removes no node. */
  lemma {:induction false} LinkKeeps(g: Digraph, snapshot: seq<string>, items: seq<User>)
    ensures WellFormed(g) ==> WellFormed(Link(g, snapshot, items))
    ensures forall n :: n in g.adj ==> n in Link(g, snapshot, items).adj
  {
    if snapshot != [] {
      var before := Link(g, snapshot[..|snapshot| - 1], items);
      LinkKeeps(g, snapshot[..|snapshot| - 1], items);
      var index := IndexOf(UserNames(items), snapshot[|snapshot| - 1]);
      if index != -1 {
        AddEdgesKeeps(before, snapshot[|snapshot| - 1], PersonNames(items[index].friends));
      }
    }
  }

  method AddNodesAndEdges(nodes: JsArray<string>, graph: Graph, items: seq<User>) returns (myNodes: JsArray<Element>)
    modifies nodes, graph
    ensures fresh(myNodes)
    ensures nodes.elems == old(nodes.elems) + UserNames(items)
    ensures myNodes.elems == NodeElements(nodes.elems)
    ensures graph.state == Built(old(graph.state), old(nodes.elems), items)
  {
    ghost var g0 := graph.state;
    for i := 0 to |items|
      invariant nodes.elems == old(nodes.elems) + UserNames(items[..i])
      invariant graph.state == g0
    {
      assert UserNames(items[..i + 1]) == UserNames(items[..i]) + [items[i].name];
      nodes.Push(items[i].name);
    }
    assert items[..|items|] == items;
    myNodes := new JsArray<Element>();
    var ns := nodes.elems;
    for i := 0 to |ns|
      invariant nodes.elems == ns
      invariant myNodes.elems == NodeElements(ns[..i])
      invariant graph.state == AddNames(g0, ns[..i])
    {
      assert ns[..i + 1][..i] == ns[..i];
      assert NodeElements(ns[..i + 1]) == NodeElements(ns[..i]) + [NodeElement(ns[i])];
      myNodes.Push(NodeElement(ns[i]));
      graph.AddNode(ns[i]);
    }
    assert ns[..|ns|] == ns;
    LinkUsers(graph, items);
  }

  /** The edge pass of `addNodesAndEdges`: for each node of the graph as it
      stands, the first user of that name adds an edge to each of its friends. */
  method LinkUsers(graph: Graph, items: seq<User>)
    modifies graph
    ensures graph.state == Link(old(graph.state), old(graph.state).order, items)
  {
    ghost var g1 := graph.state;
    var snapshot := graph.Nodes();
    var names := UserNames(items);
    for i := 0 to |snapshot|
      invariant graph.state == Link(g1, snapshot[..i], items)
    {
      var gN := snapshot[i];
      assert snapshot[..i + 1][..i] == snapshot[..i];
      var index := IndexOf(names, gN);
      if index != -1 {
        var friends := items[index].friends;
        ghost var before := graph.state;
        for j := 0 to |friends|
          invariant graph.state == AddEdges(before, gN, PersonNames(friends[..j]))
        {
          assert PersonNames(friends[..j + 1])[..j] == PersonNames(friends[..j]);
          graph.AddEdge(gN, friends[j].name);
        }
        assert friends[..|friends|] == friends;
      }
    }
    assert snapshot[..|snapshot|] == snapshot;
  }

  /** Every friend of every user is itself a user, by name. */
  predicate FriendsListed(items: seq<User>) {
    forall u, f :: u in items && f in u.friends ==> f.name in UserNames(items)
  }

  lemma {:induction false} AddNamesFresh(ns: seq<string>)
    requires Distinct(ns)
    ensures var g := AddNames(Empty, ns);
      WellFormed(g) && g.order == ns && forall n :: n in g.adj ==> g.adj[n] == []
  {
    if ns != [] {
      var init, last := ns[..|ns| - 1], ns[|ns| - 1];
      assert Distinct(init) by {
        forall i, j | 0 <= i < j < |init| ensures init[i] != init[j] {
          assert init[i] == ns[i] && init[j] == ns[j];
        }
      }
      AddNamesFresh(init);
      assert last !in init by {
        forall j | 0 <= j < |init| ensures init[j] != last {
          assert init[j] == ns[j];
        }
      }
      assert init + [last] == ns;
    }
  }

  /** Between listed nodes, the edges are appended to the successor list in order. */
  lemma {:induction false} AddEdgesListed(g: Digraph, u: string, vs: seq<string>)
    requires u in g.adj && forall v :: v in vs ==> v in g.adj
    ensures AddEdges(g, u, vs) == g.(adj := g.adj[u := g.adj[u] + vs])
  {
    if vs == [] {
      assert g.adj[u] + vs == g.adj[u];
      assert g.adj[u := g.adj[u]] == g.adj;
    } else {
      var init, last := vs[..|vs| - 1], vs[|vs| - 1];
      AddEdgesListed(g, u, init);
      assert g.adj[u] + init + [last] == g.adj[u] + vs;
    }
  }

  /** The graph holds the users' names, in order, and the first `i` users' friend names. */
  ghost predicate LinkedUpTo(g: Digraph, items: seq<User>, i: nat) {
    WellFormed(g) && g.order == UserNames(items) &&
    forall k :: 0 <= k < |items| ==>
      items[k].name in g.adj &&
      g.adj[items[k].name] == if k < i then PersonNames(items[k].friends) else []
  }

  /** One step of the edge pass: with distinct names, node `i - 1` of the list
      is user `i - 1`, whose friends' names are appended to its successors. */
  lemma LinkUnfold(g1: Digraph, items: seq<User>, i: nat)
    requires Distinct(UserNames(items)) && 0 < i <= |items|
    ensures var names := UserNames(items);
      Link(g1, names[..i], items) ==
      AddEdges(Link(g1, names[..i - 1], items), items[i - 1].name, PersonNames(items[i - 1].friends))
  {
    var names := UserNames(items);
    assert names[..i][..i - 1] == names[..i - 1];
    assert names[..i][i - 1] == items[i - 1].name;
    IndexOfDistinct(names, i - 1);
  }

  /** Appending the friends' names of user `i - 1` extends the invariant by one user. */
  lemma LinkOne(before: Digraph, items: seq<User>, i: nat)
    requires Distinct(UserNames(items)) && FriendsListed(items) && 0 < i <= |items|
    requires LinkedUpTo(before, items, i - 1)
    ensures var u := items[i - 1];
      LinkedUpTo(AddEdges(before, u.name, PersonNames(u.friends)), items, i)
  {
    var u := items[i - 1];
    var fs := PersonNames(u.friends);
    FriendsAreNodes(before, items, u);
    assert u.name in before.adj && before.adj[u.name] == [] by {
      assert items[i - 1].name in before.adj;
    }
    AddEdgesListed(before, u.name, fs);
    assert before.adj[u.name] + fs == fs;
    LinkSet(before, items, i);
  }

  /** When every user's name is a node, so is every friend's name. */
  lemma FriendsAreNodes(g: Digraph, items: seq<User>, u: User)
    requires FriendsListed(items) && u in items
    requires forall n :: n in UserNames(items) ==> n in g.adj
    ensures forall v :: v in PersonNames(u.friends) ==> v in g.adj
  {
    var fs := PersonNames(u.friends);
    forall v | v in fs ensures v in g.adj {
      var k :| 0 <= k < |fs| && fs[k] == v;
      assert u.friends[k] in u.friends;
    }
  }

  /** Setting the successors of user `i - 1` to its friends' names extends the invariant by one user. */
  lemma LinkSet(before: Digraph, items: seq<User>, i: nat)
    requires Distinct(UserNames(items)) && 0 < i <= |items|
    requires LinkedUpTo(before, items, i - 1)
    ensures var u := items[i - 1];
      LinkedUpTo(before.(adj := before.adj[u.name := PersonNames(u.friends)]), items, i)
  {
    var u := items[i - 1];
    var m := before.adj[u.name := PersonNames(u.friends)];
    forall k | 0 <= k < |items|
      ensures items[k].name in m
      ensures m[items[k].name] == if k < i then PersonNames(items[k].friends) else []
    {
      if k != i - 1 {
        NamesDiffer(items, k, i - 1);
        assert m[items[k].name] == before.adj[items[k].name];
      }
    }
  }

  lemma NamesDiffer(items: seq<User>, k: nat, m: nat)
    requires Distinct(UserNames(items)) && k < |items| && m < |items| && k != m
    ensures items[k].name != items[m].name
  {
    assert UserNames(items)[k] == items[k].name && UserNames(items)[m] == items[m].name;
  }

  lemma {:induction false} LinkFresh(g1: Digraph, items: seq<User>, i: nat)
    requires Distinct(UserNames(items)) && FriendsListed(items) && i <= |items|
    requires LinkedUpTo(g1, items, 0)
    ensures LinkedUpTo(Link(g1, UserNames(items)[..i], items), items, i)
  {
    if i > 0 {
      LinkFresh(g1, items, i - 1);
      LinkUnfold(g1, items, i);
      LinkOne(Link(g1, UserNames(items)[..i - 1], items), items, i);
    }
  }

  /** On a graph and node list that start empty, with distinct user names whose
      friends are all users, the graph's nodes are the user names in order and the
      successors of each user are its friends' names in friend order. */
  lemma FreshGraph(items: seq<User>)
    requires Distinct(UserNames(items)) && FriendsListed(items)
    ensures var g := Built(Empty, [], items);
      WellFormed(g) && g.order == UserNames(items) &&
      forall i :: 0 <= i < |items| ==>
        items[i].name in g.adj && g.adj[items[i].name] == PersonNames(items[i].friends)
  {
    var names := UserNames(items);
    assert [] + names == names;
    AddNamesFresh(names);
    var g1 := AddNames(Empty, names);
    assert LinkedUpTo(g1, items, 0) by {
      forall k | 0 <= k < |items| ensures items[k].name in g1.adj {
        assert names[k] == items[k].name;
      }
    }
    LinkFresh(g1, items, |items|);
    assert names[..|items|] == names;
  }

  /** `e${index}`: the decimal digits of the index. */
  function DigitChar(d: nat): char
    requires d < 10
  {
    (48 + d) as char
  }

  function DecimalString(n: nat): (s: string)
    ensures |s| >= 1
  {
    if n < 10 then [DigitChar(n)] else DecimalString(n / 10) + [DigitChar(n % 10)]
  }

  /** Reads decimal digits back into the number they spell. */
  function DecimalValue(s: string): int {
    if s == [] then 0 else DecimalValue(s[..|s| - 1]) * 10 + (s[|s| - 1] as int - 48)
  }

  lemma {:induction false} DecimalRoundTrip(n: nat)
    ensures DecimalValue(DecimalString(n)) == n
  {
    if n >= 10 {
      DecimalRoundTrip(n / 10);
      var s := DecimalString(n);
      assert s[..|s| - 1] == DecimalString(n / 10);
    }
  }

  function EdgeId(index: nat): string {
    "e" + DecimalString(index)
  }

  /** Different positions give different edge ids. */
  lemma EdgeIdInjective(i: nat, j: nat)
    requires EdgeId(i) == EdgeId(j)
    ensures i == j
  {
    assert EdgeId(i)[1..] == DecimalString(i);
    assert EdgeId(j)[1..] == DecimalString(j);
    DecimalRoundTrip(i);
    DecimalRoundTrip(j);
  }

  /** Both endpoints of every pair are listed users; otherwise the lookups
      yield -1 and `.name` of undefined throws. */
  predicate Listed(users: seq<User>, rels: seq<Relation>) {
    forall r :: r in rels ==> r.userId in UserIds(users) && r.friendId in UserIds(users)
  }

  function NameOf(users: seq<User>, id: int): string
    requires id in UserIds(users)
  {
    users[IndexOf(UserIds(users), id)].name
  }

  function EdgeElements(users: seq<User>, rels: seq<Relation>): seq<Element>
    requires Listed(users, rels)
  {
    seq(|rels|, i requires 0 <= i < |rels| =>
      EdgeElement(EdgeId(i), NameOf(users, rels[i].userId), NameOf(users, rels[i].friendId)))
  }

  method AddEdgesToVisualization(myNodes: JsArray<Element>, finalUsers: seq<User>, relations: seq<Relation>)
    returns (allData: JsArray<Element>)
    requires Listed(finalUsers, relations)
    modifies myNodes
    ensures allData == myNodes
    ensures myNodes.elems == old(myNodes.elems) + EdgeElements(finalUsers, relations)
  {
    allData := myNodes;
    for index := 0 to |relations|
      invariant allData == myNodes
      invariant myNodes.elems == old(myNodes.elems) + EdgeElements(finalUsers, relations)[..index]
    {
      var rA := relations[index];
      var userIdIndex := IndexOf(UserIds(finalUsers), rA.userId);
      var friendIdIndex := IndexOf(UserIds(finalUsers), rA.friendId);
      assert EdgeElements(finalUsers, relations)[..index + 1] ==
             EdgeElements(finalUsers, relations)[..index] + [EdgeElements(finalUsers, relations)[index]];
      allData.Push(EdgeElement(EdgeId(index), finalUsers[userIdIndex].name, finalUsers[friendIdIndex].name));
    }
  }

  /** One edge per pair, in pair order: edge ids are pairwise distinct and every
      edge joins two node elements of the users. */
  lemma EdgeElementsSound(users: seq<User>, rels: seq<Relation>)
    requires Listed(users, rels)
    ensures var es := EdgeElements(users, rels);
      |es| == |rels| &&
      (forall i, j :: 0 <= i < j < |es| ==> es[i].id != es[j].id) &&
      forall i :: 0 <= i < |es| ==>
        es[i].EdgeElement? &&
        NodeElement(es[i].source) in NodeElements(UserNames(users)) &&
        NodeElement(es[i].target) in NodeElements(UserNames(users))
  {
    var es := EdgeElements(users, rels);
    forall i, j | 0 <= i < j < |es| ensures es[i].id != es[j].id {
      if es[i].id == es[j].id {
        EdgeIdInjective(i, j);
      }
    }
    forall i | 0 <= i < |es|
      ensures NodeElement(es[i].source) in NodeElements(UserNames(users))
      ensures NodeElement(es[i].target) in NodeElements(UserNames(users))
    {
      var a := IndexOf(UserIds(users), rels[i].userId);
      var b := IndexOf(UserIds(users), rels[i].friendId);
      assert NodeElements(UserNames(users))[a] == NodeElement(es[i].source);
      assert NodeElements(UserNames(users))[b] == NodeElement(es[i].target);
    }
  }
}
