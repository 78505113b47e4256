/** The view model the 3D knowledge-graph component derives from a graph
    (nasa-space-biology/components/graph-3d.tsx): one coloured, sized node per
    graph node, one edge per graph edge whose two ends exist, and a legend of
    the communities ordered by size. */
module GraphView {
  import opened Wrappers
  import opened Ordering

  /** The ten community colours, used cyclically. */
  const PALETTE: seq<string> := [
    "#38bdf8", "#a855f7", "#f97316", "#22d3ee", "#facc15",
    "#f472b6", "#34d399", "#c084fc", "#2dd4bf", "#f87171"
  ]

  /** A node of the knowledge graph (`labelText` is its `label`, a word
      Dafny reserves); community and degree may be missing. */
  datatype GraphNode = GraphNode(id: string, labelText: string, community: Option<int>, degree: Option<int>)

  /** An edge of the knowledge graph, naming its ends by node id. */
  datatype GraphEdge = GraphEdge(id: string, source: string, target: string, weight: Option<int>)

  /** A node as drawn: the graph node with its display name, group, size and
      colour. */
  datatype VisualNode = VisualNode(node: GraphNode, name: string, group: int, val: int, color: string)

  /** An edge as drawn: its two ends resolved to visual nodes, and its
      size. */
  datatype VisualEdge = VisualEdge(id: string, source: VisualNode, target: VisualNode, weight: Option<int>, value: int)

  /** One legend line: a community, its colour and how many nodes it has. */
  datatype LegendEntry = LegendEntry(group: int, color: string, count: nat)

  /** `node.community ?? -1`. */
  function GroupOf(node: GraphNode): int {
    node.community.GetOr(-1)
  }

  /** `nextColor`: the palette entry for the `index`-th community. */
  function NextColor(index: nat): string {
    PALETTE[index % |PALETTE|]
  }

  /** `Math.max(1, x ?? 1)`: the given size when it is above one, otherwise
      one. */
  function Size(x: Option<int>): (v: int)
    ensures v >= 1
    ensures x.Some? && x.value >= 1 ==> v == x.value
    ensures x.None? || x.value < 1 ==> v == 1
  {
    var d := x.GetOr(1);
    if d > 1 then d else 1
  }

  // -------------------------------------------------------------------------
  // Communities

  /** The distinct groups of the first `n` nodes in the order they first
      appear: the insertion order of `communitySet`. */
  function GroupsUpTo(nodes: seq<GraphNode>, n: nat): seq<int>
    requires n <= |nodes|
  {
    if n == 0 then []
    else
      var gs := GroupsUpTo(nodes, n - 1);
      var g := GroupOf(nodes[n - 1]);
      if g in gs then gs else gs + [g]
  }

  /** Each group is listed once, and the list holds exactly the groups some
      of the first `n` nodes have. */
  lemma {:induction false} GroupsUpToFacts(nodes: seq<GraphNode>, n: nat)
    requires n <= |nodes|
    ensures NoDuplicates(GroupsUpTo(nodes, n))
    ensures forall g :: g in GroupsUpTo(nodes, n) <==> exists k :: 0 <= k < n && GroupOf(nodes[k]) == g
  {
    if n > 0 {
      GroupsUpToFacts(nodes, n - 1);
      var gs := GroupsUpTo(nodes, n - 1);
      var g := GroupOf(nodes[n - 1]);
      if g !in gs {
        NoDuplicatesAppend(gs, [g]);
        assert forall h :: h in gs + [g] <==> h in gs || h == g;
      }
    }
  }

  /** The communities of the whole graph, in first-appearance order. */
  function Groups(nodes: seq<GraphNode>): seq<int> {
    GroupsUpTo(nodes, |nodes|)
  }

  /** A later group is listed after an earlier one: every node of the
      `l`-th group is preceded by a node of the `k`-th group, for `k < l`. */
  lemma {:induction false} GroupsFirstAppearance(nodes: seq<GraphNode>, n: nat, k: nat, l: nat, j: nat)
    requires n <= |nodes|
    requires k < l < |GroupsUpTo(nodes, n)|
    requires j < n && GroupOf(nodes[j]) == GroupsUpTo(nodes, n)[l]
    ensures exists i :: 0 <= i < j && GroupOf(nodes[i]) == GroupsUpTo(nodes, n)[k]
  {
    var gs, prev := GroupsUpTo(nodes, n), GroupsUpTo(nodes, n - 1);
    GroupsUpToFacts(nodes, n - 1);
    if l < |prev| {
      assert gs[k] == prev[k] && gs[l] == prev[l];
      if j < n - 1 {
        GroupsFirstAppearance(nodes, n - 1, k, l, j);
      } else {
        assert prev[l] in prev;
        var j' :| 0 <= j' < n - 1 && GroupOf(nodes[j']) == prev[l];
        GroupsFirstAppearance(nodes, n - 1, k, l, j');
      }
    } else {
      assert gs == prev + [GroupOf(nodes[n - 1])] && gs[l] !in prev;
      assert j == n - 1;
      assert gs[k] == prev[k] && prev[k] in prev;
    }
  }

  /** The groups of a prefix are a prefix of the groups. */
  lemma {:induction false} GroupsPrefix(nodes: seq<GraphNode>, m: nat, n: nat)
    requires m <= n <= |nodes|
    ensures |GroupsUpTo(nodes, m)| <= |GroupsUpTo(nodes, n)|
    ensures GroupsUpTo(nodes, m) == GroupsUpTo(nodes, n)[..|GroupsUpTo(nodes, m)|]
  {
    if m < n {
      GroupsPrefix(nodes, m, n - 1);
      var prev := GroupsUpTo(nodes, n - 1);
      assert GroupsUpTo(nodes, n)[..|prev|] == prev;
    }
  }

  /** How many of the first `n` nodes belong to group `g`. */
  function CountUpTo(nodes: seq<GraphNode>, n: nat, g: int): nat
    requires n <= |nodes|
  {
    if n == 0 then 0
    else CountUpTo(nodes, n - 1, g) + (if GroupOf(nodes[n - 1]) == g then 1 else 0)
  }

  /** A group has no node among the first `n` exactly when its count there
      is zero. */
  lemma {:induction false} CountZero(nodes: seq<GraphNode>, n: nat, g: int)
    requires n <= |nodes|
    ensures CountUpTo(nodes, n, g) == 0 <==> forall k :: 0 <= k < n ==> GroupOf(nodes[k]) != g
  {
    if n > 0 {
      CountZero(nodes, n - 1, g);
    }
  }

  /** The position of `x` in `xs`, or `|xs|` when absent. */
  function IndexOf(xs: seq<int>, x: int): (i: nat)
    ensures i <= |xs|
    ensures i < |xs| <==> x in xs
    ensures i < |xs| ==> xs[i] == x
  {
    if xs == [] then 0
    else if xs[0] == x then 0
    else 1 + IndexOf(xs[1..], x)
  }

  /** No earlier position holds `x`. */
  lemma {:induction false} IndexOfFirst(xs: seq<int>, x: int)
    ensures forall j :: 0 <= j < IndexOf(xs, x) ==> xs[j] != x
  {
    if xs != [] && xs[0] != x {
      IndexOfFirst(xs[1..], x);
    }
  }

  /** In a sequence without repetition, an element's index is where it
      stands. */
  lemma IndexOfAt(xs: seq<int>, k: nat)
    requires NoDuplicates(xs) && k < |xs|
    ensures IndexOf(xs, xs[k]) == k
  {
    IndexOfFirst(xs, xs[k]);
  }

  /** Appending leaves the index of an element already present
      unchanged. */
  lemma IndexOfAppend(xs: seq<int>, y: int, x: int)
    requires x in xs
    ensures IndexOf(xs + [y], x) == IndexOf(xs, x)
  {
    var i, j := IndexOf(xs, x), IndexOf(xs + [y], x);
    IndexOfFirst(xs, x);
    IndexOfFirst(xs + [y], x);
    assert (xs + [y])[i] == x;
    if j < i {
      assert xs[j] == (xs + [y])[j];
    }
  }

  // -------------------------------------------------------------------------
  // Nodes

  /** A node as drawn, given the communities in first-appearance order: its
      label as name, its group, its degree as size, and the palette entry of
      its group's position as colour. */
  function NodeView(node: GraphNode, gs: seq<int>): (v: VisualNode)
    ensures v.node == node && v.name == node.labelText && v.group == GroupOf(node)
    ensures v.val >= 1 && v.color in PALETTE
  {
    VisualNode(node, node.labelText, GroupOf(node), Size(node.degree), NextColor(IndexOf(gs, GroupOf(node))))
  }

  /** The `k`-th visual node. */
  function VisualNodeOf(nodes: seq<GraphNode>, k: nat): (v: VisualNode)
    requires k < |nodes|
    ensures v.node == nodes[k] && v.group in Groups(nodes) && v.color in PALETTE
  {
    GroupsUpToFacts(nodes, |nodes|);
    NodeView(nodes[k], Groups(nodes))
  }

  /** The `k`-th community in first-appearance order is coloured
      `PALETTE[k mod 10]`, on every node of that community; and every node
      is named by its label and sized at least one. */
  lemma NodeColors(nodes: seq<GraphNode>)
    ensures forall k, i :: 0 <= k < |Groups(nodes)| && 0 <= i < |nodes| && GroupOf(nodes[i]) == Groups(nodes)[k] ==>
              VisualNodeOf(nodes, i).color == PALETTE[k % 10]
    ensures forall i :: 0 <= i < |nodes| ==>
              VisualNodeOf(nodes, i).name == nodes[i].labelText && VisualNodeOf(nodes, i).val >= 1
              && VisualNodeOf(nodes, i).group == GroupOf(nodes[i])
  {
    var gs := Groups(nodes);
    GroupsUpToFacts(nodes, |nodes|);
    forall k, i | 0 <= k < |gs| && 0 <= i < |nodes| && GroupOf(nodes[i]) == gs[k]
      ensures VisualNodeOf(nodes, i).color == PALETTE[k % 10]
    {
      IndexOfAt(gs, k);
    }
  }

  /** A node's colour is fixed when the node is visited: its group's
      position among the groups seen so far is its final position. */
  lemma ViewIsFinal(nodes: seq<GraphNode>, i: nat)
    requires i < |nodes|
    ensures NodeView(nodes[i], GroupsUpTo(nodes, i + 1)) == VisualNodeOf(nodes, i)
  {
    var gs, all := GroupsUpTo(nodes, i + 1), Groups(nodes);
    var g := GroupOf(nodes[i]);
    GroupsPrefix(nodes, i + 1, |nodes|);
    GroupsUpToFacts(nodes, i + 1);
    GroupsUpToFacts(nodes, |nodes|);
    var k := IndexOf(gs, g);
    assert all[k] == g;
    IndexOfAt(gs, k);
    IndexOfAt(all, k);
  }

  /** The registry `communitySet` after the first `i` nodes: the groups in
      insertion order, each with the palette colour of its position and its
      node count so far. */
  ghost predicate Registry(nodes: seq<GraphNode>, i: nat, order: seq<int>, colors: map<int, string>, counts: map<int, nat>)
    requires i <= |nodes|
  {
    && order == GroupsUpTo(nodes, i)
    && (forall g :: g in colors <==> g in order)
    && (forall g :: g in counts <==> g in order)
    && (forall k :: 0 <= k < |order| ==> order[k] in colors && colors[order[k]] == NextColor(k))
    && (forall g :: g in counts ==> counts[g] == CountUpTo(nodes, i, g))
  }

  /** One turn of the node loop on the registry: registers the node's group
      with the next palette colour if it is new, and counts the node. */
  method Register(nodes: seq<GraphNode>, i: nat, order: seq<int>, colors: map<int, string>, counts: map<int, nat>)
    returns (order': seq<int>, colors': map<int, string>, counts': map<int, nat>)
    requires i < |nodes| && Registry(nodes, i, order, colors, counts)
    ensures Registry(nodes, i + 1, order', colors', counts')
  {
    var group := GroupOf(nodes[i]);
    GroupsUpToFacts(nodes, i);
    order', colors', counts' := order, colors, counts;
    if group !in colors' {
      CountZero(nodes, i, group);
      colors' := colors'[group := NextColor(|order'|)];
      counts' := counts'[group := 0];
      order' := order' + [group];
    }
    counts' := counts'[group := counts'[group] + 1];
  }

  /** Once a node is registered, the colour stored for its group is the one
      its visual node gets. */
  lemma RegisteredColour(nodes: seq<GraphNode>, i: nat, order: seq<int>, colors: map<int, string>, counts: map<int, nat>)
    requires i < |nodes| && Registry(nodes, i + 1, order, colors, counts)
    ensures GroupOf(nodes[i]) in colors && colors[GroupOf(nodes[i])] == VisualNodeOf(nodes, i).color
  {
    var group := GroupOf(nodes[i]);
    GroupsUpToFacts(nodes, i + 1);
    assert group in order;
    assert order[IndexOf(order, group)] == group;
    ViewIsFinal(nodes, i);
  }

  /** The node loop of the component: maps each node to its visual node while
      registering each new group in `communitySet` with the next palette
      colour and counting the group's nodes. Returns the registry's key order,
      colours and counts. */
  method ColourNodes(nodes: seq<GraphNode>)
    returns (vnodes: seq<VisualNode>, order: seq<int>, colors: map<int, string>, counts: map<int, nat>)
    ensures |vnodes| == |nodes|
    ensures forall k :: 0 <= k < |nodes| ==> vnodes[k] == VisualNodeOf(nodes, k)
    ensures Registry(nodes, |nodes|, order, colors, counts)
  {
    vnodes, order, colors, counts := [], [], map[], map[];
    for i := 0 to |nodes|
      invariant |vnodes| == i
      invariant forall k :: 0 <= k < i ==> vnodes[k] == VisualNodeOf(nodes, k)
      invariant Registry(nodes, i, order, colors, counts)
    {
      var node := nodes[i];
      var group := GroupOf(node);
      order, colors, counts := Register(nodes, i, order, colors, counts);
      RegisteredColour(nodes, i, order, colors, counts);
      vnodes := vnodes + [VisualNode(node, node.labelText, group, Size(node.degree), colors[group])];
    }
  }

  // -------------------------------------------------------------------------
  // Edges

  /** `nodeById` over the first `n` visual nodes: built in node order, so a
      later node with the same id replaces an earlier one. */
  function ByIdUpTo(vnodes: seq<VisualNode>, n: nat): map<string, VisualNode>
    requires n <= |vnodes|
  {
    if n == 0 then map[] else ByIdUpTo(vnodes, n - 1)[vnodes[n - 1].node.id := vnodes[n - 1]]
  }

  /** `nodeById` knows exactly the ids of the nodes. */
  lemma {:induction false} ByIdKeys(vnodes: seq<VisualNode>, n: nat)
    requires n <= |vnodes|
    ensures forall id :: id in ByIdUpTo(vnodes, n) <==> exists k :: 0 <= k < n && vnodes[k].node.id == id
  {
    if n > 0 {
      ByIdKeys(vnodes, n - 1);
    }
  }

  /** `nodeById` maps each id to the last node that has it. */
  lemma {:induction false} ByIdLastWins(vnodes: seq<VisualNode>, n: nat)
    requires n <= |vnodes|
    ensures forall id :: id in ByIdUpTo(vnodes, n) ==>
              exists k :: 0 <= k < n && ByIdUpTo(vnodes, n)[id] == vnodes[k] && vnodes[k].node.id == id
                          && forall j :: k < j < n ==> vnodes[j].node.id != id
  {
    if n > 0 {
      ByIdLastWins(vnodes, n - 1);
      var m := ByIdUpTo(vnodes, n);
      forall id | id in m
        ensures exists k :: 0 <= k < n && m[id] == vnodes[k] && vnodes[k].node.id == id
                            && forall j :: k < j < n ==> vnodes[j].node.id != id
      {
        if id == vnodes[n - 1].node.id {
          assert m[id] == vnodes[n - 1];
        } else {
          assert id in ByIdUpTo(vnodes, n - 1);
          var k :| 0 <= k < n - 1 && ByIdUpTo(vnodes, n - 1)[id] == vnodes[k] && vnodes[k].node.id == id
                   && forall j :: k < j < n - 1 ==> vnodes[j].node.id != id;
          assert m[id] == vnodes[k];
        }
      }
    }
  }

  /** `nodeById` over all visual nodes. */
  function ById(vnodes: seq<VisualNode>): map<string, VisualNode> {
    ByIdUpTo(vnodes, |vnodes|)
  }

  /** The drawn edge for `e`, when both its ends are known ids. */
  function EdgeOf(e: GraphEdge, byId: map<string, VisualNode>): (r: Option<VisualEdge>)
    ensures r.Some? <==> e.source in byId && e.target in byId
    ensures r.Some? ==> r.value.id == e.id && r.value.weight == e.weight && r.value.value >= 1
    ensures r.Some? ==> r.value.source == byId[e.source] && r.value.target == byId[e.target]
  {
    if e.source in byId && e.target in byId then
      Some(VisualEdge(e.id, byId[e.source], byId[e.target], e.weight, Size(e.weight)))
    else None
  }

  /** The drawn edges for the first `n` edges, in edge order. */
  function KeptEdgesUpTo(edges: seq<GraphEdge>, n: nat, byId: map<string, VisualNode>): seq<VisualEdge>
    requires n <= |edges|
  {
    if n == 0 then []
    else
      match EdgeOf(edges[n - 1], byId)
      case Some(ve) => KeptEdgesUpTo(edges, n - 1, byId) + [ve]
      case None => KeptEdgesUpTo(edges, n - 1, byId)
  }

  /** There are no more drawn edges than edges, and each is sized at least
      one. */
  lemma {:induction false} KeptEdgesSized(edges: seq<GraphEdge>, n: nat, byId: map<string, VisualNode>)
    requires n <= |edges|
    ensures |KeptEdgesUpTo(edges, n, byId)| <= n
    ensures forall ve :: ve in KeptEdgesUpTo(edges, n, byId) ==> ve.value >= 1
  {
    if n > 0 {
      KeptEdgesSized(edges, n - 1, byId);
    }
  }

  /** The drawn edges are exactly the edges whose ends are both known; none
      is made up. */
  lemma {:induction false} KeptEdgesMembers(edges: seq<GraphEdge>, n: nat, byId: map<string, VisualNode>)
    requires n <= |edges|
    ensures forall ve :: ve in KeptEdgesUpTo(edges, n, byId) ==>
              exists k :: 0 <= k < n && EdgeOf(edges[k], byId) == Some(ve)
    ensures forall k :: 0 <= k < n && edges[k].source in byId && edges[k].target in byId ==>
              EdgeOf(edges[k], byId).value in KeptEdgesUpTo(edges, n, byId)
  {
    if n > 0 {
      KeptEdgesMembers(edges, n - 1, byId);
    }
  }

  /** The ids `nodeById` knows are the ids of the nodes. */
  lemma ByIdDomain(nodes: seq<GraphNode>, vnodes: seq<VisualNode>, id: string)
    requires |vnodes| == |nodes| && forall k :: 0 <= k < |nodes| ==> vnodes[k].node == nodes[k]
    ensures id in ById(vnodes) <==> exists i :: 0 <= i < |nodes| && nodes[i].id == id
  {
    ByIdKeys(vnodes, |vnodes|);
    if exists i :: 0 <= i < |nodes| && nodes[i].id == id {
      var i :| 0 <= i < |nodes| && nodes[i].id == id;
      assert vnodes[i].node.id == id;
    }
  }

  /** The node `nodeById` gives for a known id carries that id, and no later
      node does. */
  lemma ByIdLast(nodes: seq<GraphNode>, vnodes: seq<VisualNode>, id: string)
    requires |vnodes| == |nodes| && forall k :: 0 <= k < |nodes| ==> vnodes[k].node == nodes[k]
    requires id in ById(vnodes)
    ensures ById(vnodes)[id].node.id == id
    ensures forall j :: 0 <= j < |nodes| && nodes[j].id == id ==>
              ById(vnodes)[id].node == nodes[j] || exists l :: j < l < |nodes| && ById(vnodes)[id].node == nodes[l]
  {
    ByIdLastWins(vnodes, |vnodes|);
    var k :| 0 <= k < |vnodes| && ById(vnodes)[id] == vnodes[k] && vnodes[k].node.id == id
             && forall j :: k < j < |vnodes| ==> vnodes[j].node.id != id;
    forall j | 0 <= j < |nodes| && nodes[j].id == id
      ensures ById(vnodes)[id].node == nodes[j] || exists l :: j < l < |nodes| && ById(vnodes)[id].node == nodes[l]
    {
      if j < k {
        assert ById(vnodes)[id].node == nodes[k];
      }
    }
  }

  /** An edge is drawn exactly when both of its ids belong to some node, and
      its ends are the last nodes with those ids. */
  lemma EdgeKeptIff(nodes: seq<GraphNode>, vnodes: seq<VisualNode>, e: GraphEdge)
    requires |vnodes| == |nodes| && forall k :: 0 <= k < |nodes| ==> vnodes[k] == VisualNodeOf(nodes, k)
    ensures EdgeOf(e, ById(vnodes)).Some? <==>
              (exists i :: 0 <= i < |nodes| && nodes[i].id == e.source) &&
              (exists j :: 0 <= j < |nodes| && nodes[j].id == e.target)
    ensures EdgeOf(e, ById(vnodes)).Some? ==>
              var ve := EdgeOf(e, ById(vnodes)).value;
              ve.source.node.id == e.source && ve.target.node.id == e.target
              && (forall j :: 0 <= j < |nodes| && nodes[j].id == e.source ==> ve.source.node == nodes[j] || exists l :: j < l < |nodes| && ve.source.node == nodes[l])
              && (forall j :: 0 <= j < |nodes| && nodes[j].id == e.target ==> ve.target.node == nodes[j] || exists l :: j < l < |nodes| && ve.target.node == nodes[l])
  {
    assert forall k :: 0 <= k < |nodes| ==> vnodes[k].node == nodes[k];
    ByIdDomain(nodes, vnodes, e.source);
    ByIdDomain(nodes, vnodes, e.target);
    if e.source in ById(vnodes) && e.target in ById(vnodes) {
      ByIdLast(nodes, vnodes, e.source);
      ByIdLast(nodes, vnodes, e.target);
    }
  }

  /** `nodeById`: one entry per node, in node order. */
  method IndexById(vnodes: seq<VisualNode>) returns (byId: map<string, VisualNode>)
    ensures byId == ById(vnodes)
  {
    byId := map[];
    for i := 0 to |vnodes|
      invariant byId == ByIdUpTo(vnodes, i)
    {
      byId := byId[vnodes[i].node.id := vnodes[i]];
    }
  }

  /** The edge loop of the component: an edge whose source or target id is
      unknown is skipped, every other one is pushed with its ends resolved. */
  method KeepEdges(edges: seq<GraphEdge>, byId: map<string, VisualNode>) returns (vedges: seq<VisualEdge>)
    ensures vedges == KeptEdgesUpTo(edges, |edges|, byId)
  {
    vedges := [];
    for i := 0 to |edges|
      invariant vedges == KeptEdgesUpTo(edges, i, byId)
    {
      var edge := edges[i];
      if edge.source !in byId || edge.target !in byId {
        continue;
      }
      var sourceNode, targetNode := byId[edge.source], byId[edge.target];
      vedges := vedges + [VisualEdge(edge.id, sourceNode, targetNode, edge.weight, Size(edge.weight))];
    }
  }

  // -------------------------------------------------------------------------
  // Legend

  /** The entries of `communitySet` after the first `n` nodes, in insertion
      order: each group with its colour and node count. */
  function EntriesUpTo(nodes: seq<GraphNode>, n: nat): seq<LegendEntry>
    requires n <= |nodes|
  {
    var gs := GroupsUpTo(nodes, n);
    seq(|gs|, k requires 0 <= k < |gs| => LegendEntry(gs[k], NextColor(k), CountUpTo(nodes, n, gs[k])))
  }

  /** The entries after all nodes. */
  function Entries(nodes: seq<GraphNode>): seq<LegendEntry> {
    EntriesUpTo(nodes, |nodes|)
  }

  /** The sum of the counts. */
  function Total(xs: seq<LegendEntry>): nat {
    if xs == [] then 0 else xs[0].count + Total(xs[1..])
  }

  lemma {:induction false} TotalAppend(xs: seq<LegendEntry>, x: LegendEntry)
    ensures Total(xs + [x]) == Total(xs) + x.count
  {
    if xs != [] {
      assert (xs + [x])[1..] == xs[1..] + [x];
      TotalAppend(xs[1..], x);
    }
  }

  /** Raising one count by one raises the sum by one. */
  lemma {:induction false} TotalBump(xs: seq<LegendEntry>, ys: seq<LegendEntry>, i: nat)
    requires |xs| == |ys| && i < |xs|
    requires forall k :: 0 <= k < |xs| && k != i ==> xs[k].count == ys[k].count
    requires ys[i].count == xs[i].count + 1
    ensures Total(ys) == Total(xs) + 1
  {
    if i > 0 {
      TotalBump(xs[1..], ys[1..], i - 1);
    } else {
      TotalSame(xs[1..], ys[1..]);
    }
  }

  lemma {:induction false} TotalSame(xs: seq<LegendEntry>, ys: seq<LegendEntry>)
    requires |xs| == |ys| && forall k :: 0 <= k < |xs| ==> xs[k].count == ys[k].count
    ensures Total(ys) == Total(xs)
  {
    if xs != [] {
      TotalSame(xs[1..], ys[1..]);
    }
  }

  /** Every node is counted in exactly one entry: the counts sum to the
      number of nodes. */
  lemma {:induction false} EntriesTotal(nodes: seq<GraphNode>, n: nat)
    requires n <= |nodes|
    ensures Total(EntriesUpTo(nodes, n)) == n
  {
    if n > 0 {
      EntriesTotal(nodes, n - 1);
      GroupsUpToFacts(nodes, n - 1);
      if GroupOf(nodes[n - 1]) in GroupsUpTo(nodes, n - 1) {
        EntriesStepSeen(nodes, n);
      } else {
        EntriesStepNew(nodes, n);
      }
    }
  }

  /** A node of a known community raises that community's count by one. */
  lemma EntriesStepSeen(nodes: seq<GraphNode>, n: nat)
    requires 0 < n <= |nodes|
    requires NoDuplicates(GroupsUpTo(nodes, n - 1))
    requires GroupOf(nodes[n - 1]) in GroupsUpTo(nodes, n - 1)
    ensures Total(EntriesUpTo(nodes, n)) == Total(EntriesUpTo(nodes, n - 1)) + 1
  {
    var prev, cur := EntriesUpTo(nodes, n - 1), EntriesUpTo(nodes, n);
    var gs := GroupsUpTo(nodes, n - 1);
    var g := GroupOf(nodes[n - 1]);
    var i := IndexOf(gs, g);
    forall k | 0 <= k < |prev| && k != i ensures prev[k].count == cur[k].count {
      assert gs[k] != g by {
        IndexOfAt(gs, k);
      }
    }
    TotalBump(prev, cur, i);
  }

  /** A node of a new community adds an entry with count one. */
  lemma EntriesStepNew(nodes: seq<GraphNode>, n: nat)
    requires 0 < n <= |nodes|
    requires GroupOf(nodes[n - 1]) !in GroupsUpTo(nodes, n - 1)
    requires forall k :: 0 <= k < n - 1 ==> GroupOf(nodes[k]) != GroupOf(nodes[n - 1])
    ensures Total(EntriesUpTo(nodes, n)) == Total(EntriesUpTo(nodes, n - 1)) + 1
  {
    var prev, cur := EntriesUpTo(nodes, n - 1), EntriesUpTo(nodes, n);
    var gs, g := GroupsUpTo(nodes, n - 1), GroupOf(nodes[n - 1]);
    assert GroupsUpTo(nodes, n) == gs + [g];
    CountZero(nodes, n - 1, g);
    var head := cur[..|gs|];
    forall k | 0 <= k < |gs| ensures head[k].count == prev[k].count {
      assert gs[k] != g;
    }
    TotalSame(prev, head);
    TotalAppend(head, cur[|gs|]);
    assert cur == head + [cur[|gs|]];
  }

  /** `a` comes before `b` in the legend: more nodes first, and between equal
      counts the community that appeared first (the stable sort keeps the
      insertion order of `communitySet`). */
  predicate Before(a: LegendEntry, b: LegendEntry, gs: seq<int>) {
    a.count > b.count || (a.count == b.count && IndexOf(gs, a.group) < IndexOf(gs, b.group))
  }

  /** Every entry comes before every later one. */
  ghost predicate LegendOrdered(xs: seq<LegendEntry>, gs: seq<int>) {
    forall i, j :: 0 <= i < j < |xs| ==> Before(xs[i], xs[j], gs)
  }

  /** Puts `e` after every entry with at least its count. */
  function InsertByCount(e: LegendEntry, ys: seq<LegendEntry>): seq<LegendEntry> {
    if ys == [] then [e]
    else if ys[0].count >= e.count then [ys[0]] + InsertByCount(e, ys[1..])
    else [e] + ys
  }

  /** Inserting adds exactly the entry, and adds its count to the sum. */
  lemma {:induction false} InsertByCountAdds(e: LegendEntry, ys: seq<LegendEntry>)
    ensures multiset(InsertByCount(e, ys)) == multiset(ys) + multiset{e}
    ensures Total(InsertByCount(e, ys)) == Total(ys) + e.count
  {
    if ys != [] && ys[0].count >= e.count {
      InsertByCountAdds(e, ys[1..]);
      assert ys == [ys[0]] + ys[1..];
    }
  }

  /** Inserting an entry of a community that appeared after all those already
      in place keeps the legend ordered. */
  lemma {:induction false} InsertByCountOrdered(e: LegendEntry, ys: seq<LegendEntry>, gs: seq<int>)
    requires LegendOrdered(ys, gs)
    requires forall y :: y in ys ==> IndexOf(gs, y.group) < IndexOf(gs, e.group)
    ensures LegendOrdered(InsertByCount(e, ys), gs)
  {
    if ys == [] {
    } else if ys[0].count >= e.count {
      var t := ys[1..];
      assert forall j :: 0 <= j < |t| ==> t[j] == ys[j + 1];
      InsertByCountOrdered(e, t, gs);
      var r := InsertByCount(e, t);
      InsertByCountAdds(e, t);
      forall j | 0 <= j < |r| ensures Before(ys[0], r[j], gs) {
        assert r[j] in multiset(r);
        if r[j] != e {
          var m :| 0 <= m < |t| && t[m] == r[j];
          assert Before(ys[0], ys[m + 1], gs);
        }
      }
      ConsOrdered(ys[0], r, gs);
    } else {
      forall j | 0 <= j < |ys| ensures Before(e, ys[j], gs) {
        if j > 0 {
          assert Before(ys[0], ys[j], gs);
        }
      }
      ConsOrdered(e, ys, gs);
    }
  }

  /** An entry before every entry of an ordered legend can lead it. */
  lemma ConsOrdered(x: LegendEntry, r: seq<LegendEntry>, gs: seq<int>)
    requires LegendOrdered(r, gs)
    requires forall j :: 0 <= j < |r| ==> Before(x, r[j], gs)
    ensures LegendOrdered([x] + r, gs)
  {
    var xs := [x] + r;
    forall i, j | 0 <= i < j < |xs| ensures Before(xs[i], xs[j], gs) {
      if i > 0 {
        assert xs[i] == r[i - 1] && xs[j] == r[j - 1];
      }
    }
  }

  /** The first `k` registry entries, sorted: the same entries in legend
      order, with the same total. */
  ghost predicate SortedPrefix(entries: seq<LegendEntry>, gs: seq<int>, k: nat, legend: seq<LegendEntry>)
    requires k <= |entries|
  {
    && multiset(legend) == multiset(entries[..k])
    && LegendOrdered(legend, gs)
    && (forall y :: y in legend ==> IndexOf(gs, y.group) < k)
    && Total(legend) + Total(entries[k..]) == Total(entries)
  }

  /** Inserting the next registry entry extends the sorted prefix. */
  lemma SortStep(entries: seq<LegendEntry>, gs: seq<int>, k: nat, legend: seq<LegendEntry>)
    requires NoDuplicates(gs) && |entries| == |gs| && k < |entries|
    requires forall i :: 0 <= i < |entries| ==> entries[i].group == gs[i]
    requires SortedPrefix(entries, gs, k, legend)
    ensures SortedPrefix(entries, gs, k + 1, InsertByCount(entries[k], legend))
  {
    IndexOfAt(gs, k);
    InsertByCountOrdered(entries[k], legend, gs);
    SortStepContents(entries, k, legend);
    SortStepBound(entries[k], legend, gs, k);
  }

  /** Inserting the next entry adds it to the prefix's multiset and its count
      to the prefix's total. */
  lemma SortStepContents(entries: seq<LegendEntry>, k: nat, legend: seq<LegendEntry>)
    requires k < |entries|
    requires multiset(legend) == multiset(entries[..k])
    requires Total(legend) + Total(entries[k..]) == Total(entries)
    ensures multiset(InsertByCount(entries[k], legend)) == multiset(entries[..k + 1])
    ensures Total(InsertByCount(entries[k], legend)) + Total(entries[k + 1..]) == Total(entries)
  {
    InsertByCountAdds(entries[k], legend);
    assert entries[k..] == [entries[k]] + entries[k + 1..];
    assert entries[..k + 1] == entries[..k] + [entries[k]];
  }

  /** Every entry after inserting the `k`-th community belongs to one of the
      first `k + 1` communities. */
  lemma SortStepBound(e: LegendEntry, legend: seq<LegendEntry>, gs: seq<int>, k: nat)
    requires IndexOf(gs, e.group) == k
    requires forall y :: y in legend ==> IndexOf(gs, y.group) < k
    ensures forall y :: y in InsertByCount(e, legend) ==> IndexOf(gs, y.group) < k + 1
  {
    var r := InsertByCount(e, legend);
    InsertByCountAdds(e, legend);
    forall y | y in r ensures IndexOf(gs, y.group) < k + 1 {
      assert y in multiset(r);
    }
  }

  /** The legend sort: a stable sort of the entries by count, largest first,
      written as an insertion sort. */
  method SortLegend(entries: seq<LegendEntry>, gs: seq<int>) returns (legend: seq<LegendEntry>)
    requires NoDuplicates(gs) && |entries| == |gs|
    requires forall k :: 0 <= k < |entries| ==> entries[k].group == gs[k]
    ensures multiset(legend) == multiset(entries)
    ensures LegendOrdered(legend, gs)
    ensures Total(legend) == Total(entries)
  {
    legend := [];
    for k := 0 to |entries|
      invariant SortedPrefix(entries, gs, k, legend)
    {
      SortStep(entries, gs, k, legend);
      legend := InsertByCount(entries[k], legend);
    }
    assert entries[..|entries|] == entries;
  }

  /** The registry's entries: the `k`-th is the `k`-th community with the
      `k`-th palette colour and its node count, which is at least one; no
      entry repeats. */
  lemma EntriesFacts(nodes: seq<GraphNode>)
    ensures |Entries(nodes)| == |Groups(nodes)|
    ensures forall k :: 0 <= k < |Entries(nodes)| ==>
              && Entries(nodes)[k].group == Groups(nodes)[k]
              && Entries(nodes)[k].color == NextColor(k)
              && Entries(nodes)[k].count == CountUpTo(nodes, |nodes|, Groups(nodes)[k])
              && Entries(nodes)[k].count >= 1
    ensures NoDuplicates(Entries(nodes))
  {
    var gs, es := Groups(nodes), Entries(nodes);
    GroupsUpToFacts(nodes, |nodes|);
    forall k | 0 <= k < |es| ensures es[k].count >= 1 {
      assert gs[k] in gs;
      CountZero(nodes, |nodes|, gs[k]);
    }
    forall i, j | 0 <= i < j < |es| ensures es[i] != es[j] {
      assert es[i].group == gs[i] && es[j].group == gs[j];
    }
  }

  /** Counts never increase along an ordered legend. */
  lemma OrderedCountsDescend(xs: seq<LegendEntry>, gs: seq<int>)
    requires LegendOrdered(xs, gs)
    ensures forall i, j :: 0 <= i < j < |xs| ==> xs[i].count >= xs[j].count
  {
    forall i, j | 0 <= i < j < |xs| ensures xs[i].count >= xs[j].count {
      assert Before(xs[i], xs[j], gs);
    }
  }

  /** A registry entry carries its community's palette colour and node
      count, which is at least one. */
  lemma EntryValues(nodes: seq<GraphNode>, x: LegendEntry)
    requires x in multiset(Entries(nodes))
    ensures x.count == CountUpTo(nodes, |nodes|, x.group) && x.count >= 1
    ensures x.color == NextColor(IndexOf(Groups(nodes), x.group))
  {
    var gs, es := Groups(nodes), Entries(nodes);
    EntriesFacts(nodes);
    GroupsUpToFacts(nodes, |nodes|);
    var k :| 0 <= k < |es| && es[k] == x;
    IndexOfAt(gs, k);
  }

  /** Every legend line carries its community's palette colour and node
      count, which is at least one. */
  lemma LegendValues(nodes: seq<GraphNode>, legend: seq<LegendEntry>)
    requires multiset(legend) == multiset(Entries(nodes))
    ensures forall i :: 0 <= i < |legend| ==>
              && legend[i].count == CountUpTo(nodes, |nodes|, legend[i].group)
              && legend[i].count >= 1
              && legend[i].color == NextColor(IndexOf(Groups(nodes), legend[i].group))
  {
    forall i | 0 <= i < |legend|
      ensures legend[i].count == CountUpTo(nodes, |nodes|, legend[i].group) && legend[i].count >= 1
      ensures legend[i].color == NextColor(IndexOf(Groups(nodes), legend[i].group))
    {
      assert legend[i] in multiset(legend);
      EntryValues(nodes, legend[i]);
    }
  }

  /** The legend names exactly the communities. */
  lemma LegendCoversGroups(nodes: seq<GraphNode>, legend: seq<LegendEntry>)
    requires multiset(legend) == multiset(Entries(nodes))
    ensures forall g :: (exists i :: 0 <= i < |legend| && legend[i].group == g) <==> g in Groups(nodes)
  {
    EntriesFacts(nodes);
    PermutedGroups(Entries(nodes), legend, Groups(nodes));
  }

  /** A rearrangement of entries, the `k`-th of group `gs[k]`, names exactly
      the groups of `gs`. */
  lemma PermutedGroups(es: seq<LegendEntry>, legend: seq<LegendEntry>, gs: seq<int>)
    requires multiset(legend) == multiset(es)
    requires |es| == |gs| && forall k :: 0 <= k < |es| ==> es[k].group == gs[k]
    ensures forall g :: (exists i :: 0 <= i < |legend| && legend[i].group == g) <==> g in gs
  {
    forall g | g in gs ensures exists i :: 0 <= i < |legend| && legend[i].group == g {
      var k :| 0 <= k < |gs| && gs[k] == g;
      assert es[k] in multiset(legend);
      var i :| 0 <= i < |legend| && legend[i] == es[k];
    }
    forall g | exists i :: 0 <= i < |legend| && legend[i].group == g ensures g in gs {
      var i :| 0 <= i < |legend| && legend[i].group == g;
      assert legend[i] in multiset(es);
      var k :| 0 <= k < |es| && es[k] == legend[i];
    }
  }

  /** Rearranged entries of distinct groups still have distinct groups. */
  lemma PermutedGroupsDistinct(es: seq<LegendEntry>, legend: seq<LegendEntry>, gs: seq<int>)
    requires multiset(legend) == multiset(es)
    requires |es| == |gs| && NoDuplicates(gs)
    requires forall k :: 0 <= k < |es| ==> es[k].group == gs[k]
    ensures forall i, j :: 0 <= i < j < |legend| ==> legend[i].group != legend[j].group
  {
    assert NoDuplicates(es) by {
      forall i, j | 0 <= i < j < |es| ensures es[i] != es[j] {
        assert es[i].group == gs[i] && es[j].group == gs[j];
      }
    }
    PermutationNoDuplicates(es, legend);
    forall i, j | 0 <= i < j < |legend| ensures legend[i].group != legend[j].group {
      assert legend[i] in multiset(es) && legend[j] in multiset(es);
      var ki :| 0 <= ki < |es| && es[ki] == legend[i];
      var kj :| 0 <= kj < |es| && es[kj] == legend[j];
      assert ki != kj;
    }
  }

  /** No community has two legend lines. */
  lemma LegendGroupsDistinct(nodes: seq<GraphNode>, legend: seq<LegendEntry>)
    requires multiset(legend) == multiset(Entries(nodes))
    ensures forall i, j :: 0 <= i < j < |legend| ==> legend[i].group != legend[j].group
  {
    EntriesFacts(nodes);
    GroupsUpToFacts(nodes, |nodes|);
    PermutedGroupsDistinct(Entries(nodes), legend, Groups(nodes));
  }

  /** The memoised computation of the component: the visual nodes, the drawn
      edges and the legend. */
  method BuildView(nodes: seq<GraphNode>, edges: seq<GraphEdge>)
    returns (vnodes: seq<VisualNode>, vedges: seq<VisualEdge>, legend: seq<LegendEntry>)
    ensures |vnodes| == |nodes| && forall k :: 0 <= k < |nodes| ==> vnodes[k] == VisualNodeOf(nodes, k)
    ensures vedges == KeptEdgesUpTo(edges, |edges|, ById(vnodes))
    ensures multiset(legend) == multiset(Entries(nodes))
    ensures LegendOrdered(legend, Groups(nodes))
    ensures Total(legend) == |nodes|
  {
    var order, colors, counts;
    vnodes, order, colors, counts := ColourNodes(nodes);
    GroupsUpToFacts(nodes, |nodes|);
    var byId := IndexById(vnodes);
    vedges := KeepEdges(edges, byId);
    var entries := seq(|order|, k requires 0 <= k < |order| => LegendEntry(order[k], colors[order[k]], counts[order[k]]));
    assert entries == Entries(nodes);
    legend := SortLegend(entries, order);
    EntriesTotal(nodes, |nodes|);
  }
}
