/**
 * The editor's bookkeeping: the ordered list of node items, the ordered
 * list of edges, and the operations behind the toolbar buttons (add node,
 * add edge, delete, save, load) together with the two helpers loading
 * uses. Qt items are replaced by node identities, the line drawn for an
 * edge is dropped, the dialogs become parameters and returned statuses,
 * and the file becomes a `Data` value.
 */
module NoteGraphApp {
  import opened NoteText
  import opened GraphCodec

  /**
   * One entry of the scene's selection. Only node ellipses are made
   * selectable, so the selection only ever holds `NodeItem`s; `OtherItem`
   * stands for no item the program can select and only gives the
   * ellipse filter of `add_edge` something to drop.
   */
  datatype SceneItem = NodeItem(node: NodeId) | OtherItem

  /** The node ellipses among the selected items, in selection order. */
  function SelectedNodes(items: seq<SceneItem>): (r: seq<NodeId>)
    ensures |r| <= |items|
  {
    if items == [] then []
    else
      var last := |items| - 1;
      var rest := SelectedNodes(items[..last]);
      match items[last]
      case NodeItem(n) => rest + [n]
      case OtherItem => rest
  }

  /**
   * The selected nodes are exactly the nodes whose ellipse is selected, and
   * a selection without repeats lists each of them once.
   */
  lemma {:induction false} SelectedNodesShape(items: seq<SceneItem>)
    ensures forall n :: n in SelectedNodes(items) <==> NodeItem(n) in items
    ensures NoDup(items) ==> NoDup(SelectedNodes(items))
  {
    if items != [] {
      var last := |items| - 1;
      var front := items[..last];
      SelectedNodesShape(front);
      assert items == front + [items[last]];
      if NoDup(items) {
        assert NoDup(front);
        match items[last]
        case NodeItem(n) => {
          assert NodeItem(n) !in front;
          AppendFresh(SelectedNodes(front), n);
        }
        case OtherItem => {}
      }
    }
  }

  /** `s` with every element of `xs` filtered out, order kept. */
  function Without(s: seq<NodeId>, xs: seq<NodeId>): (r: seq<NodeId>)
    ensures |r| <= |s|
  {
    if s == [] then []
    else (if s[0] in xs then [] else [s[0]]) + Without(s[1..], xs)
  }

  /** What filtering keeps: exactly the elements of `s` not in `xs`. */
  lemma {:induction false} WithoutMembers(s: seq<NodeId>, xs: seq<NodeId>)
    ensures forall n :: n in Without(s, xs) <==> n in s && n !in xs
  {
    if s != [] {
      WithoutMembers(s[1..], xs);
      assert s == [s[0]] + s[1..];
    }
  }

  /** Filtering keeps a list free of repeats. */
  lemma {:induction false} WithoutKeepsNoDup(s: seq<NodeId>, xs: seq<NodeId>)
    requires NoDup(s)
    ensures NoDup(Without(s, xs))
  {
    if s != [] {
      WithoutKeepsNoDup(s[1..], xs);
      var rest := Without(s[1..], xs);
      if s[0] !in xs {
        WithoutMembers(s[1..], xs);
        assert s[0] !in s[1..];
        AppendFront(s[0], rest);
      }
    }
  }

  /** Putting an element not yet present in front keeps a list free of repeats. */
  lemma AppendFront(x: NodeId, s: seq<NodeId>)
    requires NoDup(s) && x !in s
    ensures NoDup([x] + s)
  {
    var t := [x] + s;
    forall i, j | 0 <= i < j < |t|
      ensures t[i] != t[j]
    {
      assert t[j] == s[j - 1];
      if i > 0 {
        assert t[i] == s[i - 1];
      }
    }
  }

  /** Python's `list.remove`: drop the first occurrence of `x`. */
  function RemoveFirst(s: seq<NodeId>, x: NodeId): (r: seq<NodeId>)
    requires x in s
    ensures IndexOf(s, x).Some?
    ensures r == s[..IndexOf(s, x).value] + s[IndexOf(s, x).value + 1..]
  {
    if s[0] == x then s[1..] else [s[0]] + RemoveFirst(s[1..], x)
  }

  /** In a list without repeats, removing the first `x` removes every `x`. */
  lemma {:induction false} RemoveFirstIsWithout(s: seq<NodeId>, x: NodeId)
    requires NoDup(s) && x in s
    ensures RemoveFirst(s, x) == Without(s, [x])
  {
    if s[0] != x {
      assert NoDup(s[1..]);
      RemoveFirstIsWithout(s[1..], x);
    } else {
      assert x !in s[1..];
      WithoutNothing(s[1..], [x]);
    }
  }

  /** Filtering out elements that do not occur changes nothing. */
  lemma {:induction false} WithoutNothing(s: seq<NodeId>, xs: seq<NodeId>)
    requires forall n :: n in xs ==> n !in s
    ensures Without(s, xs) == s
  {
    if s != [] {
      WithoutNothing(s[1..], xs);
    }
  }

  /** Filtering a concatenation filters each part. */
  lemma {:induction false} WithoutAppend(a: seq<NodeId>, b: seq<NodeId>, xs: seq<NodeId>)
    ensures Without(a + b, xs) == Without(a, xs) + Without(b, xs)
  {
    if a != [] {
      WithoutAppend(a[1..], b, xs);
      assert (a + b)[1..] == a[1..] + b;
    } else {
      assert a + b == b;
    }
  }

  /** Filtering out `xs` and then `x` is filtering out `xs + [x]`. */
  lemma {:induction false} WithoutThenOne(s: seq<NodeId>, xs: seq<NodeId>, x: NodeId)
    ensures Without(Without(s, xs), [x]) == Without(s, xs + [x])
  {
    if s != [] {
      var head := if s[0] in xs then [] else [s[0]];
      var rest := Without(s[1..], xs);
      assert Without(s, xs) == head + rest;
      WithoutAppend(head, rest, [x]);
      WithoutThenOne(s[1..], xs, x);
      assert s[0] in xs + [x] <==> s[0] in xs || s[0] == x;
      if head != [] {
        assert head[1..] == [];
      }
    }
  }

  /** Filtering out an `x` that is already gone changes nothing. */
  lemma {:induction false} WithoutGone(s: seq<NodeId>, xs: seq<NodeId>, x: NodeId)
    requires x !in Without(s, xs)
    ensures Without(s, xs + [x]) == Without(s, xs)
  {
    if s != [] {
      WithoutGone(s[1..], xs, x);
    }
  }

  /**
   * One turn of the deletion loop: removing the next selected node (if it
   * is still listed) from what earlier turns left gives the node list
   * filtered by one more selected item, still without repeats.
   */
  lemma DeleteStep(orig: seq<NodeId>, selection: seq<SceneItem>, i: nat, cur: seq<NodeId>)
    requires i < |selection| && NoDup(cur)
    requires cur == Without(orig, SelectedNodes(selection[..i]))
    ensures var item := selection[i];
      var next := if item.NodeItem? && item.node in cur then RemoveFirst(cur, item.node) else cur;
      && next == Without(orig, SelectedNodes(selection[..i + 1]))
      && NoDup(next)
      && (forall n :: n in next ==> n in cur)
  {
    var item := selection[i];
    var done := SelectedNodes(selection[..i]);
    assert selection[..i + 1][..i] == selection[..i];
    if item.NodeItem? && item.node in cur {
      RemoveFirstIsWithout(cur, item.node);
      WithoutKeepsNoDup(cur, [item.node]);
      WithoutMembers(cur, [item.node]);
      WithoutThenOne(orig, done, item.node);
    } else if item.NodeItem? {
      WithoutGone(orig, done, item.node);
    }
  }

  /**
   * Deleting a node never deletes the edges that start or end at it, so
   * such an edge keeps pointing at a node that is no longer listed, and
   * every later save fails on it.
   */
  lemma DeletedEndpointBlocksSave(nodes: seq<NodeId>, info: map<NodeId, NodeInfo>, edges: seq<Edge>,
                                  selection: seq<SceneItem>, k: nat)
    requires forall n :: n in nodes ==> n in info
    requires k < |edges|
    requires NodeItem(edges[k].source) in selection || NodeItem(edges[k].target) in selection
    ensures var after := Without(nodes, SelectedNodes(selection));
      (forall n :: n in after ==> n in info) && Encode(after, info, edges).Err?
  {
    var after := Without(nodes, SelectedNodes(selection));
    WithoutMembers(nodes, SelectedNodes(selection));
    SelectedNodesShape(selection);
    EncodeShape(after, info, edges);
    assert !Attached(after, edges[k]);
  }

  /** Appending an element not yet present keeps a list free of repeats. */
  lemma AppendFresh(s: seq<NodeId>, x: NodeId)
    requires NoDup(s) && x !in s
    ensures NoDup(s + [x])
  {
    var t := s + [x];
    forall i, j | 0 <= i < j < |t|
      ensures t[i] != t[j]
    {
      if j == |s| {
        assert t[i] == s[i];
      }
    }
  }

  /** What `add_node` did. */
  datatype AddNodeStatus =
    | NothingAdded          // dialog cancelled or text blank
    | TextTooLong           // "Text exceeds 128 characters!" warning
    | NodeAdded(id: NodeId)

  /** What `add_edge` did. */
  datatype AddEdgeStatus =
    | EdgeAdded
    | NeedTwoNodes          // "Select exactly two nodes to connect!" warning

  /** What the graph file turned out to be when loading. */
  datatype LoadInput =
    | NoFile                // `open` raised FileNotFoundError
    | Unreadable            // any other read or JSON parse failure
    | Contents(data: Data)

  /** How loading raised. */
  datatype LoadError = ReadError | IndexOutOfRange(edge: nat)

  /** What `load_graph` did. */
  datatype LoadOutcome =
    | Loaded
    | NoSavedGraph          // "No saved graph found!" warning, state untouched
    | LoadRaised(error: LoadError)

  /** The editor window's graph state. */
  class NoteGraph {
    /** The node items, in creation order (`self.nodes`). */
    var nodes: seq<NodeId>
    /** The edges, in creation order (`self.edges`). */
    var edges: seq<Edge>
    /** Position, text and width of every node item created since the last load. */
    var info: map<NodeId, NodeInfo>
    /** Next identity to hand out; stands in for the allocation of a new Qt item. */
    var nextId: NodeId

    /**
     * The node list has no repeats and every listed node has its data;
     * every identity in use is below `nextId`; every edge endpoint is a node
     * that was created, although perhaps deleted since.
     */
    ghost predicate Valid()
      reads this
    {
      && NoDup(nodes)
      && (forall n :: n in nodes ==> n in info)
      && (forall n :: n in info ==> n < nextId)
      && (forall k :: 0 <= k < |edges| ==> edges[k].source in info && edges[k].target in info)
    }

    /** A new window starts with no nodes and no edges. */
    constructor ()
      ensures Valid()
      ensures nodes == [] && edges == [] && info == map[]
    {
      nodes, edges, info, nextId := [], [], map[], 0;
    }

    /**
     * The "Add Node" button: `ok` and `text` are what the input dialog
     * returned. Blank or cancelled input does nothing; text over 128
     * characters draws a warning and does nothing; otherwise one fresh node
     * at the origin is appended, its width computed from its text.
     */
    method AddNode(ok: bool, text: string) returns (status: AddNodeStatus)
      requires Valid()
      modifies this
      ensures Valid()
      ensures edges == old(edges)
      ensures status.NodeAdded? <==> CheckText(ok, text) == Accepted
      ensures status == TextTooLong <==> CheckText(ok, text) == TooLong
      ensures status.NodeAdded? ==>
        && status.id !in old(nodes) && status.id !in old(info)
        && nodes == old(nodes) + [status.id]
        && info == old(info)[status.id := NodeInfo(0.0, 0.0, text, NodeWidth(text))]
      ensures !status.NodeAdded? ==> nodes == old(nodes) && info == old(info) && nextId == old(nextId)
      ensures status.NodeAdded? ==> status.id == old(nextId) && nextId == old(nextId) + 1
    {
      match CheckText(ok, text)
      case Ignored =>
        status := NothingAdded;
      case TooLong =>
        status := TextTooLong;
      case Accepted =>
        var id := nextId;
        assert id !in info;
        AppendFresh(nodes, id);
        nextId := nextId + 1;
        info := info[id := NodeInfo(0.0, 0.0, text, NodeWidth(text))];
        nodes := nodes + [id];
        status := NodeAdded(id);
    }

    /**
     * `add_node_at_position`, used by loading: appends one fresh node with
     * the given position and text. The text is not checked.
     */
    method AddNodeAtPosition(x: real, y: real, text: string) returns (id: NodeId)
      requires Valid()
      modifies this
      ensures Valid()
      ensures id == old(nextId) && nextId == old(nextId) + 1
      ensures id !in old(nodes) && id !in old(info)
      ensures nodes == old(nodes) + [id]
      ensures info == old(info)[id := NodeInfo(x, y, text, NodeWidth(text))]
      ensures edges == old(edges)
    {
      id := nextId;
      assert id !in info;
      AppendFresh(nodes, id);
      nextId := nextId + 1;
      info := info[id := NodeInfo(x, y, text, NodeWidth(text))];
      nodes := nodes + [id];
    }

    /**
     * The "Add Edge" button. Of the selected items only node ellipses
     * count; unless exactly two are selected a warning is shown and nothing
     * changes. Otherwise an edge from the first to the second is appended,
     * even when an edge between them exists already. The selection is the
     * scene's: no repeats, and every selected node is listed.
     */
    method AddEdge(selection: seq<SceneItem>) returns (status: AddEdgeStatus)
      requires Valid()
      requires NoDup(selection)
      requires forall n :: NodeItem(n) in selection ==> n in nodes
      modifies this
      ensures Valid()
      ensures nodes == old(nodes) && info == old(info) && nextId == old(nextId)
      ensures status == EdgeAdded <==> |SelectedNodes(selection)| == 2
      ensures status == EdgeAdded ==>
        edges == old(edges) + [Edge(SelectedNodes(selection)[0], SelectedNodes(selection)[1])]
      ensures status == NeedTwoNodes ==> edges == old(edges)
      ensures status == EdgeAdded ==>
        var e := edges[|edges| - 1];
        e.source != e.target && e.source in nodes && e.target in nodes
    {
      var picked := SelectedNodes(selection);
      SelectedNodesShape(selection);
      if |picked| != 2 {
        status := NeedTwoNodes;
        return;
      }
      assert picked[0] in picked && picked[1] in picked;
      edges := edges + [Edge(picked[0], picked[1])];
      status := EdgeAdded;
    }

    /**
     * `add_edge_between_nodes`, used by loading: appends an edge between two
     * listed nodes with no further check, so a self-loop is accepted.
     */
    method AddEdgeBetween(source: NodeId, target: NodeId)
      requires Valid()
      requires source in nodes && target in nodes
      modifies this
      ensures Valid()
      ensures nodes == old(nodes) && info == old(info) && nextId == old(nextId)
      ensures edges == old(edges) + [Edge(source, target)]
    {
      edges := edges + [Edge(source, target)];
    }

    /**
     * The "Delete Item" button: every selected node is removed from the node
     * list. No edge is ever removed: the test for an edge tuple can never
     * hold of a scene item, so edges at a deleted node stay behind.
     */
    method DeleteItem(selection: seq<SceneItem>)
      requires Valid()
      modifies this
      ensures Valid()
      ensures nodes == Without(old(nodes), SelectedNodes(selection))
      ensures forall n :: n in nodes <==> n in old(nodes) && NodeItem(n) !in selection
      ensures edges == old(edges) && info == old(info) && nextId == old(nextId)
    {
      assert selection[..0] == [];
      WithoutNothing(nodes, []);
      var remaining := nodes;
      var i := 0;
      while i < |selection|
        invariant 0 <= i <= |selection|
        invariant NoDup(remaining) && forall n :: n in remaining ==> n in nodes
        invariant remaining == Without(nodes, SelectedNodes(selection[..i]))
        modifies {}
      {
        var item := selection[i];
        DeleteStep(nodes, selection, i, remaining);
        if item.NodeItem? && item.node in remaining {
          remaining := RemoveFirst(remaining, item.node);
        }
        i := i + 1;
      }
      assert selection[..i] == selection;
      WithoutMembers(nodes, SelectedNodes(selection));
      SelectedNodesShape(selection);
      nodes := remaining;
    }

    /** Dragging node `n` to a new position; nothing else changes. */
    method MoveNode(n: NodeId, x: real, y: real)
      requires Valid() && n in nodes
      modifies this
      ensures Valid()
      ensures info == old(info)[n := old(info)[n].(x := x, y := y)]
      ensures nodes == old(nodes) && edges == old(edges) && nextId == old(nextId)
    {
      info := info[n := info[n].(x := x, y := y)];
    }

    /**
     * Editing node `n`'s text in place: any text is taken, with no length
     * check, and the ellipse keeps its width.
     */
    method EditText(n: NodeId, text: string)
      requires Valid() && n in nodes
      modifies this
      ensures Valid()
      ensures info == old(info)[n := old(info)[n].(text := text)]
      ensures nodes == old(nodes) && edges == old(edges) && nextId == old(nextId)
    {
      info := info[n := info[n].(text := text)];
    }

    /**
     * The "Save Graph" button: builds the file contents, node records first,
     * then edges as index pairs. An edge whose endpoint is no longer listed
     * makes `nodes.index` raise, and nothing is written.
     */
    method Save() returns (r: Result<Data, SaveError>)
      requires Valid()
      ensures r == Encode(nodes, info, edges)
    {
      var recs := SaveNodes();
      var pairs := SaveEdges();
      match pairs
      case Ok(p) => r := Ok(Data(recs, p));
      case Err(k) => r := Err(DanglingEndpoint(k));
    }

    /** The node loop of saving: each listed node's record, in list order. */
    method SaveNodes() returns (recs: seq<Rec>)
      requires forall n :: n in nodes ==> n in info
      ensures recs == EncodeNodes(nodes, info)
    {
      recs := [];
      var i := 0;
      while i < |nodes|
        invariant 0 <= i <= |nodes|
        invariant recs == EncodeNodes(nodes[..i], info)
      {
        assert nodes[..i + 1][..i] == nodes[..i];
        recs := recs + [RecOf(info[nodes[i]])];
        i := i + 1;
      }
      assert nodes[..i] == nodes;
    }

    /**
     * The edge loop of saving: each edge's endpoint positions, looked up with
     * `list.index`; the first edge whose endpoint is not listed stops it.
     */
    method SaveEdges() returns (r: Result<seq<(int, int)>, nat>)
      ensures r == EncodeEdges(nodes, edges)
    {
      var pairs: seq<(int, int)> := [];
      var k := 0;
      while k < |edges|
        invariant 0 <= k <= |edges|
        invariant EncodeEdges(nodes, edges[..k]) == Ok(pairs)
      {
        assert edges[..k + 1][..k] == edges[..k];
        var source := IndexOf(nodes, edges[k].source);
        var target := IndexOf(nodes, edges[k].target);
        if source.None? || target.None? {
          EncodeEdgesStopsAt(nodes, edges, k);
          return Err(k);
        }
        pairs := pairs + [(source.value, target.value)];
        k := k + 1;
      }
      assert edges[..k] == edges;
      r := Ok(pairs);
    }

    /**
     * The "Load Graph" button. A missing file draws a warning and an
     * unreadable one raises, both before anything changes. Otherwise the
     * graph is emptied and rebuilt from the file; an edge index out of range
     * raises half-way, leaving every node and the edges before it.
     */
    method Load(input: LoadInput) returns (outcome: LoadOutcome)
      requires Valid()
      modifies this
      ensures Valid()
      ensures input.NoFile? ==> outcome == NoSavedGraph
      ensures input.Unreadable? ==> outcome == LoadRaised(ReadError)
      ensures !input.Contents? ==>
        nodes == old(nodes) && edges == old(edges) && info == old(info) && nextId == old(nextId)
      ensures input.Contents? ==>
        var r := Decode(input.data, old(nextId));
        && nodes == r.nodes && info == r.info && edges == r.edges
        && nextId == old(nextId) + |input.data.nodes|
        && outcome == (if r.failedAt.Some? then LoadRaised(IndexOutOfRange(r.failedAt.value)) else Loaded)
      ensures input.Contents? ==> forall n :: n in nodes ==> n !in old(info)
    {
      match input
      case NoFile =>
        outcome := NoSavedGraph;
      case Unreadable =>
        outcome := LoadRaised(ReadError);
      case Contents(d) =>
        nodes, edges, info := [], [], map[];
        LoadNodes(d.nodes);
        var failedAt := LoadEdges(d.edges);
        LoadedNodesAreNew(d, old(nextId));
        outcome := if failedAt.Some? then LoadRaised(IndexOutOfRange(failedAt.value)) else Loaded;
    }

    /**
     * The node loop of loading, run on an emptied graph: one node per record,
     * in order, through `AddNodeAtPosition`.
     */
    method LoadNodes(recs: seq<Rec>)
      requires Valid() && nodes == [] && edges == [] && info == map[]
      modifies this
      ensures Valid()
      ensures nextId == old(nextId) + |recs|
      ensures nodes == FreshIds(old(nextId), |recs|) && info == InfoFor(old(nextId), recs)
      ensures edges == []
    {
      var base := nextId;
      var i := 0;
      while i < |recs|
        invariant 0 <= i <= |recs|
        invariant Valid()
        invariant nextId == base + i
        invariant nodes == FreshIds(base, i)
        invariant info == InfoFor(base, recs[..i])
        invariant edges == []
      {
        InfoForStep(base, recs, i);
        FreshIdsStep(base, i);
        var _ := AddNodeAtPosition(recs[i].x, recs[i].y, recs[i].text);
        i := i + 1;
      }
      assert recs[..i] == recs;
    }

    /**
     * The edge loop of loading, run once the nodes are in: each `[i, j]`
     * joins the `i`-th and `j`-th node through `AddEdgeBetween`, until a
     * subscript raises; `failedAt` is the number of that pair.
     */
    method LoadEdges(pairs: seq<(int, int)>) returns (failedAt: Option<nat>)
      requires Valid() && edges == []
      modifies this
      ensures Valid()
      ensures nodes == old(nodes) && info == old(info) && nextId == old(nextId)
      ensures DecodeEdges(nodes, pairs) == EdgeDecode(edges, failedAt)
    {
      var k := 0;
      while k < |pairs|
        invariant 0 <= k <= |pairs|
        invariant Valid()
        invariant nodes == old(nodes) && info == old(info) && nextId == old(nextId)
        invariant DecodeEdges(nodes, pairs[..k]) == EdgeDecode(edges, None)
      {
        assert pairs[..k + 1][..k] == pairs[..k];
        var (si, ti) := pairs[k];
        var source := Resolve(si, |nodes|);
        var target := Resolve(ti, |nodes|);
        if source.None? || target.None? {
          DecodeEdgesStopsAt(nodes, pairs, k);
          return Some(k);
        }
        AddEdgeBetween(nodes[source.value], nodes[target.value]);
        k := k + 1;
      }
      assert pairs[..k] == pairs;
      failedAt := None;
    }
  }

  /**
   * Saving, loading what was saved, and saving again. When the first save
   * fails nothing is loaded and the graph is unchanged. When it succeeds
   * the graph becomes what loading that file builds, the load does not
   * raise, the node count is kept, and the second save writes exactly the
   * first file.
   */
  method SaveLoadSave(app: NoteGraph) returns (first: Result<Data, SaveError>, second: Result<Data, SaveError>)
    requires app.Valid()
    modifies app
    ensures app.Valid()
    ensures first == Encode(old(app.nodes), old(app.info), old(app.edges))
    ensures first.Err? ==>
      && second == first
      && app.nodes == old(app.nodes) && app.edges == old(app.edges)
      && app.info == old(app.info) && app.nextId == old(app.nextId)
    ensures first.Ok? ==>
      var r := Decode(first.value, old(app.nextId));
      && second == first && r.failedAt.None?
      && app.nodes == r.nodes && app.info == r.info && app.edges == r.edges
      && app.nextId == old(app.nextId) + |first.value.nodes|
      && |app.nodes| == |old(app.nodes)|
  {
    first := app.Save();
    if first.Ok? {
      EncodeShape(old(app.nodes), old(app.info), old(app.edges));
      var outcome := app.Load(Contents(first.value));
      LoadThenSave(first.value, old(app.nextId));
      second := app.Save();
    } else {
      second := first;
    }
  }
}
