/**
 * The graph file format and its two directions.
 *
 * In memory a node is an identity (the editor's ellipse item) with a
 * position and a text; an edge holds the identities of its two endpoints.
 * The file lists the nodes as `{x, y, text}` records in list order, and
 * each edge as the pair of its endpoints' positions in that list.
 * `Encode` is what saving writes; `Decode` is the state loading rebuilds.
 */
module GraphCodec {
  import opened NoteText

  datatype Option<T> = None | Some(value: T)

  datatype Result<T, E> = Ok(value: T) | Err(error: E)

  /** Identity of a node item; a new item never reuses an old identity. */
  type NodeId = nat

  /** What the editor holds for one node: position, text and ellipse width. */
  datatype NodeInfo = NodeInfo(x: real, y: real, text: string, width: nat)

  /** An edge: the two node items it was drawn between, in that order. */
  datatype Edge = Edge(source: NodeId, target: NodeId)

  /** One `{x, y, text}` entry of the file's node list. */
  datatype Rec = Rec(x: real, y: real, text: string)

  /** The whole file: node records and `[source_index, target_index]` pairs. */
  datatype Data = Data(nodes: seq<Rec>, edges: seq<(int, int)>)

  /** Saving raised: the endpoint of edge number `edge` is not in the node list. */
  datatype SaveError = DanglingEndpoint(edge: nat)

  predicate NoDup<T(==)>(s: seq<T>) {
    forall i, j :: 0 <= i < j < |s| ==> s[i] != s[j]
  }

  /** Python's `list.index`: the first position holding `x`, if any. */
  function IndexOf<T(==)>(s: seq<T>, x: T): (r: Option<nat>)
    ensures r.None? <==> x !in s
    ensures r.Some? ==> r.value < |s| && s[r.value] == x
    ensures r.Some? ==> forall j :: 0 <= j < r.value ==> s[j] != x
  {
    if s == [] then None
    else if s[0] == x then Some(0)
    else match IndexOf(s[1..], x)
      case None => None
      case Some(i) => Some(i + 1)
  }

  /**
   * The record saved for a node: its position, and its text as the text
   * item reads it back through `toPlainText()`.
   */
  function RecOf(n: NodeInfo): (r: Rec)
    ensures r.x == n.x && r.y == n.y && |r.text| == |n.text|
  {
    Rec(n.x, n.y, Plain(n.text))
  }

  /** Every record of `recs` with its text read back through `toPlainText()`. */
  function PlainRecs(recs: seq<Rec>): seq<Rec> {
    seq(|recs|, i requires 0 <= i < |recs| => Rec(recs[i].x, recs[i].y, Plain(recs[i].text)))
  }

  /** The file `d` with every text read back through `toPlainText()`. */
  function PlainData(d: Data): Data {
    Data(PlainRecs(d.nodes), d.edges)
  }

  /** No text of `d` changes when read back through `toPlainText()`. */
  predicate IsPlain(d: Data) {
    forall i :: 0 <= i < |d.nodes| ==> Plain(d.nodes[i].text) == d.nodes[i].text
  }

  /** A file whose texts read back unchanged is its own plain form, and every plain form is such a file. */
  lemma PlainDataFixed(d: Data)
    ensures IsPlain(PlainData(d))
    ensures IsPlain(d) ==> PlainData(d) == d
  {
    var p := PlainData(d);
    forall i | 0 <= i < |p.nodes|
      ensures Plain(p.nodes[i].text) == p.nodes[i].text
    {
      PlainIdempotent(d.nodes[i].text);
    }
    if IsPlain(d) {
      assert forall i :: 0 <= i < |d.nodes| ==> p.nodes[i] == d.nodes[i];
    }
  }

  /** The node loading creates for a record: its width is computed afresh from the text. */
  function Created(r: Rec): NodeInfo {
    NodeInfo(r.x, r.y, r.text, NodeWidth(r.text))
  }

  /** True when `p` holds the positions in `nodes` of the endpoints of `e`. */
  predicate IndexedBy(nodes: seq<NodeId>, p: (int, int), e: Edge) {
    0 <= p.0 < |nodes| && 0 <= p.1 < |nodes| && nodes[p.0] == e.source && nodes[p.1] == e.target
  }

  /** True when every edge index of `d` points into `d`'s node list. */
  predicate WellFormed(d: Data) {
    forall k :: 0 <= k < |d.edges| ==> 0 <= d.edges[k].0 < |d.nodes| && 0 <= d.edges[k].1 < |d.nodes|
  }

  /** Both endpoints of `e` are still in the node list. */
  predicate Attached(nodes: seq<NodeId>, e: Edge) {
    e.source in nodes && e.target in nodes
  }

  /** The saved node list: one record per node, in list order. */
  function EncodeNodes(nodes: seq<NodeId>, info: map<NodeId, NodeInfo>): (recs: seq<Rec>)
    requires forall n :: n in nodes ==> n in info
    ensures |recs| == |nodes|
    ensures forall i :: 0 <= i < |nodes| ==> recs[i] == RecOf(info[nodes[i]])
  {
    if nodes == [] then []
    else EncodeNodes(nodes[..|nodes| - 1], info) + [RecOf(info[nodes[|nodes| - 1]])]
  }

  /**
   * The saved edge list: each edge becomes the first positions of its
   * endpoints in `nodes`; the first edge with an endpoint missing from
   * `nodes` makes the whole encoding fail. Its properties are in
   * `EncodeEdgesShape`.
   */
  function EncodeEdges(nodes: seq<NodeId>, edges: seq<Edge>): Result<seq<(int, int)>, nat> {
    if edges == [] then Ok([])
    else
      var last := |edges| - 1;
      match EncodeEdges(nodes, edges[..last])
      case Err(k) => Err(k)
      case Ok(pairs) =>
        match (IndexOf(nodes, edges[last].source), IndexOf(nodes, edges[last].target))
        case (Some(i), Some(j)) => Ok(pairs + [(i, j)])
        case _ => Err(last)
  }

  /**
   * Saving the edges succeeds exactly when every endpoint is still listed,
   * and then pair `k` holds the positions of edge `k`'s endpoints.
   */
  lemma {:induction false} EncodeEdgesShape(nodes: seq<NodeId>, edges: seq<Edge>)
    ensures var r := EncodeEdges(nodes, edges);
      && (r.Ok? <==> forall k :: 0 <= k < |edges| ==> Attached(nodes, edges[k]))
      && (r.Ok? ==> |r.value| == |edges|)
      && (r.Ok? ==> forall k :: 0 <= k < |edges| ==> IndexedBy(nodes, r.value[k], edges[k]))
  {
    if edges != [] {
      var last := |edges| - 1;
      var front := edges[..last];
      EncodeEdgesShape(nodes, front);
      assert forall k :: 0 <= k < last ==> front[k] == edges[k];
    }
  }

  /** A failed save names the first edge with an endpoint that is not listed. */
  lemma {:induction false} EncodeEdgesFailure(nodes: seq<NodeId>, edges: seq<Edge>)
    ensures var r := EncodeEdges(nodes, edges);
      && (r.Err? ==> r.error < |edges| && !Attached(nodes, edges[r.error]))
      && (r.Err? ==> forall k :: 0 <= k < r.error ==> Attached(nodes, edges[k]))
  {
    if edges != [] {
      var last := |edges| - 1;
      var front := edges[..last];
      EncodeEdgesFailure(nodes, front);
      EncodeEdgesShape(nodes, front);
      assert forall k :: 0 <= k < last ==> front[k] == edges[k];
    }
  }

  /** What saving writes; its properties are in `EncodeShape`. */
  function Encode(nodes: seq<NodeId>, info: map<NodeId, NodeInfo>, edges: seq<Edge>): Result<Data, SaveError>
    requires forall n :: n in nodes ==> n in info
  {
    var recs := EncodeNodes(nodes, info);
    match EncodeEdges(nodes, edges)
    case Ok(pairs) => Ok(Data(recs, pairs))
    case Err(k) => Err(DanglingEndpoint(k))
  }

  /**
   * Saving fails exactly when some edge has an endpoint that is no longer
   * in the node list, and names the first such edge; otherwise the file
   * lists every node's record in order and every edge by its endpoints'
   * positions, all of them inside the node list.
   */
  lemma EncodeShape(nodes: seq<NodeId>, info: map<NodeId, NodeInfo>, edges: seq<Edge>)
    requires forall n :: n in nodes ==> n in info
    ensures var r := Encode(nodes, info, edges);
      && (r.Ok? <==> forall k :: 0 <= k < |edges| ==> Attached(nodes, edges[k]))
      && (r.Ok? ==> |r.value.nodes| == |nodes|)
      && (r.Ok? ==> forall i :: 0 <= i < |nodes| ==> r.value.nodes[i] == RecOf(info[nodes[i]]))
      && (r.Ok? ==> |r.value.edges| == |edges|)
      && (r.Ok? ==> forall k :: 0 <= k < |edges| ==> IndexedBy(nodes, r.value.edges[k], edges[k]))
      && (r.Ok? ==> WellFormed(r.value))
      && (r.Ok? ==> IsPlain(r.value))
      && (r.Err? ==> r.error.edge < |edges| && !Attached(nodes, edges[r.error.edge]))
      && (r.Err? ==> forall k :: 0 <= k < r.error.edge ==> Attached(nodes, edges[k]))
  {
    EncodeEdgesShape(nodes, edges);
    EncodeEdgesFailure(nodes, edges);
    forall i | 0 <= i < |nodes|
      ensures Plain(RecOf(info[nodes[i]]).text) == RecOf(info[nodes[i]]).text
    {
      PlainIdempotent(info[nodes[i]].text);
    }
  }

  /** Once an edge has a missing endpoint, the edges after it change nothing. */
  lemma {:induction false} EncodeEdgesStopsAt(nodes: seq<NodeId>, edges: seq<Edge>, k: nat)
    requires k < |edges|
    requires EncodeEdges(nodes, edges[..k]).Ok?
    requires !Attached(nodes, edges[k])
    ensures EncodeEdges(nodes, edges) == Err(k)
    decreases |edges|
  {
    var last := |edges| - 1;
    if last == k {
      assert edges[..last] == edges[..k];
    } else {
      var front := edges[..last];
      assert front[..k] == edges[..k] && front[k] == edges[k];
      EncodeEdgesStopsAt(nodes, front, k);
    }
  }

  /**
   * Python's subscript `xs[i]` on a list of length `n`: a negative index
   * counts from the end, anything outside `-n .. n-1` raises.
   */
  function Resolve(i: int, n: nat): (r: Option<nat>)
    ensures r.Some? <==> -(n as int) <= i < n
    ensures r.Some? ==> r.value < n && (r.value == i || r.value == n + i)
  {
    if 0 <= i < n then Some(i)
    else if -(n as int) <= i < 0 then Some(n + i)
    else None
  }

  /** The edge a loaded `[i, j]` pair creates between the freshly created nodes, if both subscripts succeed. */
  function ResolvePair(ids: seq<NodeId>, p: (int, int)): Option<Edge> {
    match (Resolve(p.0, |ids|), Resolve(p.1, |ids|))
    case (Some(i), Some(j)) => Some(Edge(ids[i], ids[j]))
    case _ => None
  }

  /** Loaded edges, and the number of the pair that raised if one did. */
  datatype EdgeDecode = EdgeDecode(edges: seq<Edge>, failedAt: Option<nat>)

  /**
   * Loading the edge list: pairs are turned into edges in order until the
   * first one with an index out of range, which raises and leaves the
   * edges created so far in place. Its properties are in `DecodeEdgesShape`.
   */
  function DecodeEdges(ids: seq<NodeId>, pairs: seq<(int, int)>): EdgeDecode {
    if pairs == [] then EdgeDecode([], None)
    else
      var last := |pairs| - 1;
      var prev := DecodeEdges(ids, pairs[..last]);
      if prev.failedAt.Some? then prev
      else match ResolvePair(ids, pairs[last])
        case Some(e) => EdgeDecode(prev.edges + [e], None)
        case None => EdgeDecode(prev.edges, Some(last))
  }

  /**
   * Loading the edges raises exactly when some pair has an index out of
   * range, and then at the first such pair, with one edge made for each
   * pair before it; edge `k` joins the nodes pair `k` names.
   */
  lemma {:induction false} DecodeEdgesShape(ids: seq<NodeId>, pairs: seq<(int, int)>)
    ensures var r := DecodeEdges(ids, pairs);
      && (r.failedAt.None? <==> forall k :: 0 <= k < |pairs| ==> ResolvePair(ids, pairs[k]).Some?)
      && (r.failedAt.None? ==> |r.edges| == |pairs|)
      && (r.failedAt.Some? ==> r.failedAt.value < |pairs| && |r.edges| == r.failedAt.value)
      && (r.failedAt.Some? ==> ResolvePair(ids, pairs[r.failedAt.value]).None?)
      && (forall k :: 0 <= k < |r.edges| ==> ResolvePair(ids, pairs[k]) == Some(r.edges[k]))
  {
    if pairs != [] {
      var last := |pairs| - 1;
      var front := pairs[..last];
      DecodeEdgesShape(ids, front);
      assert forall k :: 0 <= k < last ==> front[k] == pairs[k];
    }
  }

  /** Once a pair has raised, the pairs after it change nothing. */
  lemma {:induction false} DecodeEdgesStopsAt(ids: seq<NodeId>, pairs: seq<(int, int)>, k: nat)
    requires k < |pairs|
    requires DecodeEdges(ids, pairs[..k]).failedAt.None?
    requires ResolvePair(ids, pairs[k]).None?
    ensures DecodeEdges(ids, pairs) == EdgeDecode(DecodeEdges(ids, pairs[..k]).edges, Some(k))
    decreases |pairs|
  {
    var last := |pairs| - 1;
    if last == k {
      assert pairs[..last] == pairs[..k];
    } else {
      var front := pairs[..last];
      assert front[..k] == pairs[..k] && front[k] == pairs[k];
      DecodeEdgesStopsAt(ids, front, k);
    }
  }

  /** Identities `base`, `base + 1`, ... handed to `count` freshly created nodes. */
  function FreshIds(base: NodeId, count: nat): (ids: seq<NodeId>)
    ensures |ids| == count
  {
    seq(count, i => base + i)
  }

  /** Loading one more record adds one identity. */
  lemma FreshIdsStep(base: NodeId, count: nat)
    ensures FreshIds(base, count + 1) == FreshIds(base, count) + [base + count]
  {
    var a, b := FreshIds(base, count + 1), FreshIds(base, count) + [base + count];
    assert forall i :: 0 <= i <= count ==> a[i] == b[i];
  }

  /** The node table after loading `recs` into identities from `base` on. */
  function InfoFor(base: NodeId, recs: seq<Rec>): (info: map<NodeId, NodeInfo>)
    ensures forall n :: n in info <==> base <= n < base + |recs|
    ensures forall i :: 0 <= i < |recs| ==> info[base + i] == Created(recs[i])
  {
    if recs == [] then map[]
    else
      var last := |recs| - 1;
      InfoFor(base, recs[..last])[base + last := Created(recs[last])]
  }

  /** Loading one more record adds one entry to the node table. */
  lemma InfoForStep(base: NodeId, recs: seq<Rec>, i: nat)
    requires i < |recs|
    ensures InfoFor(base, recs[..i + 1]) == InfoFor(base, recs[..i])[base + i := Created(recs[i])]
  {
    assert recs[..i + 1][..i] == recs[..i];
  }

  /** The state loading rebuilds, and the pair that raised if one did. */
  datatype Decoded = Decoded(nodes: seq<NodeId>, info: map<NodeId, NodeInfo>, edges: seq<Edge>, failedAt: Option<nat>)

  /** What loading `d` leaves behind when new node identities start at `base`. */
  function Decode(d: Data, base: NodeId): Decoded {
    var ids := FreshIds(base, |d.nodes|);
    var es := DecodeEdges(ids, d.edges);
    Decoded(ids, InfoFor(base, d.nodes), es.edges, es.failedAt)
  }

  /**
   * The shape of a load: the old graph is gone; there is one fresh node per
   * record, in order, with the record's position and text whatever its
   * length; edge pair `[i, j]` joins the `i`-th and `j`-th of those nodes,
   * and the first pair out of range stops the rebuild half-way.
   */
  lemma DecodeShape(d: Data, base: NodeId)
    ensures var r := Decode(d, base);
      && |r.nodes| == |d.nodes| && NoDup(r.nodes)
      && (forall i :: 0 <= i < |d.nodes| ==> r.nodes[i] == base + i)
      && (forall n :: n in r.info <==> n in r.nodes)
      && (forall i :: 0 <= i < |d.nodes| ==> r.info[r.nodes[i]] == Created(d.nodes[i]))
      && (r.failedAt.None? <==> forall k :: 0 <= k < |d.edges| ==> ResolvePair(r.nodes, d.edges[k]).Some?)
      && (r.failedAt.Some? ==> r.failedAt.value < |d.edges| && |r.edges| == r.failedAt.value)
      && (r.failedAt.None? ==> |r.edges| == |d.edges|)
      && (forall k :: 0 <= k < |r.edges| ==> ResolvePair(r.nodes, d.edges[k]) == Some(r.edges[k]))
  {
    var ids := FreshIds(base, |d.nodes|);
    var info := InfoFor(base, d.nodes);
    DecodeEdgesShape(ids, d.edges);
    forall n | base <= n < base + |d.nodes|
      ensures n in ids
    {
      assert ids[n - base] == n;
    }
    forall i | 0 <= i < |d.nodes|
      ensures ids[i] in info && info[ids[i]] == Created(d.nodes[i])
    {
      assert ids[i] == base + i;
    }
  }

  /**
   * Loading replaces rather than merges: every node it leaves is a new item,
   * none of the identities below `base` that existed before.
   */
  lemma LoadedNodesAreNew(d: Data, base: NodeId)
    ensures forall n :: n in Decode(d, base).nodes ==> base <= n < base + |d.nodes|
  {
    DecodeShape(d, base);
  }

  /** Saving nodes freshly loaded from `recs` gives back `recs`. */
  lemma EncodeLoadedNodes(base: NodeId, recs: seq<Rec>)
    ensures EncodeNodes(FreshIds(base, |recs|), InfoFor(base, recs)) == PlainRecs(recs)
  {
    var saved, plain := EncodeNodes(FreshIds(base, |recs|), InfoFor(base, recs)), PlainRecs(recs);
    forall i | 0 <= i < |recs|
      ensures saved[i] == plain[i]
    {
      LoadedRecAt(base, recs, i);
    }
    SameRecs(saved, plain);
  }

  /** The record saved at position `i` after loading `recs` is `recs[i]` read back through `toPlainText()`. */
  lemma LoadedRecAt(base: NodeId, recs: seq<Rec>, i: nat)
    requires i < |recs|
    ensures EncodeNodes(FreshIds(base, |recs|), InfoFor(base, recs))[i] == PlainRecs(recs)[i]
  {
    var ids, info := FreshIds(base, |recs|), InfoFor(base, recs);
    assert ids[i] == base + i;
    assert info[ids[i]] == Created(recs[i]);
    SavedCreated(recs[i]);
  }

  /** Saving a node loaded from `r` writes `r` with its text read back through `toPlainText()`. */
  lemma SavedCreated(r: Rec)
    ensures RecOf(Created(r)) == Rec(r.x, r.y, Plain(r.text))
  {
  }

  /** Two record lists that agree at every position are equal. */
  lemma SameRecs(a: seq<Rec>, b: seq<Rec>)
    requires |a| == |b| && forall i :: 0 <= i < |a| ==> a[i] == b[i]
    ensures a == b
  {
  }


  /**
   * Saving edges freshly loaded from in-range `pairs` gives back `pairs`:
   * the node list has no repeats, so the first position of the node at
   * position `i` is `i` itself.
   */
  lemma {:induction false} EncodeLoadedEdges(ids: seq<NodeId>, pairs: seq<(int, int)>)
    requires NoDup(ids)
    requires forall k :: 0 <= k < |pairs| ==> 0 <= pairs[k].0 < |ids| && 0 <= pairs[k].1 < |ids|
    ensures DecodeEdges(ids, pairs).failedAt.None?
    ensures EncodeEdges(ids, DecodeEdges(ids, pairs).edges) == Ok(pairs)
  {
    if pairs != [] {
      var last := |pairs| - 1;
      var front, p := pairs[..last], pairs[last];
      assert pairs == front + [p];
      EncodeLoadedEdges(ids, front);
      var es := DecodeEdges(ids, front).edges;
      var e := Edge(ids[p.0], ids[p.1]);
      assert ResolvePair(ids, p) == Some(e);
      DecodeStep(ids, front, p);
      IndexOfDistinct(ids, p.0);
      IndexOfDistinct(ids, p.1);
      EncodeStep(ids, es, e);
    }
  }

  /** Loading one more in-range pair appends one more edge. */
  lemma DecodeStep(ids: seq<NodeId>, pairs: seq<(int, int)>, p: (int, int))
    requires DecodeEdges(ids, pairs).failedAt.None? && ResolvePair(ids, p).Some?
    ensures DecodeEdges(ids, pairs + [p]) ==
      EdgeDecode(DecodeEdges(ids, pairs).edges + [ResolvePair(ids, p).value], None)
  {
    assert (pairs + [p])[..|pairs|] == pairs;
  }

  /** Saving one more attached edge appends one more pair. */
  lemma EncodeStep(nodes: seq<NodeId>, edges: seq<Edge>, e: Edge)
    requires EncodeEdges(nodes, edges).Ok? && Attached(nodes, e)
    ensures EncodeEdges(nodes, edges + [e]) ==
      Ok(EncodeEdges(nodes, edges).value + [(IndexOf(nodes, e.source).value, IndexOf(nodes, e.target).value)])
  {
    assert (edges + [e])[..|edges|] == edges;
  }

  /** In a list without repeats, the first position of the element at `i` is `i`. */
  lemma IndexOfDistinct<T>(s: seq<T>, i: nat)
    requires NoDup(s) && i < |s|
    ensures IndexOf(s, s[i]) == Some(i)
  {
    assert s[i] in s;
  }

  /**
   * Load, then save: a file whose indices all point into its node list
   * loads without raising, and saving the result writes that same file.
   */
  lemma LoadThenSave(d: Data, base: NodeId)
    requires WellFormed(d)
    ensures Decode(d, base).failedAt.None?
    ensures Encode(Decode(d, base).nodes, Decode(d, base).info, Decode(d, base).edges) == Ok(PlainData(d))
    ensures IsPlain(d) ==> Encode(Decode(d, base).nodes, Decode(d, base).info, Decode(d, base).edges) == Ok(d)
  {
    var ids := FreshIds(base, |d.nodes|);
    EncodeLoadedNodes(base, d.nodes);
    EncodeLoadedEdges(ids, d.edges);
    PlainDataFixed(d);
  }

  /**
   * Save, then load: when saving succeeds the file loads without raising;
   * every node comes back in the same place of the list with its position,
   * its text as `toPlainText()` read it, and the width of its text; every
   * edge comes back between the reloaded counterparts of its endpoints (the
   * nodes now at their old positions); and saving again writes the same
   * file.
   */
  lemma SaveThenLoad(nodes: seq<NodeId>, info: map<NodeId, NodeInfo>, edges: seq<Edge>, base: NodeId)
    requires NoDup(nodes) && forall n :: n in nodes ==> n in info
    requires Encode(nodes, info, edges).Ok?
    ensures var d := Encode(nodes, info, edges).value;
      var r := Decode(d, base);
      && r.failedAt.None?
      && |r.nodes| == |nodes| && |r.edges| == |edges|
      && (forall n :: n in r.nodes ==> n in r.info)
      && (forall k :: 0 <= k < |edges| ==> Attached(nodes, edges[k]))
      && (forall i :: 0 <= i < |nodes| ==>
            var m, o := r.info[r.nodes[i]], info[nodes[i]];
            m.x == o.x && m.y == o.y && m.text == Plain(o.text) && m.width == NodeWidth(o.text))
      && (forall i :: 0 <= i < |nodes| ==> RecOf(r.info[r.nodes[i]]) == RecOf(info[nodes[i]]))
      && (forall k :: 0 <= k < |edges| ==>
            r.edges[k] == Edge(r.nodes[IndexOf(nodes, edges[k].source).value],
                               r.nodes[IndexOf(nodes, edges[k].target).value]))
      && Encode(r.nodes, r.info, r.edges) == Ok(d)
  {
    EncodeShape(nodes, info, edges);
    var d := Encode(nodes, info, edges).value;
    LoadThenSave(d, base);
    DecodeShape(d, base);
    var r := Decode(d, base);
    forall i | 0 <= i < |nodes|
      ensures RecOf(r.info[r.nodes[i]]) == RecOf(info[nodes[i]])
      ensures r.info[r.nodes[i]].width == NodeWidth(info[nodes[i]].text)
    {
      PlainIdempotent(info[nodes[i]].text);
      PlainKeepsWidth(info[nodes[i]].text);
    }
    forall k | 0 <= k < |edges|
      ensures IndexOf(nodes, edges[k].source).Some? && IndexOf(nodes, edges[k].target).Some?
      ensures r.edges[k] == Edge(r.nodes[IndexOf(nodes, edges[k].source).value],
                                 r.nodes[IndexOf(nodes, edges[k].target).value])
    {
      var p := d.edges[k];
      assert IndexedBy(nodes, p, edges[k]);
      assert ResolvePair(r.nodes, p) == Some(r.edges[k]);
      IndexOfDistinct(nodes, p.0);
      IndexOfDistinct(nodes, p.1);
    }
  }

  /** Loading creates a self-loop from a pair `[i, i]`: nothing checks that endpoints differ. */
  lemma LoadAcceptsSelfLoop(r: Rec, base: NodeId)
    ensures Decode(Data([r], [(0, 0)]), base).edges == [Edge(base, base)]
  {
    DecodeShape(Data([r], [(0, 0)]), base);
    var d := Decode(Data([r], [(0, 0)]), base);
    assert ResolvePair(d.nodes, (0, 0)) == Some(d.edges[0]);
  }

  /**
   * Loading takes a record's text as it is: a text the add-node dialog
   * refuses as too long still makes a node.
   */
  lemma LoadKeepsLongText(r: Rec, base: NodeId)
    requires HasContent(r.text) && |r.text| > MaxTextLength
    ensures CheckText(true, r.text) == TooLong
    ensures var d := Decode(Data([r], []), base);
      && d.nodes == [base] && base in d.info && d.info[base].text == r.text
  {
    DecodeShape(Data([r], []), base);
  }

  /** Loading resolves a negative index from the end of the node list. */
  lemma LoadResolvesNegativeIndex(a: Rec, b: Rec, base: NodeId)
    ensures Decode(Data([a, b], [(-1, -2)]), base).edges == [Edge(base + 1, base)]
  {
    DecodeShape(Data([a, b], [(-1, -2)]), base);
    var d := Decode(Data([a, b], [(-1, -2)]), base);
    assert ResolvePair(d.nodes, (-1, -2)) == Some(d.edges[0]);
  }
}
