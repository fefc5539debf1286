/**
 * The values the flow store holds, and the pure expressions its operations
 * are built from: the shallow merge of a node's data, the `map` that applies
 * it, the `filter` that frees a source port, and the root-count validation.
 */
module FlowGraph {
  import opened Wrappers

  datatype Channel = WhatsApp | Instagram | Sms

  /** A message node's data record. */
  datatype NodeData = NodeData(text: string, channel: Option<Channel>)

  /**
   * A `Partial<TextNodeData>` as an object literal: `None` is a key that is
   * absent. For `channel`, `Some(None)` is the key present with the value
   * `undefined`, which the object spread copies over an existing channel.
   */
  datatype PartialData = PartialData(text: Option<string>, channel: Option<Option<Channel>>)

  /** A canvas position; the store only stores it. */
  datatype Position = Position(x: real, y: real)

  datatype Node = Node(id: string, kind: string, position: Position, data: NodeData)

  /** An edge, and equally a candidate connection handed to `onConnect`. */
  datatype Edge = Edge(source: string, sourceHandle: Option<string>, target: string, targetHandle: Option<string>)

  /** An output port: a node and one of its source handles (or none). */
  datatype Port = Port(node: string, handle: Option<string>)

  datatype Validation = Validation(isValid: bool, error: Option<string>)

  const DefaultText := "Enter your message here..."
  const TooManyRootsError := "Cannot save flow: More than one node has empty target handles"

  function SourcePort(e: Edge): Port {
    Port(e.source, e.sourceHandle)
  }

  /** `a` is `b` with some elements dropped, the rest in their order. */
  predicate Subseq<T(==)>(a: seq<T>, b: seq<T>)
    decreases |b|
  {
    if a == [] then true
    else if b == [] then false
    else (a[0] == b[0] && Subseq(a[1..], b[1..])) || Subseq(a, b[1..])
  }

  predicate UniqueIds(nodes: seq<Node>) {
    forall i, j :: 0 <= i < j < |nodes| ==> nodes[i].id != nodes[j].id
  }

  // ---------------------------------------------------------------------
  // updateNodeData: a shallow merge into the data of every node with the id

  function MergeData(d: NodeData, p: PartialData): NodeData {
    NodeData(p.text.GetOr(d.text), p.channel.GetOr(d.channel))
  }

  /** The merge is per field: a field in the partial wins, any other field is kept. */
  lemma MergeIsPerField(d: NodeData, p: PartialData)
    ensures p.text == None ==> MergeData(d, p).text == d.text
    ensures p.channel == None ==> MergeData(d, p).channel == d.channel
    ensures forall t :: p.text == Some(t) ==> MergeData(d, p).text == t
    ensures forall c :: p.channel == Some(c) ==> MergeData(d, p).channel == c
  {
  }

  /** Setting the text and then the channel loses neither. */
  lemma MergeTextThenChannel(d: NodeData, t: string, c: Channel)
    ensures MergeData(MergeData(d, PartialData(Some(t), None)), PartialData(None, Some(Some(c))))
         == NodeData(t, Some(c))
  {
  }

  lemma MergeIdempotent(d: NodeData, p: PartialData)
    ensures MergeData(MergeData(d, p), p) == MergeData(d, p)
    ensures MergeData(d, PartialData(None, None)) == d
  {
  }

  function UpdateNode(n: Node, id: string, p: PartialData): Node {
    if n.id == id then n.(data := MergeData(n.data, p)) else n
  }

  /** The node list after updateNodeData: each node mapped, order and length kept. */
  function UpdateNodes(nodes: seq<Node>, id: string, p: PartialData): (r: seq<Node>)
    ensures |r| == |nodes|
    ensures forall i :: 0 <= i < |r| ==>
      r[i].id == nodes[i].id && r[i].kind == nodes[i].kind && r[i].position == nodes[i].position
    ensures forall i :: 0 <= i < |r| && nodes[i].id != id ==> r[i] == nodes[i]
    ensures forall i :: 0 <= i < |r| && nodes[i].id == id ==> r[i].data == MergeData(nodes[i].data, p)
  {
    if nodes == [] then [] else [UpdateNode(nodes[0], id, p)] + UpdateNodes(nodes[1..], id, p)
  }

  /** An id no node has leaves the list as it was. */
  lemma UpdateUnknownIdIsNoOp(nodes: seq<Node>, id: string, p: PartialData)
    requires forall i :: 0 <= i < |nodes| ==> nodes[i].id != id
    ensures UpdateNodes(nodes, id, p) == nodes
  {
  }

  // ---------------------------------------------------------------------
  // onConnect: free the candidate's source port, then append the candidate

  /** The number of edges leaving port `p`. */
  function Count(edges: seq<Edge>, p: Port): nat {
    if edges == [] then 0 else (if SourcePort(edges[0]) == p then 1 else 0) + Count(edges[1..], p)
  }

  /** At most one outgoing edge per (source, sourceHandle). */
  ghost predicate OnePerPort(edges: seq<Edge>) {
    forall p :: Count(edges, p) <= 1
  }

  /** Some edge already leaves `p` (the test onConnect makes before filtering). */
  predicate HasPort(edges: seq<Edge>, p: Port) {
    exists i :: 0 <= i < |edges| && SourcePort(edges[i]) == p
  }

  lemma {:induction false} CountAppend(edges: seq<Edge>, e: Edge, q: Port)
    ensures Count(edges + [e], q) == Count(edges, q) + (if SourcePort(e) == q then 1 else 0)
  {
    if edges != [] {
      assert (edges + [e])[1..] == edges[1..] + [e];
      CountAppend(edges[1..], e, q);
    }
  }

  /** The filter step of onConnect: drop every edge leaving `p`, keep the rest in order. */
  function RemovePort(edges: seq<Edge>, p: Port): (r: seq<Edge>)
    ensures forall i :: 0 <= i < |r| ==> SourcePort(r[i]) != p
    ensures Count(r, p) == 0
    ensures forall q :: q != p ==> Count(r, q) == Count(edges, q)
    ensures Subseq(r, edges)
    ensures !HasPort(edges, p) ==> r == edges
  {
    if edges == [] then []
    else
      var rest := RemovePort(edges[1..], p);
      assert !HasPort(edges, p) ==> !HasPort(edges[1..], p) by {
        if HasPort(edges[1..], p) {
          var i :| 0 <= i < |edges[1..]| && SourcePort(edges[1..][i]) == p;
          assert SourcePort(edges[i + 1]) == p;
        }
      }
      if SourcePort(edges[0]) == p then
        rest
      else
        assert ([edges[0]] + rest)[1..] == rest;
        [edges[0]] + rest
  }

  /** The edge list `onConnect(c)` leaves behind. */
  function Connected(edges: seq<Edge>, c: Edge): (r: seq<Edge>)
    ensures |r| > 0 && r[|r| - 1] == c
    ensures forall i :: 0 <= i < |r| - 1 ==> SourcePort(r[i]) != SourcePort(c)
    ensures Count(r, SourcePort(c)) == 1
    ensures forall q :: q != SourcePort(c) ==> Count(r, q) == Count(edges, q)
    ensures Subseq(r[..|r| - 1], edges)
  {
    var kept := RemovePort(edges, SourcePort(c));
    assert (kept + [c])[..|kept|] == kept;
    assert forall q :: Count(kept + [c], q) == Count(kept, q) + (if SourcePort(c) == q then 1 else 0) by {
      forall q {
        CountAppend(kept, c, q);
      }
    }
    kept + [c]
  }

  /** Connecting keeps the one-edge-per-port invariant. */
  lemma ConnectedKeepsOnePerPort(edges: seq<Edge>, c: Edge)
    requires OnePerPort(edges)
    ensures OnePerPort(Connected(edges, c))
  {
    var r := Connected(edges, c);
    forall q
      ensures Count(r, q) <= 1
    {
      if q != SourcePort(c) {
        assert Count(edges, q) <= 1;
      }
    }
  }

  /** A second connection from the same port replaces the first. */
  lemma ConnectTwiceSamePort(edges: seq<Edge>, c1: Edge, c2: Edge)
    requires SourcePort(c1) == SourcePort(c2)
    ensures var r := Connected(Connected(edges, c1), c2);
      && Count(r, SourcePort(c2)) == 1
      && forall i :: 0 <= i < |r| && SourcePort(r[i]) == SourcePort(c2) ==> r[i] == c2
  {
  }

  // ---------------------------------------------------------------------
  // validateFlow: at most one node without an incoming edge

  /** Some edge targets the node with this id. */
  predicate HasIncoming(edges: seq<Edge>, id: string) {
    exists k :: 0 <= k < |edges| && edges[k].target == id
  }

  predicate IsRoot(edges: seq<Edge>, n: Node) {
    !HasIncoming(edges, n.id)
  }

  /** Two distinct positions of the node list both hold roots. */
  predicate TwoRoots(nodes: seq<Node>, edges: seq<Edge>) {
    exists i, j :: 0 <= i < j < |nodes| && IsRoot(edges, nodes[i]) && IsRoot(edges, nodes[j])
  }

  predicate SomeRoot(nodes: seq<Node>, edges: seq<Edge>) {
    exists i :: 0 <= i < |nodes| && IsRoot(edges, nodes[i])
  }

  /** The nodes without an incoming edge, in node order. */
  function Roots(nodes: seq<Node>, edges: seq<Edge>): (r: seq<Node>)
    ensures |r| <= |nodes|
    ensures forall i :: 0 <= i < |r| ==> IsRoot(edges, r[i])
    ensures forall n :: IsRoot(edges, n) ==> multiset(r)[n] == multiset(nodes)[n]
    ensures Subseq(r, nodes)
  {
    if nodes == [] then []
    else
      var rest := Roots(nodes[1..], edges);
      assert nodes == [nodes[0]] + nodes[1..];
      if IsRoot(edges, nodes[0]) then
        assert ([nodes[0]] + rest)[1..] == rest;
        [nodes[0]] + rest
      else
        rest
  }

  lemma {:induction false} SomeRootOfTail(nodes: seq<Node>, edges: seq<Edge>)
    requires nodes != []
    ensures SomeRoot(nodes, edges) <==> IsRoot(edges, nodes[0]) || SomeRoot(nodes[1..], edges)
  {
    if SomeRoot(nodes, edges) && !IsRoot(edges, nodes[0]) {
      var i :| 0 <= i < |nodes| && IsRoot(edges, nodes[i]);
      assert nodes[1..][i - 1] == nodes[i];
    }
    if SomeRoot(nodes[1..], edges) {
      var i :| 0 <= i < |nodes[1..]| && IsRoot(edges, nodes[1..][i]);
      assert nodes[i + 1] == nodes[1..][i];
    }
  }

  lemma {:induction false} TwoRootsOfTail(nodes: seq<Node>, edges: seq<Edge>)
    requires nodes != []
    ensures TwoRoots(nodes, edges) <==>
      (IsRoot(edges, nodes[0]) && SomeRoot(nodes[1..], edges)) || TwoRoots(nodes[1..], edges)
  {
    var tail := nodes[1..];
    if TwoRoots(nodes, edges) {
      var i, j :| 0 <= i < j < |nodes| && IsRoot(edges, nodes[i]) && IsRoot(edges, nodes[j]);
      assert tail[j - 1] == nodes[j];
      if i > 0 {
        assert tail[i - 1] == nodes[i];
      }
    }
    if IsRoot(edges, nodes[0]) && SomeRoot(tail, edges) {
      var j :| 0 <= j < |tail| && IsRoot(edges, tail[j]);
      assert nodes[j + 1] == tail[j];
    }
    if TwoRoots(tail, edges) {
      var i, j :| 0 <= i < j < |tail| && IsRoot(edges, tail[i]) && IsRoot(edges, tail[j]);
      assert nodes[i + 1] == tail[i] && nodes[j + 1] == tail[j];
    }
  }

  lemma {:induction false} RootsNonEmpty(nodes: seq<Node>, edges: seq<Edge>)
    ensures |Roots(nodes, edges)| > 0 <==> SomeRoot(nodes, edges)
  {
    if nodes != [] {
      RootsNonEmpty(nodes[1..], edges);
      SomeRootOfTail(nodes, edges);
    }
  }

  /** Filtering out more than one root is the same as two positions holding roots. */
  lemma {:induction false} MoreThanOneRoot(nodes: seq<Node>, edges: seq<Edge>)
    ensures |Roots(nodes, edges)| > 1 <==> TwoRoots(nodes, edges)
  {
    if nodes != [] {
      MoreThanOneRoot(nodes[1..], edges);
      RootsNonEmpty(nodes[1..], edges);
      TwoRootsOfTail(nodes, edges);
    }
  }

  /** validateFlow on a snapshot of the graph. */
  function Validate(nodes: seq<Node>, edges: seq<Edge>): (r: Validation)
    ensures |nodes| <= 1 ==> r == Validation(true, None)
    ensures r.isValid <==> !TwoRoots(nodes, edges)
    ensures r.isValid ==> r.error == None
    ensures !r.isValid ==> r.error == Some(TooManyRootsError)
  {
    MoreThanOneRoot(nodes, edges);
    if |nodes| <= 1 then
      Validation(true, None)
    else if |Roots(nodes, edges)| > 1 then
      Validation(false, Some(TooManyRootsError))
    else
      Validation(true, None)
  }

  /** A graph in which every node has an incoming edge (only cycles) is valid. */
  lemma NoRootIsValid(nodes: seq<Node>, edges: seq<Edge>)
    requires forall i :: 0 <= i < |nodes| ==> HasIncoming(edges, nodes[i].id)
    ensures Validate(nodes, edges).isValid
  {
  }

  function MessageNode(id: string): Node {
    Node(id, "textMessage", Position(0.0, 0.0), NodeData(DefaultText, None))
  }

  function Link(source: string, target: string): Edge {
    Edge(source, None, target, None)
  }

  /** A -> B, A -> C: one root, so the flow can be saved. */
  lemma FanOutIsValid()
    ensures Validate([MessageNode("a"), MessageNode("b"), MessageNode("c")],
                     [Link("a", "b"), Link("a", "c")]).isValid
  {
    var edges := [Link("a", "b"), Link("a", "c")];
    assert edges[0].target == "b" && edges[1].target == "c";
    assert HasIncoming(edges, "b") && HasIncoming(edges, "c");
  }

  /** Two nodes and no edge: two roots, so the flow is refused with the message. */
  lemma TwoUnlinkedNodesAreInvalid()
    ensures Validate([MessageNode("a"), MessageNode("b")], [])
         == Validation(false, Some(TooManyRootsError))
  {
    var nodes := [MessageNode("a"), MessageNode("b")];
    assert IsRoot([], nodes[0]) && IsRoot([], nodes[1]);
  }
}
