/**
 * The flow store: the node and edge lists, the selection, the single
 * notification slot and the node-id counter, each updated in place by the
 * store's operations.
 */
module FlowStore {
  import opened Wrappers
  import opened NodeIds
  import opened FlowGraph

  datatype Severity = Success | Error | Info

  datatype Snackbar = Snackbar(message: string, severity: Severity, isVisible: bool)

  /** The id `id` carries a counter value below `counter`. */
  predicate IssuedBefore(id: string, counter: nat) {
    Serial(id).Some? && Serial(id).value < counter
  }

  class Store {
    var nodes: seq<Node>
    var edges: seq<Edge>
    var selected: Option<string>
    var snackbar: Snackbar
    /** The next counter value `addNode` will use. */
    var counter: nat

    /**
     * Every node id was issued from a counter value below the current one,
     * no two nodes share a counter value, and each source port has at most
     * one edge.
     */
    ghost predicate Valid()
      reads this
      ensures Valid() ==> UniqueIds(nodes)
    {
      && (forall i :: 0 <= i < |nodes| ==> IssuedBefore(nodes[i].id, counter))
      && (forall i, j :: 0 <= i < j < |nodes| ==> Serial(nodes[i].id) != Serial(nodes[j].id))
      && OnePerPort(edges)
    }

    constructor ()
      ensures nodes == [] && edges == [] && selected == None
      ensures snackbar == Snackbar("", Info, false)
      ensures counter == 1
      ensures Valid()
    {
      nodes, edges, selected := [], [], None;
      snackbar := Snackbar("", Info, false);
      counter := 1;
    }

    method AddNode(kind: string, position: Position)
      modifies this
      ensures nodes == old(nodes) + [Node(NodeId(kind, old(counter)), kind, position, NodeData(DefaultText, None))]
      ensures counter == old(counter) + 1
      ensures edges == old(edges) && selected == old(selected) && snackbar == old(snackbar)
      ensures old(Valid()) ==> forall i :: 0 <= i < |old(nodes)| ==> nodes[i].id != NodeId(kind, old(counter))
      ensures old(Valid()) ==> Valid()
    {
      var node := Node(NodeId(kind, counter), kind, position, NodeData(DefaultText, None));
      SerialOfNodeId(kind, counter);
      counter := counter + 1;
      nodes := nodes + [node];
    }

    method UpdateNodeData(id: string, partial: PartialData)
      modifies this
      ensures nodes == UpdateNodes(old(nodes), id, partial)
      ensures edges == old(edges) && selected == old(selected) && snackbar == old(snackbar)
      ensures counter == old(counter)
      ensures old(Valid()) ==> Valid()
    {
      nodes := UpdateNodes(nodes, id, partial);
    }

    method SetSelectedNode(id: Option<string>)
      modifies this
      ensures selected == id
      ensures nodes == old(nodes) && edges == old(edges) && snackbar == old(snackbar)
      ensures counter == old(counter)
      ensures old(Valid()) ==> Valid()
    {
      selected := id;
    }

    method OnConnect(c: Edge)
      modifies this
      ensures edges == Connected(old(edges), c)
      ensures nodes == old(nodes) && selected == old(selected) && snackbar == old(snackbar)
      ensures counter == old(counter)
      ensures old(Valid()) ==> Valid()
    {
      ghost var before := edges;
      var sourceHasConnection := HasPort(edges, SourcePort(c));
      if sourceHasConnection {
        edges := RemovePort(edges, SourcePort(c));
      }
      edges := edges + [c];
      if OnePerPort(before) {
        ConnectedKeepsOnePerPort(before, c);
      }
    }

    /** validateFlow on the current snapshot; changes nothing. */
    function ValidateFlow(): (r: Validation)
      reads this
      ensures r == Validate(nodes, edges)
    {
      Validate(nodes, edges)
    }

    method ShowSnackbar(message: string, severity: Severity)
      modifies this
      ensures snackbar == Snackbar(message, severity, true)
      ensures nodes == old(nodes) && edges == old(edges) && selected == old(selected)
      ensures counter == old(counter)
      ensures old(Valid()) ==> Valid()
    {
      snackbar := Snackbar(message, severity, true);
    }

    method HideSnackbar()
      modifies this
      ensures snackbar == old(snackbar).(isVisible := false)
      ensures nodes == old(nodes) && edges == old(edges) && selected == old(selected)
      ensures counter == old(counter)
      ensures old(Valid()) ==> Valid()
    {
      snackbar := snackbar.(isVisible := false);
    }
  }

  /** Two added nodes get distinct ids and, unlinked, are two roots. */
  method AddTwoNodesScenario()
  {
    var s := new Store();
    s.AddNode("textMessage", Position(0.0, 0.0));
    s.AddNode("textMessage", Position(10.0, 0.0));
    assert s.Valid() && |s.nodes| == 2;
    assert s.nodes[0].id != s.nodes[1].id;
    assert IsRoot(s.edges, s.nodes[0]) && IsRoot(s.edges, s.nodes[1]);
    assert s.ValidateFlow() == Validation(false, Some(TooManyRootsError));
  }

  /** Setting the text and then the channel of one node keeps both. */
  method MergeScenario(s: Store, id: string, t: string, c: Channel)
    modifies s
  {
    s.UpdateNodeData(id, PartialData(Some(t), None));
    s.UpdateNodeData(id, PartialData(None, Some(Some(c))));
    assert forall i :: 0 <= i < |s.nodes| && s.nodes[i].id == id ==> s.nodes[i].data == NodeData(t, Some(c));
  }

  /** A second connection from the same port replaces the first. */
  method ReconnectScenario(s: Store, a: string, b: string)
    modifies s
  {
    s.OnConnect(Edge(a, None, a, None));
    s.OnConnect(Edge(a, None, b, None));
    assert Count(s.edges, Port(a, None)) == 1 && s.edges[|s.edges| - 1] == Edge(a, None, b, None);
  }

  /** A later notification overwrites an earlier one; hiding keeps its content. */
  method SnackbarScenario(s: Store)
    modifies s
  {
    s.SetSelectedNode(Some("nowhere"));
    s.ShowSnackbar("ok", Success);
    s.ShowSnackbar("fail", Error);
    assert s.snackbar == Snackbar("fail", Error, true);
    s.HideSnackbar();
    assert s.snackbar == Snackbar("fail", Error, false) && s.selected == Some("nowhere");
  }
}
