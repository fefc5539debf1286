# Flow builder graph store, in Dafny

This project models the state store of a chatbot flow builder. A user places
message nodes on a canvas, links them with directed edges, and saves the flow
only when it passes a structural check. The store holds:

- the node list (id, kind, position, data with `text` and an optional channel);
- the edge list (source, optional source handle, target, optional target handle);
- the selected node id, or none;
- a single-slot notification (message, severity, visible flag);
- the counter that node ids are built from.

The store is the class `FlowStore.Store`. Its operations change fields in place:

- `AddNode`
- `UpdateNodeData`
- `SetSelectedNode`
- `OnConnect`
- `ShowSnackbar`
- `HideSnackbar`

Each of these methods states the store's whole new state. Each also keeps the
object invariant `Store.Valid()`, which says:

- every node id was issued from a counter value below the current one;
- no two nodes share a counter value, so node ids are pairwise distinct;
- each source port has at most one edge.

The methods do not require `Valid()`, because the store's operations accept any
state. Instead each one promises that if the store was valid before the call,
it is valid after it.

The pure parts are functions in module `FlowGraph`, each with its own proved
properties:

- the per-field merge of node data;
- the mapping that applies the merge to the node list;
- the filter that frees a source port;
- the root-count validation (`validateFlow`).

Module `NodeIds` covers node ids of the form `kind-counter`. It proves that the
counter can be read back out of an id, so two ids issued at different counter
values differ even when the kinds differ (for example `a-1` with counter 2
against `a` with any number).

The methods after the class are client scenarios. They show what a caller can
conclude from the contracts alone:

- two added nodes have distinct ids and form an invalid flow;
- setting the text and then the channel keeps both;
- a second connection from the same port replaces the first;
- a later notification overwrites an earlier one.

Modelling choices:

- A field of `Partial<TextNodeData>` that the partial leaves out is `None`. For
  `channel`, `Some(None)` means the key is present with value `undefined`. The
  object spread copies that over an existing channel, and the settings panel
  relies on this to clear a channel (src/components/panels/SettingsPanel.tsx:45-48).
- The type `TextNodeData` declares only `text` (src/components/nodes/TextNode.tsx:4-6),
  but the store and its callers also carry `channel`. The model follows the code
  and includes `channel`.
- Any kind string is accepted by `AddNode`. The code does not check the kind:
  the canvas registers only `textMessage` (src/App.tsx:18-20), and the drop
  handler passes on any non-empty kind the drag carried (src/App.tsx:69-81).
- The id counter is a module-level variable in the code, shared by every store.
  The application creates exactly one store, so here the counter is a field of
  the store. It starts at 1.
- A candidate connection and a stored edge have the same shape (`FlowGraph.Edge`).

## Model

| member | source | states |
|---|---|---|
| `NodeIds.Decimal` | src/store/flowStore.ts:45 | the counter is rendered as a non-empty string of decimal digits |
| `NodeIds.DecimalNoLeadingZero` | src/store/flowStore.ts:45 | a positive counter is rendered without a leading zero |
| `NodeIds.DigitsValueOfDecimal` | src/store/flowStore.ts:45 | reading the decimal rendering back gives the counter value |
| `NodeIds.NodeId` | src/store/flowStore.ts:45 | the id `kind-n` built by the template literal; its partner `SerialOfNodeId` recovers `n` from it, and `NodeIdsDistinct` shows that different counter values give different ids |
| `NodeIds.SerialOfNodeId` | src/store/flowStore.ts:45 | the counter can be recovered from an id `kind-n`, whatever the kind |
| `NodeIds.NodeIdsDistinct` | src/store/flowStore.ts:31-45 | ids built from different counter values differ, even with different kinds |
| `FlowStore.Store.Valid` | src/store/flowStore.ts:31-45 | the store invariant implies that node ids are pairwise distinct |
| `FlowStore.Store.constructor` | src/store/flowStore.ts:31-41 | empty nodes and edges, no selection, notification `("", info, hidden)`, counter 1, invariant established |
| `FlowStore.Store.AddNode` | src/store/flowStore.ts:43-54 | appends exactly one node with id `kind-counter`, the given kind and position, and text "Enter your message here..." with no channel; the counter goes up by 1; nothing else changes; the new id differs from every existing id; the invariant is kept |
| `FlowGraph.MergeData` | src/store/flowStore.ts:60 | the object-spread merge of a partial into a node's data; `MergeIsPerField`, `MergeIdempotent` and `MergeTextThenChannel` state what it means |
| `FlowGraph.MergeIsPerField` | src/store/flowStore.ts:60 | a field present in the partial overwrites that field; an absent field keeps its old value |
| `FlowGraph.MergeTextThenChannel` | src/store/flowStore.ts:56-64 | setting the text and then the channel leaves both set |
| `FlowGraph.MergeIdempotent` | src/store/flowStore.ts:60 | applying the same partial twice equals applying it once; the empty partial changes nothing |
| `FlowGraph.UpdateNode` | src/store/flowStore.ts:59-61 | the map callback: merge into the node with the id, return any other node as it is; `UpdateNodes` states its effect at every index |
| `FlowGraph.UpdateNodes` | src/store/flowStore.ts:58-62 | same length; every node keeps its id, kind and position; a node with another id is unchanged; a node with the id gets the merged data |
| `FlowGraph.UpdateUnknownIdIsNoOp` | src/store/flowStore.ts:58-62 | an id that no node has leaves the node list unchanged |
| `FlowStore.Store.UpdateNodeData` | src/store/flowStore.ts:56-64 | the node list becomes the mapped list; edges, selection, notification and counter are unchanged; the invariant is kept |
| `FlowStore.Store.SetSelectedNode` | src/store/flowStore.ts:66-68 | the selection becomes exactly the argument, even an unknown id; everything else is unchanged |
| `FlowGraph.HasPort` | src/store/flowStore.ts:72-74 | the test whether some edge already leaves the candidate's port; `RemovePort` proves that when it is false the filter changes nothing, so skipping the filter is equivalent |
| `FlowGraph.RemovePort` | src/store/flowStore.ts:72-81 | no remaining edge leaves the port; edge counts on every other port are kept; the rest stay in their order (a subsequence); if no edge left the port, the list is unchanged, which makes skipping the filter equivalent |
| `FlowGraph.Connected` | src/store/flowStore.ts:70-87 | the candidate is appended last and is the only edge on its source port; every other port keeps its edge count; the earlier edges are a subsequence of the old list, in order; the target is not checked, so self-loops are allowed |
| `FlowGraph.ConnectedKeepsOnePerPort` | src/store/flowStore.ts:70-87 | connecting keeps "at most one edge per source port" |
| `FlowGraph.ConnectTwiceSamePort` | src/store/flowStore.ts:72-85 | two connections from the same port leave one edge there, the second |
| `FlowStore.Store.OnConnect` | src/store/flowStore.ts:70-87 | checks for an edge on the port, filters only when there is one, appends the candidate; the result equals `Connected` of the old edges; nothing else changes; the invariant is kept |
| `FlowGraph.HasIncoming` | src/store/flowStore.ts:109 | the test whether some edge targets a node id; `NoRootIsValid` and the concrete validation lemmas use it |
| `FlowGraph.IsRoot` | src/store/flowStore.ts:108-110 | a node kept by the filter, one with no incoming edge; `Roots` keeps exactly these, and `MoreThanOneRoot` counts them |
| `FlowGraph.Roots` | src/store/flowStore.ts:108-110 | the listed nodes have no incoming edge; every node with no incoming edge is kept as often as it occurs in the node list; they are a subsequence of the node list, in order |
| `FlowGraph.MoreThanOneRoot` | src/store/flowStore.ts:108-112 | more than one node survives the filter if and only if two distinct positions in the node list hold nodes with no incoming edge |
| `FlowGraph.Validate` | src/store/flowStore.ts:101-120 | valid for at most one node; otherwise invalid, with the "Cannot save flow: More than one node has empty target handles" error, exactly when two nodes have no incoming edge; no error when valid |
| `FlowGraph.NoRootIsValid` | src/store/flowStore.ts:101-120 | a graph in which every node has an incoming edge (only cycles) is valid |
| `FlowGraph.FanOutIsValid` | src/store/flowStore.ts:101-120 | nodes A, B, C with edges A to B and A to C are valid (one root) |
| `FlowGraph.TwoUnlinkedNodesAreInvalid` | src/store/flowStore.ts:112-117 | two nodes and no edge are invalid, with the error message |
| `FlowStore.Store.ValidateFlow` | src/store/flowStore.ts:101-120 | the store's check is `Validate` on the current lists and changes no state |
| `FlowStore.Store.ShowSnackbar` | src/store/flowStore.ts:122-130 | the notification becomes `(message, severity, visible)` and overwrites any earlier one; nothing else changes |
| `FlowStore.Store.HideSnackbar` | src/store/flowStore.ts:132-139 | only the visible flag is cleared; message and severity are kept |

## Left out

- `onNodesChange` / `onEdgesChange` (src/store/flowStore.ts:89-99): they hand change batches to reactflow's `applyNodeChanges` / `applyEdgeChanges`. That library code is not part of this model, so the model cannot say what these calls do. An arbitrary replacement of the lists could add duplicate ids or a second edge on a port, so `Valid()` is promised only for the operations that are modelled.
- Edge ids, and the rest of reactflow's `addEdge` (its id format and its duplicate-connection check): that library is not part of this model. Appending adds the candidate edge without an id. After the filter no edge leaves the candidate's port, so a duplicate check keyed on the source port would find nothing.
- A connection whose `source` or `target` is `null`: the model's `Edge` always has both. Handles are optional values compared by equality, so `null` and `undefined` are not told apart.
- Decimal: does not model the precision limit of JavaScript numbers. They lose integer precision above 2^53, so the id counter eventually stops being exact; the model uses an unbounded counter.
- A `text: undefined` key in a partial: `text` is typed as a string, so the model does not represent it.
- Positions are stored and copied, never computed with. The drop-position calculation in src/App.tsx:64-84 is floating-point and DOM work.
- The notification's auto-dismiss timer and its reset on a new notification (src/components/ui/Snackbar.tsx:18-26): this is a time-based effect in the view.
- The React components and their local state (src/App.tsx, the panels, the node view, the snackbar view). This includes the save handler that calls `validateFlow` and then shows a notification (src/App.tsx:90-98), and its console logging.
