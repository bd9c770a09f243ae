/**
 * The node graph editor's interaction state (ui/app/src/renderer/NodeGraph/
 * Node.tsx and index.tsx): nodes with input and output sockets,
 * connections from an output to an input, the selection, and the drag in
 * progress. A press on the canvas chooses a drag mode; a press on a node
 * stamps and selects it; a press on a titlebar starts moving the selected
 * nodes; a press on a socket starts a connection, which pointer movement
 * completes from the hovered socket and releasing commits.
 *
 * The socket lookup (`socketById`) is a parameter related to the nodes by
 * `Indexes`; fresh ids and the clock are parameters.
 */
module NodeGraph {
  import opened Wrappers
  import opened NodeSnap

  type NodeId = string
  type SocketId = string

  datatype SocketKind = Input | Output

  datatype Socket = Socket(id: SocketId, name: string, kind: SocketKind)

  datatype GraphNode = GraphNode(
    id: NodeId,
    lastTouched: Option<int>,
    coords: Coords,
    title: string,
    color: string,
    inputs: seq<Socket>,
    outputs: seq<Socket>)

  /** `Node(...)`: never touched yet, no sockets unless given, and a fresh id unless one is given. */
  function MakeNode(id: Option<NodeId>, newId: NodeId, coords: Coords, title: string, color: string,
                    inputs: Option<seq<Socket>>, outputs: Option<seq<Socket>>): (n: GraphNode)
    ensures n.lastTouched == None
    ensures id.Some? ==> n.id == id.value
    ensures id.None? ==> n.id == newId
    ensures n.inputs == (if inputs.Some? then inputs.value else [])
    ensures n.outputs == (if outputs.Some? then outputs.value else [])
    ensures n.coords == coords && n.title == title && n.color == color
  {
    GraphNode(GetOr(id, newId), None, coords, title, color, GetOr(inputs, []), GetOr(outputs, []))
  }

  /** `Socket(...)`: a fresh id unless one is given. */
  function MakeSocket(id: Option<SocketId>, newId: SocketId, name: string, kind: SocketKind): (s: Socket)
    ensures s.id == (if id.Some? then id.value else newId)
    ensures s.name == name && s.kind == kind
  {
    Socket(GetOr(id, newId), name, kind)
  }

  /** One end of a connection being dragged: a node and one of its sockets. */
  datatype Pin = Pin(node: NodeId, socket: Socket)

  /** One end of a stored connection: a node id and a socket id. */
  datatype End = End(node: NodeId, socket: SocketId)

  datatype Connection = Connection(from: End, to: End)

  function EndOf(p: Pin): End { End(p.node, p.socket.id) }

  /** A node being moved, and where it was when the move began. */
  datatype Moving = Moving(id: NodeId, start: Coords)

  datatype Mode =
    | NodeDrag(nodes: seq<Moving>)
    | CanvasPan(origin: Coords)
    | ZoomDrag
    | Selecting(anchor: Coords, end: Coords)
    | Connecting(end: Coords, start: Pin, from: Option<Pin>, to: Option<Pin>)

  datatype Dragging = Dragging(startPos: Coords, mode: Mode)

  datatype Graph = Graph(
    nodes: map<NodeId, GraphNode>,
    connections: seq<Connection>,
    selected: seq<NodeId>,
    dragging: Option<Dragging>,
    offset: Coords)

  // ---------------------------------------------------------------------
  // Well-formedness.

  /** The sockets of a node on the side a kind belongs to. */
  function Side(n: GraphNode, kind: SocketKind): seq<Socket>
  {
    if kind == Input then n.inputs else n.outputs
  }

  /** A pin names a node of the graph and one of that node's sockets. */
  predicate Owns(nodes: map<NodeId, GraphNode>, p: Pin)
  {
    p.node in nodes && p.socket in Side(nodes[p.node], p.socket.kind)
  }

  predicate HasSocket(ss: seq<Socket>, id: SocketId)
  {
    exists s | s in ss :: s.id == id
  }

  /** A stored connection goes from an output of one node to an input of another. */
  predicate ConnOk(nodes: map<NodeId, GraphNode>, c: Connection)
  {
    && c.from.node in nodes && HasSocket(nodes[c.from.node].outputs, c.from.socket)
    && c.to.node in nodes && HasSocket(nodes[c.to.node].inputs, c.to.socket)
    && c.from.node != c.to.node
  }

  /** Each input has at most one incoming connection. */
  predicate OneIncoming(conns: seq<Connection>)
  {
    forall i, j | 0 <= i < j < |conns| :: conns[i].to.socket != conns[j].to.socket
  }

  predicate GraphOk(g: Graph)
  {
    OneIncoming(g.connections) && forall c | c in g.connections :: ConnOk(g.nodes, c)
  }

  /** The socket lookup agrees with the nodes: every socket of every node is found under its id. */
  predicate Indexes(nodes: map<NodeId, GraphNode>, byId: map<SocketId, Socket>)
  {
    && (forall nid, s | nid in nodes && s in nodes[nid].inputs :: s.id in byId && byId[s.id] == s)
    && (forall nid, s | nid in nodes && s in nodes[nid].outputs :: s.id in byId && byId[s.id] == s)
  }

  /** Sockets sit on the side their kind says. */
  predicate KindsOk(nodes: map<NodeId, GraphNode>)
  {
    && (forall nid, s | nid in nodes && s in nodes[nid].inputs :: s.kind == Input)
    && (forall nid, s | nid in nodes && s in nodes[nid].outputs :: s.kind == Output)
  }

  /** A connection drag whose ends are real sockets of the right kinds, on two different nodes when both are set. */
  predicate DragOk(nodes: map<NodeId, GraphNode>, m: Mode)
  {
    m.Connecting? ==>
      && Owns(nodes, m.start)
      && (m.from.Some? ==> Owns(nodes, m.from.value) && m.from.value.socket.kind == Output)
      && (m.to.Some? ==> Owns(nodes, m.to.value) && m.to.value.socket.kind == Input)
      && (m.from.Some? && m.to.Some? ==> m.from.value.node != m.to.value.node)
      && (m.start.socket.kind == Output ==> m.from == Some(m.start))
      && (m.start.socket.kind == Input ==> m.to.None? || m.to == Some(m.start))
  }

  // ---------------------------------------------------------------------
  // Pressing on the canvas.

  const LeftButton := 0
  const MiddleButton := 1
  const RightButton := 2

  /**
   * `onMouseDown` on the canvas: nothing while a drag is in progress; the
   * right button zooms; space with the left button, or the middle button,
   * pans from the current offset; the left button alone clears the
   * selection and starts a selection rectangle at the mouse.
   */
  function MouseDown(g: Graph, button: int, space: bool, pos: Coords): (r: Graph)
    ensures r.nodes == g.nodes && r.connections == g.connections && r.offset == g.offset
    ensures g.dragging.Some? ==> r == g
    ensures g.dragging.None? ==> (r.dragging.Some? <==> button in {LeftButton, MiddleButton, RightButton})
    ensures r.dragging != g.dragging ==> r.dragging.value.startPos == pos && !r.dragging.value.mode.NodeDrag? && !r.dragging.value.mode.Connecting?
    ensures r.selected != g.selected ==> r.selected == [] && r.dragging.Some? && r.dragging.value.mode == Selecting(pos, pos)
  {
    if g.dragging.Some? then g
    else if button == RightButton then g.(dragging := Some(Dragging(pos, ZoomDrag)))
    else if (space && button == LeftButton) || button == MiddleButton then
      g.(dragging := Some(Dragging(pos, CanvasPan(g.offset))))
    else if button == LeftButton then
      g.(selected := [], dragging := Some(Dragging(pos, Selecting(pos, pos))))
    else g
  }

  /** The mode each idle press chooses. */
  lemma MouseDownModes(g: Graph, button: int, space: bool, pos: Coords)
    requires g.dragging.None?
    ensures button == RightButton ==> MouseDown(g, button, space, pos).dragging.value.mode == ZoomDrag
    ensures button == MiddleButton || (space && button == LeftButton) ==>
      MouseDown(g, button, space, pos).dragging.value.mode == CanvasPan(g.offset)
    ensures button == LeftButton && !space ==> MouseDown(g, button, space, pos).selected == []
  {
  }

  /** Releasing or leaving the canvas always ends the drag. */
  function MouseLeave(g: Graph): (r: Graph)
    ensures r.dragging.None? && r == g.(dragging := None)
  {
    g.(dragging := None)
  }

  // ---------------------------------------------------------------------
  // Connections.

  /** The connections not into input `sid`, in order. */
  function NotInto(conns: seq<Connection>, sid: SocketId): (r: seq<Connection>)
    ensures |r| <= |conns|
    ensures forall c :: c in r <==> c in conns && c.to.socket != sid
  {
    if |conns| == 0 then []
    else (if conns[0].to.socket != sid then [conns[0]] else []) + NotInto(conns[1..], sid)
  }

  lemma {:induction false} NotIntoKeepsOneIncoming(conns: seq<Connection>, sid: SocketId)
    requires OneIncoming(conns)
    ensures OneIncoming(NotInto(conns, sid))
    decreases |conns|
  {
    if |conns| > 0 {
      var rest := conns[1..];
      assert OneIncoming(rest) by {
        forall i, j | 0 <= i < j < |rest| ensures rest[i].to.socket != rest[j].to.socket {
          assert rest[i] == conns[i + 1] && rest[j] == conns[j + 1];
        }
      }
      NotIntoKeepsOneIncoming(rest, sid);
      var tail := NotInto(rest, sid);
      if conns[0].to.socket != sid {
        var r := [conns[0]] + tail;
        forall i, j | 0 <= i < j < |r| ensures r[i].to.socket != r[j].to.socket {
          if i == 0 {
            assert r[j] == tail[j - 1];
            assert tail[j - 1] in rest;
            var k :| 0 <= k < |rest| && rest[k] == tail[j - 1];
            assert conns[k + 1] == rest[k];
          } else {
            assert r[i] == tail[i - 1] && r[j] == tail[j - 1];
          }
        }
      }
    }
  }

  /** Committing a connection: any connection into the same input is dropped and the new one appended. */
  function Commit(conns: seq<Connection>, from: Pin, to: Pin): (r: seq<Connection>)
    ensures |r| > 0 && r[|r| - 1] == Connection(EndOf(from), EndOf(to))
    ensures forall c | c in conns && c.to.socket != to.socket.id :: c in r
    ensures forall c | c in r && c.to.socket == to.socket.id :: c == Connection(EndOf(from), EndOf(to))
    ensures forall c | c in r :: c in conns || c == Connection(EndOf(from), EndOf(to))
  {
    NotInto(conns, to.socket.id) + [Connection(EndOf(from), EndOf(to))]
  }

  /** Committing keeps each input to at most one incoming connection. */
  lemma CommitKeepsOneIncoming(conns: seq<Connection>, from: Pin, to: Pin)
    requires OneIncoming(conns)
    ensures OneIncoming(Commit(conns, from, to))
  {
    var kept := NotInto(conns, to.socket.id);
    NotIntoKeepsOneIncoming(conns, to.socket.id);
    var r := Commit(conns, from, to);
    forall i, j | 0 <= i < j < |r| ensures r[i].to.socket != r[j].to.socket {
      if j == |r| - 1 {
        assert r[i] == kept[i] && r[i] in kept;
      } else {
        assert r[i] == kept[i] && r[j] == kept[j];
      }
    }
  }

  /** `onMouseUp`: a connection drag with both ends set is committed; any drag ends. */
  function MouseUp(g: Graph): (r: Graph)
    ensures r.dragging.None? && r.nodes == g.nodes && r.selected == g.selected && r.offset == g.offset
    ensures (g.dragging.Some? && g.dragging.value.mode.Connecting? && g.dragging.value.mode.from.Some? && g.dragging.value.mode.to.Some?)
      || r.connections == g.connections
  {
    if g.dragging.Some? && g.dragging.value.mode.Connecting? then
      var m := g.dragging.value.mode;
      if m.from.Some? && m.to.Some? then
        g.(connections := Commit(g.connections, m.from.value, m.to.value), dragging := None)
      else g.(dragging := None)
    else g.(dragging := None)
  }

  /** Releasing a well-formed connection drag keeps the graph well formed. */
  lemma MouseUpKeepsGraphOk(g: Graph)
    requires GraphOk(g) && KindsOk(g.nodes)
    requires g.dragging.Some? ==> DragOk(g.nodes, g.dragging.value.mode)
    ensures GraphOk(MouseUp(g))
  {
    if g.dragging.Some? && g.dragging.value.mode.Connecting? {
      var m := g.dragging.value.mode;
      if m.from.Some? && m.to.Some? {
        var from := m.from.value;
        var to := m.to.value;
        CommitKeepsOneIncoming(g.connections, from, to);
        var c := Connection(EndOf(from), EndOf(to));
        assert from.socket in g.nodes[from.node].outputs;
        assert to.socket in g.nodes[to.node].inputs;
        assert ConnOk(g.nodes, c);
      }
    }
  }

  /** The first connection into input `sid`. */
  function FirstInto(conns: seq<Connection>, sid: SocketId): (r: Option<Connection>)
    ensures r.Some? <==> exists c | c in conns :: c.to.socket == sid
    ensures r.Some? ==> r.value in conns && r.value.to.socket == sid
  {
    if |conns| == 0 then None
    else if conns[0].to.socket == sid then Some(conns[0])
    else FirstInto(conns[1..], sid)
  }

  /** The connections touching neither end at socket `sid`, in order. */
  function Untouched(conns: seq<Connection>, sid: SocketId): (r: seq<Connection>)
    ensures forall c :: c in r <==> c in conns && c.from.socket != sid && c.to.socket != sid
  {
    if |conns| == 0 then []
    else (if conns[0].from.socket != sid && conns[0].to.socket != sid then [conns[0]] else []) + Untouched(conns[1..], sid)
  }

  /** A connection drag starting from a pin: the pin fills the end of its own kind. */
  function StartFrom(pos: Coords, p: Pin): (m: Mode)
    ensures m.Connecting? && m.start == p && m.end == pos
    ensures p.socket.kind == Output ==> m.from == Some(p) && m.to == None
    ensures p.socket.kind == Input ==> m.to == Some(p) && m.from == None
  {
    Connecting(pos, p, if p.socket.kind == Output then Some(p) else None, if p.socket.kind == Input then Some(p) else None)
  }

  /**
   * `beginConnection` on socket `sid` of node `node`. An unknown socket
   * does nothing. Pressing an input drops every connection touching it
   * and, when one came into it, restarts from that connection's output.
   * With `fixed` false the drag's start pin keeps the pressed node even
   * when the socket is the other node's output, as written; with `fixed`
   * true it takes the node the output belongs to.
   */
  function BeginConnection(g: Graph, byId: map<SocketId, Socket>, node: NodeId, sid: SocketId, pos: Coords, fixed: bool): (r: Graph)
    ensures r.nodes == g.nodes && r.selected == g.selected && r.offset == g.offset
    ensures sid !in byId ==> r == g
    ensures sid in byId && byId[sid].kind == Output ==> r.connections == g.connections
    ensures sid in byId && byId[sid].kind == Input ==>
      forall c :: c in r.connections <==> c in g.connections && c.from.socket != sid && c.to.socket != sid
  {
    if sid !in byId then g
    else
      var socket := byId[sid];
      if socket.kind == Input then
        var existing := FirstInto(g.connections, sid);
        var conns := Untouched(g.connections, sid);
        if existing.Some? && existing.value.from.socket !in byId then g.(connections := conns)
        else
          var start :=
            if existing.None? then Pin(node, socket)
            else Pin(if fixed then existing.value.from.node else node, byId[existing.value.from.socket]);
          g.(connections := conns, dragging := Some(Dragging(pos, StartFrom(pos, start))))
      else g.(dragging := Some(Dragging(pos, StartFrom(pos, Pin(node, socket)))))
  }

  /**
   * A pointer move during a connection drag, with `hovered` the socket
   * under the mouse. An output start keeps its `from` and takes a hovered
   * input as `to`; an input start keeps its `to` and takes a hovered output
   * as `from`. A hovered socket on the start node is refused: as written
   * (`fixed` false) by clearing `to` whichever end the start is; with `fixed`
   * true by clearing the end the hover would have filled.
   */
  function MoveConnection(m: Mode, hovered: Option<Pin>, pos: Coords, fixed: bool): (r: Mode)
    requires m.Connecting?
    ensures r.Connecting? && r.start == m.start && r.end == pos
  {
    var from :=
      if m.start.socket.kind == Input && hovered.Some? && hovered.value.socket.kind == Output then hovered
      else if m.start.socket.kind == Output then m.from
      else None;
    var to :=
      if m.start.socket.kind == Output && hovered.Some? && hovered.value.socket.kind == Input then hovered
      else if m.start.socket.kind == Input then m.to
      else None;
    var own := hovered.Some? && hovered.value.node == m.start.node;
    if !own then m.(end := pos, from := from, to := to)
    else if !fixed || m.start.socket.kind == Output then m.(end := pos, from := from, to := None)
    else m.(end := pos, from := None, to := to)
  }

  /** Starting a connection with the fix gives a well-formed drag from a well-formed graph. */
  lemma BeginFixedDragOk(g: Graph, byId: map<SocketId, Socket>, node: NodeId, sid: SocketId, pos: Coords)
    requires GraphOk(g) && KindsOk(g.nodes) && Indexes(g.nodes, byId)
    requires node in g.nodes && sid in byId && byId[sid] in Side(g.nodes[node], byId[sid].kind)
    ensures var r := BeginConnection(g, byId, node, sid, pos, true);
      r.dragging.Some? ==> DragOk(r.nodes, r.dragging.value.mode)
  {
    var socket := byId[sid];
    if socket.kind == Input {
      var existing := FirstInto(g.connections, sid);
      if existing.Some? {
        var c := existing.value;
        assert ConnOk(g.nodes, c);
        var s :| s in g.nodes[c.from.node].outputs && s.id == c.from.socket;
        assert byId[c.from.socket] == s;
        assert s.kind == Output;
      }
    }
  }

  /** A pointer move with the fix keeps a connection drag well formed. */
  lemma MoveFixedDragOk(nodes: map<NodeId, GraphNode>, m: Mode, hovered: Option<Pin>, pos: Coords)
    requires m.Connecting? && DragOk(nodes, m)
    requires hovered.Some? ==> Owns(nodes, hovered.value)
    ensures DragOk(nodes, MoveConnection(m, hovered, pos, true))
  {
  }

  /** With the fix, a drag from an input keeps that input as its `to` however the mouse moves. */
  lemma MoveFixedKeepsInputStart(m: Mode, hovered: Option<Pin>, pos: Coords)
    requires m.Connecting? && m.start.socket.kind == Input && m.to == Some(m.start)
    ensures MoveConnection(m, hovered, pos, true).to == Some(m.start)
  {
  }

  /** `onMouseMove` during a connection drag; other drags are handled by `MoveNodes` and `PanCanvas`. */
  function PointerMove(g: Graph, hovered: Option<Pin>, pos: Coords, fixed: bool): (r: Graph)
    ensures r.nodes == g.nodes && r.connections == g.connections && r.selected == g.selected
    ensures g.dragging.Some? && g.dragging.value.mode.Connecting? ==>
      r.dragging == Some(g.dragging.value.(mode := MoveConnection(g.dragging.value.mode, hovered, pos, fixed)))
  {
    if g.dragging.Some? && g.dragging.value.mode.Connecting? then
      g.(dragging := Some(g.dragging.value.(mode := MoveConnection(g.dragging.value.mode, hovered, pos, fixed))))
    else g
  }

  // A small graph for the two examples below: node A with input `ai` and
  // output `ao`, node B with inputs `bi` and `bj`.

  const SockAi := Socket("ai", "in", Input)
  const SockAo := Socket("ao", "out", Output)
  const SockBi := Socket("bi", "x", Input)
  const SockBj := Socket("bj", "y", Input)
  const Origin := Coords(0.0, 0.0)
  const NodeA := GraphNode("A", None, Origin, "a", "blue", [SockAi], [SockAo])
  const NodeB := GraphNode("B", None, Origin, "b", "green", [SockBi, SockBj], [])
  const Lookup := map["ai" := SockAi, "ao" := SockAo, "bi" := SockBi, "bj" := SockBj]

  function Example(conns: seq<Connection>): Graph
  {
    Graph(map["A" := NodeA, "B" := NodeB], conns, [], None, Origin)
  }

  /**
   * As written: with A.ao connected to B.bi, pressing B.bi restarts from
   * A.ao but records B as the start node. Moving to B's other input is then
   * refused, and releasing over A's own input stores a connection from A to
   * itself whose source end names B.
   */
  lemma RestartKeepsPressedNode()
    ensures var g := BeginConnection(Example([Connection(End("A", "ao"), End("B", "bi"))]), Lookup, "B", "bi", Origin, false);
      && !DragOk(g.nodes, g.dragging.value.mode)
      && MouseUp(PointerMove(g, Some(Pin("B", SockBj)), Origin, false)).connections == []
      && MouseUp(PointerMove(g, Some(Pin("A", SockAi)), Origin, false)).connections == [Connection(End("B", "ao"), End("A", "ai"))]
      && !ConnOk(g.nodes, Connection(End("B", "ao"), End("A", "ai")))
  {
    var g := BeginConnection(Example([Connection(End("A", "ao"), End("B", "bi"))]), Lookup, "B", "bi", Origin, false);
    assert g.dragging.value.mode == StartFrom(Origin, Pin("B", SockAo));
    assert SockAo !in NodeB.outputs;
  }

  /** With the fix, the same restart reconnects A.ao to B's other input. */
  lemma RestartFixedReconnects()
    ensures var g := BeginConnection(Example([Connection(End("A", "ao"), End("B", "bi"))]), Lookup, "B", "bi", Origin, true);
      && DragOk(g.nodes, g.dragging.value.mode)
      && MouseUp(PointerMove(g, Some(Pin("B", SockBj)), Origin, true)).connections == [Connection(End("A", "ao"), End("B", "bj"))]
  {
    var g := BeginConnection(Example([Connection(End("A", "ao"), End("B", "bi"))]), Lookup, "B", "bi", Origin, true);
    assert g.dragging.value.mode == StartFrom(Origin, Pin("A", SockAo));
  }

  /**
   * As written: a drag from the unconnected input B.bj first moves over
   * B.bj itself, which clears its `to`; it never comes back, so releasing
   * over A.ao connects nothing.
   */
  lemma InputStartLost()
    ensures var g := BeginConnection(Example([]), Lookup, "B", "bj", Origin, false);
      var h := PointerMove(PointerMove(g, Some(Pin("B", SockBj)), Origin, false), Some(Pin("A", SockAo)), Origin, false);
      h.dragging.value.mode.to == None && MouseUp(h).connections == []
  {
  }

  /** With the fix, the same gesture connects A.ao to B.bj. */
  lemma InputStartFixedConnects()
    ensures var g := BeginConnection(Example([]), Lookup, "B", "bj", Origin, true);
      var h := PointerMove(PointerMove(g, Some(Pin("B", SockBj)), Origin, true), Some(Pin("A", SockAo)), Origin, true);
      MouseUp(h).connections == [Connection(End("A", "ao"), End("B", "bj"))]
  {
  }

  // ---------------------------------------------------------------------
  // Pressing on nodes.

  /**
   * `onMouseDown` on a node: its touch time is stamped; then, unless a drag
   * is in progress, ctrl adds it to the selection and a plain press makes
   * it the only selected node.
   */
  function NodePress(g: Graph, id: NodeId, ctrl: bool, now: int): (r: Graph)
    requires id in g.nodes
    ensures r.nodes.Keys == g.nodes.Keys && r.nodes[id].lastTouched == Some(now)
    ensures forall k | k in g.nodes && k != id :: r.nodes[k] == g.nodes[k]
    ensures r.connections == g.connections && r.dragging == g.dragging
    ensures g.dragging.Some? ==> r.selected == g.selected
    ensures g.dragging.None? && ctrl ==> r.selected == g.selected + [id]
    ensures g.dragging.None? && !ctrl ==> r.selected == [id]
  {
    var stamped := g.(nodes := g.nodes[id := g.nodes[id].(lastTouched := Some(now))]);
    if g.dragging.Some? then stamped
    else if ctrl then stamped.(selected := g.selected + [id])
    else stamped.(selected := [id])
  }

  /** A ctrl-press on a node that is already selected lists it twice. */
  lemma CtrlPressRepeats(g: Graph, id: NodeId, now: int)
    requires id in g.nodes && g.dragging.None? && id in g.selected
    ensures multiset(NodePress(g, id, true, now).selected)[id] == multiset(g.selected)[id] + 1
  {
  }

  /** Every selected id names a node. */
  predicate SelectedExist(g: Graph)
  {
    forall k | k in g.selected :: k in g.nodes
  }

  /**
   * `beginDragging` from a node's titlebar: nothing during a drag; a
   * selected node moves the whole selection; any other node becomes the
   * only selected node and moves alone.
   */
  function BeginDragging(g: Graph, id: NodeId, pos: Coords): (r: Graph)
    requires id in g.nodes && SelectedExist(g)
    ensures r.nodes == g.nodes && r.connections == g.connections
    ensures g.dragging.Some? ==> r == g
    ensures g.dragging.None? ==> r.dragging.Some? && r.dragging.value.startPos == pos && r.dragging.value.mode.NodeDrag?
    ensures g.dragging.None? ==> id in r.selected
    ensures forall k | k in r.selected :: k in g.nodes
    ensures g.dragging.None? ==> var ms := r.dragging.value.mode.nodes;
      |ms| == |r.selected| && forall i | 0 <= i < |ms| :: ms[i] == Moving(r.selected[i], g.nodes[r.selected[i]].coords)
  {
    if g.dragging.Some? then g
    else if |g.selected| > 0 && id in g.selected then
      g.(dragging := Some(Dragging(pos, NodeDrag(seq(|g.selected|, i requires 0 <= i < |g.selected| => Moving(g.selected[i], g.nodes[g.selected[i]].coords))))))
    else
      g.(selected := [id], dragging := Some(Dragging(pos, NodeDrag([Moving(id, g.nodes[id].coords)]))))
  }

  /**
   * A press on a titlebar runs `beginDragging` on the titlebar and then the
   * node's own handler, which finds the drag already started: with ctrl
   * held, an unselected node still becomes the only selected node.
   */
  lemma TitlebarPressIgnoresCtrl(g: Graph, id: NodeId, pos: Coords, now: int)
    requires id in g.nodes && SelectedExist(g) && g.dragging.None? && id !in g.selected
    ensures NodePress(BeginDragging(g, id, pos), id, true, now).selected == [id]
  {
  }

  /**
   * The nodes being moved, each placed at its start plus the mouse's
   * movement, snapped. A drag lists only nodes present when it starts, so
   * every entry has a node; an entry without one would be skipped here,
   * where the store write would create a node holding only coordinates.
   */
  function MoveNodes(nodes: map<NodeId, GraphNode>, ms: seq<Moving>, startPos: Coords, pos: Coords, zoom: real, step: real): (r: map<NodeId, GraphNode>)
    requires zoom > 0.0 && step > 0.0
    ensures r.Keys == nodes.Keys
    ensures forall k | k in nodes && (forall i | 0 <= i < |ms| :: ms[i].id != k) :: r[k] == nodes[k]
    ensures forall k | k in nodes :: r[k] == nodes[k].(coords := r[k].coords)
    decreases |ms|
  {
    if |ms| == 0 then nodes
    else
      var m := ms[|ms| - 1];
      var before := MoveNodes(nodes, ms[..|ms| - 1], startPos, pos, zoom, step);
      if m.id in before then before[m.id := before[m.id].(coords := DragNode(m.start, startPos, pos, zoom, step))]
      else before
  }

  /** After a move, the last entry for a node decides where it is. */
  lemma {:induction false} MoveNodesPlaces(nodes: map<NodeId, GraphNode>, ms: seq<Moving>, startPos: Coords, pos: Coords, zoom: real, step: real, i: int)
    requires zoom > 0.0 && step > 0.0
    requires 0 <= i < |ms| && ms[i].id in nodes
    requires forall j | i < j < |ms| :: ms[j].id != ms[i].id
    ensures MoveNodes(nodes, ms, startPos, pos, zoom, step)[ms[i].id].coords == DragNode(ms[i].start, startPos, pos, zoom, step)
    decreases |ms|
  {
    if i < |ms| - 1 {
      MoveNodesPlaces(nodes, ms[..|ms| - 1], startPos, pos, zoom, step, i);
    }
  }
}
