/** Runs of a mesh of nodes, and the soundness of loop detection over all of them. */
module MeshProtocol {
  import opened Options
  import opened MeshNode
  import opened Walks

  /** `net` holds every message ever sent: a message may be delivered never, once or often, in any order.
      `links` holds every link that has existed, `origin` the node that drew each mesh id. */
  datatype World = World(nodes: map<nat, NodeView>, net: set<Msg>, links: Links, origin: map<nat, nat>)

  datatype Action =
    | Link(a: nat, b: nat)
    | Linked(a: nat, b: nat)
    | Unlink(a: nat, b: nat)
    | Delete(a: nat, b: nat)
    | StartUnmute(a: nat, b: nat, drawn: nat)
    | SendSub(a: nat, b: nat, outRevision: nat)
    | ResendSak(a: nat, b: nat, c: Choice)
    | Deliver(m: Msg, c: Choice)

  ghost predicate Initial(w: World) {
    && w.net == {} && w.links == {}
    && (forall n | n in w.nodes ::
          && w.nodes[n].addr == n && w.nodes[n].remotes == []
          && w.nodes[n].meshId < MAX_MESH_ID
          && w.nodes[n].meshId in w.origin && w.origin[w.nodes[n].meshId] == n)
  }

  ghost predicate HasRemote(w: World, a: nat, b: nat) {
    a in w.nodes && Lookup(w.nodes[a].remotes, b) < |w.nodes[a].remotes|
  }

  /** No mesh id is ever drawn twice, and none is the reserved one. */
  ghost predicate Fresh(w: World, id: nat) {
    id !in w.origin && id < MAX_MESH_ID
  }

  ghost function Put(w: World, v: NodeView): World {
    w.(nodes := w.nodes[v.addr := v])
  }

  ghost function Drawn(w: World, id: nat, n: nat): World {
    w.(origin := w.origin[id := n])
  }

  ghost predicate Enabled(w: World, a: Action) {
    match a
    case Link(a, b) => a in w.nodes && b in w.nodes && !HasRemote(w, a, b)
    case Linked(a, b) => HasRemote(w, a, b)
    case Unlink(a, b) => HasRemote(w, a, b)
    case Delete(a, b) => HasRemote(w, a, b)
    case StartUnmute(a, b, drawn) => HasRemote(w, a, b) && Fresh(w, drawn)
    case SendSub(a, b, _) =>
      HasRemote(w, a, b) && !w.nodes[a].remotes[Lookup(w.nodes[a].remotes, b)].state.Muted?
    case ResendSak(a, b, _) => HasRemote(w, a, b)
    case Deliver(m, c) => m in w.net && m.dst in w.nodes && Fresh(w, c.drawn)
  }

  ghost function Step(w: World, a: Action): World
    requires Enabled(w, a)
  {
    match a
    case Link(a, b) =>
      var v := w.nodes[a];
      Put(w, v.(remotes := [Remote(b, Linking, 0, MAX_MESH_ID)] + v.remotes)).(links := w.links + {(a, b), (b, a)})
    case Linked(a, b) =>
      var v := w.nodes[a];
      var i := Lookup(v.remotes, b);
      if v.remotes[i].state.Linking? then w.(nodes := w.nodes[a := SetState(v, i, Active)]) else w
    case Unlink(a, b) =>
      var v := w.nodes[a];
      w.(nodes := w.nodes[a := SetState(v, Lookup(v.remotes, b), Unlinking)])
    case Delete(a, b) =>
      var v := w.nodes[a];
      w.(nodes := w.nodes[a := v.(remotes := RemoveAt(v.remotes, Lookup(v.remotes, b)))])
    case StartUnmute(a, b, drawn) =>
      var v := w.nodes[a];
      Drawn(w.(nodes := w.nodes[a := MeshNode.Unmute(v, Lookup(v.remotes, b), drawn)]), drawn, a)
    case SendSub(a, b, outRevision) =>
      var v := w.nodes[a];
      w.(net := w.net + {SubMsg(v, Lookup(v.remotes, b), outRevision)})
    case ResendSak(a, b, c) =>
      var v := w.nodes[a];
      var i := Lookup(v.remotes, b);
      w.(nodes := w.nodes[a := AfterAck(v, i)], net := w.net + {AckMsg(v, i, c)})
    case Deliver(m, c) =>
      var (v, out) := Receive(w.nodes[m.dst], m, c);
      Drawn(w.(nodes := w.nodes[m.dst := v], net := w.net + (set o | o in out)), c.drawn, m.dst)
  }

  /** A run: a first world and the actions taken from it. */
  ghost predicate Runs(w: World, actions: seq<Action>)
    decreases |actions|
  {
    actions == [] || (Enabled(w, actions[0]) && Runs(Step(w, actions[0]), actions[1..]))
  }

  ghost function Last(w: World, actions: seq<Action>): World
    requires Runs(w, actions)
    decreases |actions|
  {
    if actions == [] then w else Last(Step(w, actions[0]), actions[1..])
  }

  // ---- the invariant ----

  /** The walk a mesh id took from the node that drew it to `to`, arriving from `via`. */
  ghost predicate Trail(w: World, id: nat, via: nat, to: nat, t: seq<nat>) {
    && id in w.origin
    && |t| >= 2
    && IsWalk(w.links, t) && NonBacktracking(t)
    && t[0] == w.origin[id] && t[|t| - 2] == via && t[|t| - 1] == to
  }

  ghost predicate Heard(w: World, id: nat, via: nat, to: nat) {
    exists t :: Trail(w, id, via, to, t)
  }

  ghost predicate RemoteInv(w: World, n: nat, r: Remote) {
    && (n, r.addr) in w.links
    && (r.meshId == MAX_MESH_ID || Heard(w, r.meshId, r.addr, n))
  }

  ghost predicate NodeInv(w: World, v: NodeView) {
    && v.meshId < MAX_MESH_ID
    && v.meshId in w.origin && w.origin[v.meshId] == v.addr
    && UniqueAddrs(v.remotes)
    && (forall r | r in v.remotes :: RemoteInv(w, v.addr, r))
  }

  ghost predicate MsgInv(w: World, m: Msg) {
    && (m.src, m.dst) in w.links
    && Heard(w, m.meshId, m.src, m.dst)
  }

  ghost predicate Inv(w: World) {
    && Symmetric(w.links)
    && (forall n | n in w.nodes :: w.nodes[n].addr == n && NodeInv(w, w.nodes[n]))
    && (forall m | m in w.net :: MsgInv(w, m))
  }

  /** Links and drawn ids only accumulate. */
  ghost predicate Extends(w: World, w': World) {
    && w.links <= w'.links
    && w.origin.Keys <= w'.origin.Keys
    && (forall id | id in w.origin :: w'.origin[id] == w.origin[id])
  }

  lemma HeardExtends(w: World, w': World, id: nat, via: nat, to: nat)
    requires Extends(w, w') && Heard(w, id, via, to)
    ensures Heard(w', id, via, to)
  {
    var t :| Trail(w, id, via, to, t);
    assert Trail(w', id, via, to, t);
  }

  lemma NodeInvExtends(w: World, w': World, v: NodeView)
    requires Extends(w, w') && NodeInv(w, v)
    ensures NodeInv(w', v)
  {
    forall r | r in v.remotes
      ensures RemoteInv(w', v.addr, r)
    {
      if r.meshId != MAX_MESH_ID {
        HeardExtends(w, w', r.meshId, r.addr, v.addr);
      }
    }
  }

  lemma MsgInvExtends(w: World, w': World, m: Msg)
    requires Extends(w, w') && MsgInv(w, m)
    ensures MsgInv(w', m)
  {
    HeardExtends(w, w', m.meshId, m.src, m.dst);
  }

  /** The id a node sends to `b` has a trail that ends with the hop to `b`. */
  lemma MinMeshIdTrail(w: World, v: NodeView, b: nat)
    requires NodeInv(w, v) && (v.addr, b) in w.links
    ensures Heard(w, MinMeshId(v.meshId, v.remotes, Some(b)), v.addr, b)
  {
    var id := MinMeshId(v.meshId, v.remotes, Some(b));
    if id == v.meshId {
      assert Trail(w, id, v.addr, b, [v.addr, b]);
    } else {
      var r :| r in v.remotes && Contributes(r, Some(b)) && r.meshId == id;
      assert RemoteInv(w, v.addr, r);
      var t :| Trail(w, id, r.addr, v.addr, t);
      var t' := t + [b];
      forall i | 0 <= i < |t'| - 1
        ensures (t'[i], t'[i + 1]) in w.links
      {
        if i < |t| - 1 {
          assert (t[i], t[i + 1]) in w.links;
        }
      }
      assert Trail(w, id, v.addr, b, t');
    }
  }

  /** Replacing, removing or adding one good remote keeps a node good. */
  lemma NodeInvUpdate(w: World, v: NodeView, i: nat, r: Remote)
    requires NodeInv(w, v) && i < |v.remotes|
    requires r.addr == v.remotes[i].addr && RemoteInv(w, v.addr, r)
    ensures NodeInv(w, v.(remotes := v.remotes[i := r]))
    ensures NodeInv(w, v.(remotes := RemoveAt(v.remotes, i)))
    ensures NodeInv(w, v.(remotes := [r] + RemoveAt(v.remotes, i)))
  {
    assert forall q | q in v.remotes[i := r] :: q == r || q in v.remotes;
    assert forall q | q in RemoveAt(v.remotes, i) :: q in v.remotes;
    assert forall q | q in [r] + RemoveAt(v.remotes, i) :: q == r || q in v.remotes;
    assert v.remotes[i] in v.remotes;
  }

  lemma NodeInvAdd(w: World, v: NodeView, r: Remote)
    requires NodeInv(w, v) && Lookup(v.remotes, r.addr) == |v.remotes|
    requires RemoteInv(w, v.addr, r)
    ensures NodeInv(w, v.(remotes := [r] + v.remotes))
  {
    assert forall q | q in [r] + v.remotes :: q == r || q in v.remotes;
  }

  lemma SentMsgInv(w: World, v: NodeView, i: nat, c: Choice)
    requires NodeInv(w, v) && i < |v.remotes|
    ensures MsgInv(w, AckMsg(v, i, c)) && MsgInv(w, SubMsg(v, i, c.outRevision))
  {
    assert RemoteInv(w, v.addr, v.remotes[i]);
    MinMeshIdTrail(w, v, v.remotes[i].addr);
  }

  ghost predicate Handled(w: World, v: NodeView, out: seq<Msg>) {
    NodeInv(w, v) && (forall o | o in out :: MsgInv(w, o))
  }

  /** A freshly drawn mesh id belongs to the node that drew it. */
  ghost predicate DrawnBy(w: World, id: nat, n: nat) {
    id < MAX_MESH_ID && id in w.origin && w.origin[id] == n
  }

  lemma UnmuteInv(w: World, v: NodeView, i: nat, drawn: nat)
    requires NodeInv(w, v) && i < |v.remotes| && DrawnBy(w, drawn, v.addr)
    ensures NodeInv(w, MeshNode.Unmute(v, i, drawn)) && MeshNode.Unmute(v, i, drawn).addr == v.addr
  {
    var r := v.remotes[i].(state := Unmuting);
    assert RemoteInv(w, v.addr, v.remotes[i]);
    assert RemoteInv(w, v.addr, r);
    NodeInvUpdate(w, v.(meshId := drawn), i, r);
  }

  lemma CheckLoopInv(w: World, v: NodeView, m: Msg, c: Choice)
    requires NodeInv(w, v) && DrawnBy(w, c.drawn, v.addr)
    ensures NodeInv(w, CheckLoop(v, m, c)) && CheckLoop(v, m, c).addr == v.addr
  {
    var i := Lookup(v.remotes, m.src);
    if i < |v.remotes| {
      var r := v.remotes[i];
      assert RemoteInv(w, v.addr, r);
      assert RemoteInv(w, v.addr, r.(state := Muted));
      NodeInvUpdate(w, v, i, r.(state := Muted));
      UnmuteInv(w, v, i, c.drawn);
    }
  }

  lemma UnmuteSubInv(w: World, v: NodeView, i: nat, c: Choice)
    requires NodeInv(w, v) && i < |v.remotes|
    requires DrawnBy(w, c.drawn, v.addr)
    ensures forall o | o in UnmuteSub(v, i, c) :: MsgInv(w, o)
  {
    UnmuteInv(w, v, i, c.drawn);
    SentMsgInv(w, MeshNode.Unmute(v, i, c.drawn), i, c);
  }

  lemma DiscardInv(w: World, v: NodeView, addr: nat)
    requires NodeInv(w, v)
    ensures NodeInv(w, Discard(v, addr)) && Discard(v, addr).addr == v.addr
  {
    var i := Lookup(v.remotes, addr);
    if i < |v.remotes| {
      assert RemoteInv(w, v.addr, v.remotes[i]);
      NodeInvUpdate(w, v, i, v.remotes[i]);
    }
  }

  lemma AfterAckInv(w: World, v: NodeView, i: nat)
    requires NodeInv(w, v) && i < |v.remotes|
    ensures NodeInv(w, AfterAck(v, i)) && AfterAck(v, i).addr == v.addr
    ensures NodeInv(w, SetState(v, i, Active)) && NodeInv(w, SetState(v, i, Unlinking))
  {
    var r := v.remotes[i];
    assert RemoteInv(w, v.addr, r);
    NodeInvUpdate(w, v, i, r.(state := Active));
    NodeInvUpdate(w, v, i, r.(state := Unlinking));
  }

  lemma FinishInv(w: World, v: NodeView, m: Msg, c: Choice)
    requires NodeInv(w, v) && MsgInv(w, m) && m.dst == v.addr
    ensures Handled(w, Finish(v, m, c).0, Finish(v, m, c).1) && Finish(v, m, c).0.addr == v.addr
  {
    var i := Lookup(v.remotes, m.src);
    DiscardInv(w, v, m.src);
    if i < |v.remotes| {
      AfterAckInv(w, v, i);
      SentMsgInv(w, v, i, c);
      var v1 := if m.sakReq then AfterAck(v, i) else v;
      assert RemoteInv(w, v1.addr, v1.remotes[i]);
      var r := v1.remotes[i].(meshId := m.meshId);
      var r1 := if r.state.New? then r.(state := Active) else r;
      var r2 := if m.sak && c.ackCurrent && r1.state.Unmuting? then r1.(state := Active) else r1;
      assert RemoteInv(w, v1.addr, r2);
      NodeInvUpdate(w, v1, i, r2);
    }
  }

  lemma WithSenderInv(w: World, v: NodeView, m: Msg)
    requires Symmetric(w.links) && NodeInv(w, v) && MsgInv(w, m) && m.dst == v.addr
    ensures NodeInv(w, WithSender(v, m.src))
  {
    if Lookup(v.remotes, m.src) == |v.remotes| {
      NodeInvAdd(w, v, Remote(m.src, New, 0, MAX_MESH_ID));
    }
  }

  lemma ProcessInv(w: World, v: NodeView, i: nat, m: Msg, c: Choice)
    requires i == Lookup(v.remotes, m.src) < |v.remotes|
    requires NodeInv(w, v) && MsgInv(w, m) && m.dst == v.addr && DrawnBy(w, c.drawn, v.addr)
    ensures Handled(w, Process(v, i, m, c).0, Process(v, i, m, c).1) && Process(v, i, m, c).0.addr == v.addr
  {
    hide NodeInv, MsgInv, CheckLoop, Finish, Discard, UnmuteSub;
    DiscardInv(w, v, m.src);
    CheckLoopInv(w, v, m, c);
    var v' := CheckLoop(v, m, c);
    DiscardInv(w, v', m.src);
    FinishInv(w, v', m, c);
    UnmuteSubInv(w, v, i, c);
  }

  /** A remote that has unlinked is acknowledged and deleted. */
  lemma UnlinkedInv(w: World, v: NodeView, i: nat, revision: nat, c: Choice)
    requires NodeInv(w, v) && i < |v.remotes|
    ensures NodeInv(w, v.(remotes := RemoveAt(v.remotes, i)))
    ensures MsgInv(w, AckMsg(v.(remotes := v.remotes[i := v.remotes[i].(revision := revision)]), i, c))
  {
    var r := v.remotes[i].(revision := revision);
    assert RemoteInv(w, v.addr, v.remotes[i]);
    assert RemoteInv(w, v.addr, r);
    NodeInvUpdate(w, v, i, r);
    SentMsgInv(w, v.(remotes := v.remotes[i := r]), i, c);
  }

  lemma RevisedInv(w: World, v: NodeView, i: nat, revision: nat)
    requires NodeInv(w, v) && i < |v.remotes|
    ensures NodeInv(w, v.(remotes := v.remotes[i := v.remotes[i].(revision := revision)]))
  {
    var r := v.remotes[i].(revision := revision);
    assert RemoteInv(w, v.addr, v.remotes[i]);
    assert RemoteInv(w, v.addr, r);
    NodeInvUpdate(w, v, i, r);
  }

  lemma ReceiveInv(w: World, v: NodeView, m: Msg, c: Choice)
    requires Symmetric(w.links) && NodeInv(w, v) && MsgInv(w, m) && m.dst == v.addr && DrawnBy(w, c.drawn, v.addr)
    ensures Handled(w, Receive(v, m, c).0, Receive(v, m, c).1) && Receive(v, m, c).0.addr == v.addr
  {
    hide NodeInv, MsgInv, Process, Discard, AckMsg;
    var known := Lookup(v.remotes, m.src);
    if !m.sak && m.unlink {
      if known < |v.remotes| {
        UnlinkedInv(w, v, known, m.revision, c.(sendInterests := false, collision := false));
      }
    } else if !(m.sak && known == |v.remotes|) {
      var v1 := WithSender(v, m.src);
      WithSenderInv(w, v, m);
      DiscardInv(w, v1, m.src);
      var i := Lookup(v1.remotes, m.src);
      var r := v1.remotes[i].(revision := m.revision);
      RevisedInv(w, v1, i, m.revision);
      LookupUpdated(v1.remotes, i, r);
      ProcessInv(w, v1.(remotes := v1.remotes[i := r]), i, m, c);
    }
  }

  /** The invariant after one node and the net have changed. */
  lemma InvAfter(w: World, w': World, a: nat)
    requires Inv(w) && Extends(w, w') && Symmetric(w'.links)
    requires a in w.nodes && w'.nodes.Keys == w.nodes.Keys
    requires forall n | n in w.nodes && n != a :: w'.nodes[n] == w.nodes[n]
    requires w'.nodes[a].addr == a && NodeInv(w', w'.nodes[a])
    requires forall m | m in w'.net && m !in w.net :: MsgInv(w', m)
    ensures Inv(w')
  {
    forall n | n in w'.nodes
      ensures w'.nodes[n].addr == n && NodeInv(w', w'.nodes[n])
    {
      if n != a {
        NodeInvExtends(w, w', w.nodes[n]);
      }
    }
    forall m | m in w'.net
      ensures MsgInv(w', m)
    {
      if m in w.net {
        MsgInvExtends(w, w', m);
      }
    }
  }

  lemma StepInv(w: World, act: Action)
    requires Inv(w) && Enabled(w, act)
    ensures Inv(Step(w, act))
  {
    hide MsgInv, NodeInv, Receive, AckMsg, SubMsg, RemoveAt, MeshNode.Unmute;
    var w' := Step(w, act);
    match act
    case Link(a, b) =>
      NodeInvExtends(w, w', w.nodes[a]);
      NodeInvAdd(w', w.nodes[a], Remote(b, Linking, 0, MAX_MESH_ID));
      InvAfter(w, w', a);
    case Linked(a, b) =>
      NodeInvExtends(w, w', w.nodes[a]);
      var i := Lookup(w.nodes[a].remotes, b);
      AfterAckInv(w', w.nodes[a], i);
      InvAfter(w, w', a);
    case Unlink(a, b) =>
      NodeInvExtends(w, w', w.nodes[a]);
      AfterAckInv(w', w.nodes[a], Lookup(w.nodes[a].remotes, b));
      InvAfter(w, w', a);
    case Delete(a, b) =>
      var i := Lookup(w.nodes[a].remotes, b);
      NodeInvExtends(w, w', w.nodes[a]);
      UnlinkedInv(w', w.nodes[a], i, 0, Choice(0, true, true, false, true, 0));
      InvAfter(w, w', a);
    case StartUnmute(a, b, drawn) =>
      var i := Lookup(w.nodes[a].remotes, b);
      NodeInvExtends(w, w', w.nodes[a]);
      UnmuteInv(w', w.nodes[a], i, drawn);
      InvAfter(w, w', a);
    case SendSub(a, b, outRevision) =>
      NodeInvExtends(w, w', w.nodes[a]);
      SentMsgInv(w', w.nodes[a], Lookup(w.nodes[a].remotes, b), Choice(0, true, true, false, true, outRevision));
      InvAfter(w, w', a);
    case ResendSak(a, b, c) =>
      var i := Lookup(w.nodes[a].remotes, b);
      NodeInvExtends(w, w', w.nodes[a]);
      AfterAckInv(w', w.nodes[a], i);
      SentMsgInv(w', w.nodes[a], i, c);
      InvAfter(w, w', a);
    case Deliver(m, c) =>
      DeliverInv(w, m, c);
  }

  lemma DeliverInv(w: World, m: Msg, c: Choice)
    requires Inv(w) && Enabled(w, Deliver(m, c))
    ensures Inv(Step(w, Deliver(m, c)))
  {
    hide MsgInv, Receive;
    var w' := Step(w, Deliver(m, c));
    NodeInvExtends(w, w', w.nodes[m.dst]);
    MsgInvExtends(w, w', m);
    ReceiveInv(w', w.nodes[m.dst], m, c);
    InvAfter(w, w', m.dst);
  }

  lemma {:induction false} RunInv(w: World, actions: seq<Action>)
    requires Inv(w) && Runs(w, actions)
    ensures Inv(Last(w, actions))
    decreases |actions|
  {
    if actions != [] {
      StepInv(w, actions[0]);
      RunInv(Step(w, actions[0]), actions[1..]);
    }
  }

  // ---- soundness of loop detection ----

  /** A non-backtracking walk from the node that drew `id` to `to`; the trivial walk when `to` drew it. */
  ghost predicate Route(w: World, id: nat, to: nat, t: seq<nat>) {
    && id in w.origin
    && IsWalk(w.links, t) && NonBacktracking(t)
    && t[0] == w.origin[id] && t[|t| - 1] == to
  }

  /** The loop test fires only when its mesh id reached the node over two different routes. */
  lemma LoopMeansTwoRoutes(w: World, v: NodeView, m: Msg, i: nat) returns (p: seq<nat>, q: seq<nat>)
    requires Symmetric(w.links) && NodeInv(w, v) && MsgInv(w, m) && m.dst == v.addr
    requires i < |v.remotes| && v.remotes[i].addr == m.src && MeshHasLoop(v, i, m.meshId)
    ensures Route(w, m.meshId, v.addr, p) && Route(w, m.meshId, v.addr, q) && p != q
    ensures |p| >= 2 && p[|p| - 2] == m.src
    ensures |q| == 1 || q[|q| - 2] != m.src
  {
    p :| Trail(w, m.meshId, m.src, v.addr, p);
    if m.meshId == v.meshId {
      q := [v.addr];
    } else {
      var r :| r in v.remotes && Contributes(r, Some(m.src)) && r.meshId == m.meshId;
      assert RemoteInv(w, v.addr, r);
      q :| Trail(w, m.meshId, r.addr, v.addr, q);
    }
  }

  lemma LoopMeansCycle(w: World, v: NodeView, m: Msg, i: nat)
    requires Symmetric(w.links) && NodeInv(w, v) && MsgInv(w, m) && m.dst == v.addr
    requires i < |v.remotes| && v.remotes[i].addr == m.src && MeshHasLoop(v, i, m.meshId)
    ensures !Acyclic(w.links)
  {
    var p, q := LoopMeansTwoRoutes(w, v, m, i);
    TwoWalksMeanCycle(w.links, p, q);
  }

  /** No remote is muted or being unmuted. */
  ghost predicate NodeQuiet(v: NodeView) {
    forall r | r in v.remotes :: !Silenced(r)
  }

  ghost predicate Quiet(w: World) {
    && (forall n | n in w.nodes :: NodeQuiet(w.nodes[n]))
    && (forall m | m in w.net :: !m.mute && !m.unmute)
  }

  lemma FinishQuiet(v: NodeView, m: Msg, c: Choice)
    requires NodeQuiet(v)
    ensures NodeQuiet(Finish(v, m, c).0)
    ensures forall o | o in Finish(v, m, c).1 :: !o.mute && !o.unmute
  {
    var i := Lookup(v.remotes, m.src);
    if i < |v.remotes| {
      assert v.remotes[i] in v.remotes;
    }
  }

  lemma ProcessQuiet(w: World, v: NodeView, i: nat, m: Msg, c: Choice)
    requires i == Lookup(v.remotes, m.src) < |v.remotes|
    requires Symmetric(w.links) && NodeInv(w, v) && MsgInv(w, m) && m.dst == v.addr
    requires Acyclic(w.links) && NodeQuiet(v) && !m.mute && !m.unmute
    ensures NodeQuiet(Process(v, i, m, c).0)
    ensures forall o | o in Process(v, i, m, c).1 :: !o.mute && !o.unmute
  {
    if MeshHasLoop(v, i, m.meshId) {
      LoopMeansCycle(w, v, m, i);
    }
    assert CheckLoop(v, m, c) == v;
    FinishQuiet(v, m, c);
  }

  lemma ReceiveQuiet(w: World, v: NodeView, m: Msg, c: Choice)
    requires Symmetric(w.links) && NodeInv(w, v) && MsgInv(w, m) && m.dst == v.addr
    requires Acyclic(w.links) && NodeQuiet(v) && !m.mute && !m.unmute
    ensures NodeQuiet(Receive(v, m, c).0)
    ensures forall o | o in Receive(v, m, c).1 :: !o.mute && !o.unmute
  {
    hide NodeInv, MsgInv, Process;
    var known := Lookup(v.remotes, m.src);
    if known < |v.remotes| {
      assert v.remotes[known] in v.remotes;
    }
    if (m.sak || !m.unlink) && !(m.sak && known == |v.remotes|) {
      var v1 := WithSender(v, m.src);
      WithSenderInv(w, v, m);
      var i := Lookup(v1.remotes, m.src);
      var r := v1.remotes[i].(revision := m.revision);
      RevisedInv(w, v1, i, m.revision);
      LookupUpdated(v1.remotes, i, r);
      ProcessQuiet(w, v1.(remotes := v1.remotes[i := r]), i, m, c);
    }
  }

  lemma StepQuiet(w: World, act: Action)
    requires Inv(w) && Quiet(w) && Enabled(w, act) && Acyclic(w.links)
    ensures Quiet(Step(w, act))
  {
    match act
    case Deliver(m, c) =>
      ReceiveQuiet(w, w.nodes[m.dst], m, c);
    case SendSub(a, b, _) =>
      assert w.nodes[a].remotes[Lookup(w.nodes[a].remotes, b)] in w.nodes[a].remotes;
    case ResendSak(a, b, _) =>
      assert w.nodes[a].remotes[Lookup(w.nodes[a].remotes, b)] in w.nodes[a].remotes;
    case _ =>
  }

  lemma {:induction false} LinksGrow(w: World, actions: seq<Action>)
    requires Runs(w, actions)
    ensures w.links <= Last(w, actions).links
    decreases |actions|
  {
    if actions != [] {
      LinksGrow(Step(w, actions[0]), actions[1..]);
    }
  }

  lemma AcyclicSubset(links: Links, more: Links)
    requires links <= more && Acyclic(more)
    ensures Acyclic(links)
  {
    forall c | IsCycle(links, c)
      ensures false
    {
      assert IsCycle(more, c);
    }
  }

  lemma {:induction false} RunQuiet(w: World, actions: seq<Action>)
    requires Inv(w) && Quiet(w) && Runs(w, actions) && Acyclic(Last(w, actions).links)
    ensures Quiet(Last(w, actions))
    decreases |actions|
  {
    if actions != [] {
      LinksGrow(w, actions);
      AcyclicSubset(w.links, Last(w, actions).links);
      StepInv(w, actions[0]);
      StepQuiet(w, actions[0]);
      RunQuiet(Step(w, actions[0]), actions[1..]);
    }
  }

  /** On every run of a mesh whose links never form a cycle, no remote is ever muted, no link is ever
      indicated as muted and no node ever asks to be unmuted. */
  lemma AcyclicMeshNeverMutes(w: World, actions: seq<Action>)
    requires Initial(w) && Runs(w, actions) && Acyclic(Last(w, actions).links)
    ensures Quiet(Last(w, actions))
  {
    RunQuiet(w, actions);
  }

  /** On every run, a message whose delivery makes the loop test fire proves a cycle of links. */
  lemma LoopDetectionSound(w: World, actions: seq<Action>, m: Msg, i: nat)
    requires Initial(w) && Runs(w, actions)
    requires m in Last(w, actions).net && m.dst in Last(w, actions).nodes
    requires i < |Last(w, actions).nodes[m.dst].remotes|
    requires Last(w, actions).nodes[m.dst].remotes[i].addr == m.src
    requires MeshHasLoop(Last(w, actions).nodes[m.dst], i, m.meshId)
    ensures !Acyclic(Last(w, actions).links)
  {
    RunInv(w, actions);
    LoopMeansCycle(Last(w, actions), Last(w, actions).nodes[m.dst], m, i);
  }
}
