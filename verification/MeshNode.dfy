/** The part of a node that takes part in loop detection: mesh ids, remote states and revisions. */
module MeshNode {
  import opened Options

  /** The mesh id of a remote that has not been heard from yet (all bits set). */
  const MAX_MESH_ID: nat := 0xFFFF_FFFF_FFFF_FFFF_FFFF_FFFF_FFFF_FFFF

  datatype RemoteState = New | Active | Linking | Unlinking | Muted | Unmuting

  /** `revision` and `meshId` are the inbound ones, as last received from the remote. */
  datatype Remote = Remote(addr: nat, state: RemoteState, revision: nat, meshId: nat)

  /** A SUB or a SAK: its header flags, revision and mesh id. */
  datatype Msg = Msg(src: nat, dst: nat, sak: bool, sakReq: bool, unlink: bool, mute: bool, unmute: bool,
                     revision: nat, meshId: nat)

  /** What the environment decides while a message is handled. */
  datatype Choice = Choice(
    drawn: nat,            // the mesh id a node draws when it unmutes a remote
    subSent: bool,         // whether the network accepts the SUB that unmuting a remote sends
    sendInterests: bool,   // whether interests are due with the SAK it sends
    collision: bool,       // whether a SUB has met one that the node itself has sent
    ackCurrent: bool,      // whether a received SAK acknowledges the current outbound revision
    outRevision: nat)      // the outbound revision

  datatype NodeView = NodeView(addr: nat, meshId: nat, remotes: seq<Remote>)

  predicate InMesh(r: Remote) {
    r.state.Active? || r.state.Linking?
  }

  /** Muted, or muted until its unmuting completes. */
  predicate Silenced(r: Remote) {
    r.state.Muted? || r.state.Unmuting?
  }

  predicate UniqueAddrs(rs: seq<Remote>) {
    forall i, j | 0 <= i < j < |rs| :: rs[i].addr != rs[j].addr
  }

  /** The position of the remote with an address; `|rs|` when there is none. */
  function Lookup(rs: seq<Remote>, addr: nat): (i: nat)
    ensures i <= |rs|
    ensures i < |rs| ==> rs[i].addr == addr
    ensures forall k | 0 <= k < i :: rs[k].addr != addr
  {
    if rs == [] then 0 else if rs[0].addr == addr then 0 else 1 + Lookup(rs[1..], addr)
  }

  lemma LookupUpdated(rs: seq<Remote>, i: nat, r: Remote)
    requires i < |rs| && i == Lookup(rs, r.addr)
    ensures Lookup(rs[i := r], r.addr) == i
  {
    assert rs[i := r][i].addr == r.addr;
  }

  function RemoveAt(rs: seq<Remote>, i: nat): (r: seq<Remote>)
    requires i < |rs|
  {
    rs[..i] + rs[i + 1..]
  }

  /** The remotes without the one with an address, if there is one. */
  function Deleted(rs: seq<Remote>, addr: nat): seq<Remote> {
    var i := Lookup(rs, addr);
    if i < |rs| then RemoveAt(rs, i) else rs
  }

  /** Exactly that remote is gone: it is not found any more, and every other one still is. */
  lemma DeletedMeans(rs: seq<Remote>, addr: nat)
    requires UniqueAddrs(rs)
    ensures var left := Deleted(rs, addr);
      UniqueAddrs(left) && Lookup(left, addr) == |left| && forall r :: r in left <==> r in rs && r.addr != addr
  {
    var i, left := Lookup(rs, addr), Deleted(rs, addr);
    hide Lookup;
    if i < |rs| {
      assert forall k | 0 <= k < |left| :: left[k] == rs[if k < i then k else k + 1];
      forall r | r in rs && r.addr != addr
        ensures r in left
      {
        var k :| 0 <= k < |rs| && rs[k] == r;
        assert r == left[if k < i then k else k - 1];
      }
    }
  }

  ghost predicate Contributes(r: Remote, excluded: Option<nat>) {
    InMesh(r) && excluded != Some(r.addr)
  }

  ghost function MinTo(own: nat, rs: seq<Remote>, n: nat, excluded: Option<nat>): (m: nat)
    requires n <= |rs|
    ensures m <= own
    ensures forall k | 0 <= k < n && Contributes(rs[k], excluded) :: m <= rs[k].meshId
    ensures m == own || exists k | 0 <= k < n :: Contributes(rs[k], excluded) && rs[k].meshId == m
  {
    if n == 0 then own
    else
      var m := MinTo(own, rs, n - 1, excluded);
      if Contributes(rs[n - 1], excluded) && rs[n - 1].meshId < m then rs[n - 1].meshId else m
  }

  /** The least of the node's own mesh id and the ids heard from the contributing remotes. */
  ghost function MinMeshId(own: nat, rs: seq<Remote>, excluded: Option<nat>): (m: nat)
    ensures m <= own
    ensures forall r | r in rs && Contributes(r, excluded) :: m <= r.meshId
    ensures m == own || exists r | r in rs :: Contributes(r, excluded) && r.meshId == m
  {
    MinTo(own, rs, |rs|, excluded)
  }

  ghost predicate MeshHasLoop(v: NodeView, i: nat, id: nat)
    requires i < |v.remotes|
  {
    v.remotes[i].meshId != id && id == MinMeshId(v.meshId, v.remotes, Some(v.remotes[i].addr))
  }

  ghost function Mute(v: NodeView, i: nat): NodeView
    requires i < |v.remotes|
  {
    var r := v.remotes[i];
    if r.state.Muted? || r.state.Unlinking? then v
    else v.(remotes := [r.(state := Muted)] + RemoveAt(v.remotes, i))
  }

  ghost function Unmute(v: NodeView, i: nat, drawn: nat): NodeView
    requires i < |v.remotes|
  {
    var r := v.remotes[i];
    if Silenced(r) then
      v.(meshId := drawn, remotes := v.remotes[i := r.(state := Unmuting)])
    else v
  }

  /** Whether a SAK carries interests, and so asks for a SAK itself: always when it completes unmuting, but never after a
      collision. */
  ghost predicate AsksForAck(r: Remote, c: Choice) {
    !c.collision && (c.sendInterests || r.state.Unmuting?)
  }

  /** The SAK for a remote, made from the state the remote is in before it is sent. */
  ghost function AckMsg(v: NodeView, i: nat, c: Choice): Msg
    requires i < |v.remotes|
  {
    var r := v.remotes[i];
    Msg(v.addr, r.addr, true, AsksForAck(r, c), r.state.Unlinking?, r.state.Muted?, false,
        c.outRevision, MinMeshId(v.meshId, v.remotes, Some(r.addr)))
  }

  ghost function SubMsg(v: NodeView, i: nat, outRevision: nat): Msg
    requires i < |v.remotes|
  {
    var r := v.remotes[i];
    Msg(v.addr, r.addr, false, true, r.state.Unlinking?, false, r.state.Unmuting?,
        outRevision, MinMeshId(v.meshId, v.remotes, Some(r.addr)))
  }

  ghost function SetState(v: NodeView, i: nat, s: RemoteState): NodeView
    requires i < |v.remotes|
  {
    v.(remotes := v.remotes[i := v.remotes[i].(state := s)])
  }

  /** A SAK to a remote that is being unmuted makes the remote active again. */
  ghost function AfterAck(v: NodeView, i: nat): NodeView
    requires i < |v.remotes|
  {
    if v.remotes[i].state.Unmuting? then SetState(v, i, Active) else v
  }

  ghost function WithSender(v: NodeView, addr: nat): NodeView {
    if Lookup(v.remotes, addr) < |v.remotes| then v
    else v.(remotes := [Remote(addr, New, 0, MAX_MESH_ID)] + v.remotes)
  }

  /** Discarding a message also deletes a remote that was added for it. */
  ghost function Discard(v: NodeView, addr: nat): NodeView {
    var i := Lookup(v.remotes, addr);
    if i < |v.remotes| && v.remotes[i].state.New? then v.(remotes := RemoveAt(v.remotes, i)) else v
  }

  /** The unmute request, the mute indication and the loop test of one message. */
  ghost function CheckLoop(v: NodeView, m: Msg, c: Choice): NodeView {
    var i := Lookup(v.remotes, m.src);
    if i == |v.remotes| then v
    else if m.unmute then (if m.sak then v else Unmute(v, i, c.drawn))
    else if !Silenced(v.remotes[i]) && (m.mute || MeshHasLoop(v, i, m.meshId)) then
      Mute(v, i)
    else v
  }

  /** The acknowledgement, the new inbound mesh id, and the end of the handshake. */
  ghost function Finish(v: NodeView, m: Msg, c: Choice): (NodeView, seq<Msg>) {
    var i := Lookup(v.remotes, m.src);
    if i == |v.remotes| then (v, [])
    else if !m.sakReq && !m.sak then (Discard(v, m.src), [])
    else
      var v1 := if m.sakReq then AfterAck(v, i) else v;
      var r := v1.remotes[i].(meshId := m.meshId);
      var r1 := if r.state.New? then r.(state := Active) else r;
      var r2 := if m.sak && c.ackCurrent && r1.state.Unmuting? then r1.(state := Active) else r1;
      (v1.(remotes := v1.remotes[i := r2]), if m.sakReq then [AckMsg(v, i, c)] else [])
  }

  /** The SUB that unmuting a remote sends to it. */
  ghost function UnmuteSub(v: NodeView, i: nat, c: Choice): seq<Msg>
    requires i < |v.remotes|
  {
    if Silenced(v.remotes[i]) && c.subSent then [SubMsg(Unmute(v, i, c.drawn), i, c.outRevision)] else []
  }

  /** How a node handles a message that is not stale, from the remote at `i`. */
  ghost function Process(v: NodeView, i: nat, m: Msg, c: Choice): (NodeView, seq<Msg>)
    requires i == Lookup(v.remotes, m.src) < |v.remotes|
  {
    if m.unmute && m.sak then (Discard(v, m.src), [])
    else
      var v' := CheckLoop(v, m, c);
      if m.unmute && Silenced(v.remotes[i]) && !c.subSent then (Discard(v', m.src), [])
      else
        var (v'', out) := Finish(v', m, c);
        (v'', if m.unmute then UnmuteSub(v, i, c) + out else out)
  }

  ghost function Unlinked(v: NodeView, m: Msg, c: Choice): (NodeView, seq<Msg>) {
    var i := Lookup(v.remotes, m.src);
    if i == |v.remotes| then (v, [])
    else
      var v1 := v.(remotes := v.remotes[i := v.remotes[i].(revision := m.revision)]);
      (v.(remotes := RemoveAt(v.remotes, i)), [AckMsg(v1, i, c.(sendInterests := false, collision := false))])
  }

  /** How a node handles a SUB or a SAK, and the messages it sends while it does. */
  ghost function Receive(v: NodeView, m: Msg, c: Choice): (NodeView, seq<Msg>) {
    var known := Lookup(v.remotes, m.src);
    if m.sak && known == |v.remotes| then (v, [])
    else if !m.sak && m.unlink then
      Unlinked(v, m, c)
    else
      var v1 := WithSender(v, m.src);
      var i := Lookup(v1.remotes, m.src);
      if m.revision < v1.remotes[i].revision then (Discard(v1, m.src), [])
      else
        var r := v1.remotes[i].(revision := m.revision);
        LookupUpdated(v1.remotes, i, r);
        Process(v1.(remotes := v1.remotes[i := r]), i, m, c)
  }

  /** A remote is new, interests come from it, and it is not muted before they are looked at. */
  ghost predicate FirstInterests(v: NodeView, i: nat, m: Msg)
    requires i < |v.remotes|
  {
    && v.remotes[i].state.New? && m.sakReq
    && (if m.unmute then !m.sak else !m.mute && !MeshHasLoop(v, i, m.meshId))
  }

  /** The first interests of a remote are taken for a repetition, because their revision is that of the remote. */
  ghost predicate FirstIsRepeated(v: NodeView, m: Msg) {
    var v1 := if m.sak then v else WithSender(v, m.src);
    var i := Lookup(v1.remotes, m.src);
    && (m.sak || !m.unlink) && i < |v1.remotes| && v1.remotes[i].revision == m.revision && FirstInterests(v1, i, m)
  }

  ghost predicate NoneNew(v: NodeView) {
    forall r | r in v.remotes :: !r.state.New?
  }

  /** Between messages no remote is new. */
  lemma NoneStaysNew(v: NodeView, m: Msg, c: Choice)
    requires NoneNew(v)
    ensures NoneNew(Receive(v, m, c).0)
  {
    var v1 := WithSender(v, m.src);
    var i := Lookup(v1.remotes, m.src);
    if (m.sak ==> v1 == v) && !(!m.sak && m.unlink) && m.revision >= v1.remotes[i].revision {
      var r := v1.remotes[i].(revision := m.revision);
      LookupUpdated(v1.remotes, i, r);
      ProcessedIsNotNew(v1.(remotes := v1.remotes[i := r]), i, m, c);
    }
  }

  /** No remote is new but the one with an address. */
  ghost predicate OthersOld(v: NodeView, addr: nat) {
    forall k | 0 <= k < |v.remotes| && k != Lookup(v.remotes, addr) :: !v.remotes[k].state.New?
  }

  lemma DiscardedIsNotNew(v: NodeView, addr: nat)
    requires OthersOld(v, addr)
    ensures NoneNew(Discard(v, addr))
  {
  }

  lemma FinishedIsNotNew(v: NodeView, m: Msg, c: Choice)
    requires OthersOld(v, m.src)
    ensures NoneNew(Finish(v, m, c).0)
  {
    hide Discard, AckMsg;
    DiscardedIsNotNew(v, m.src);
  }

  lemma ProcessedIsNotNew(v: NodeView, i: nat, m: Msg, c: Choice)
    requires i == Lookup(v.remotes, m.src) < |v.remotes| && OthersOld(v, m.src)
    ensures NoneNew(Process(v, i, m, c).0)
  {
    hide Discard, Finish, CheckLoop, Lookup, OthersOld, NoneNew;
    CheckedIsOld(v, m, c);
    DiscardedIsNotNew(v, m.src);
    DiscardedIsNotNew(CheckLoop(v, m, c), m.src);
    FinishedIsNotNew(CheckLoop(v, m, c), m, c);
  }

  lemma CheckedIsOld(v: NodeView, m: Msg, c: Choice)
    requires OthersOld(v, m.src)
    ensures OthersOld(CheckLoop(v, m, c), m.src)
  {
  }

  /** Then the assertion that a new remote's interests are not a repetition fails exactly if an unknown sender starts with
      revision 0. */
  lemma FirstIsRepeatedExactlyWhen(v: NodeView, m: Msg)
    requires NoneNew(v)
    ensures FirstIsRepeated(v, m) <==>
      && !m.sak && !m.unlink && Lookup(v.remotes, m.src) == |v.remotes| && m.revision == 0 && m.sakReq
      && (m.unmute || (!m.mute && !MeshHasLoop(WithSender(v, m.src), 0, m.meshId)))
  {
  }

  // ---- what a message does, without following the handlers ----

  /** An id shows a loop: it is not the one last heard from remote `i`, and it is the least of the node's own and those of the
      others. */
  ghost predicate ShowsLoop(own: nat, rs: seq<Remote>, i: nat, id: nat)
    requires i < |rs|
  {
    id != rs[i].meshId && IsLeast(id, own, rs, rs[i].addr)
  }

  lemma ShowsLoopIs(v: NodeView, i: nat, id: nat)
    requires i < |v.remotes|
    ensures ShowsLoop(v.meshId, v.remotes, i, id) <==> MeshHasLoop(v, i, id)
  {
    var (rs, excluded) := (v.remotes, Some(v.remotes[i].addr));
    var min := MinMeshId(v.meshId, rs, excluded);
    forall r | r in rs
      ensures Contributes(r, excluded) <==> r.addr != rs[i].addr && (r.state.Active? || r.state.Linking?)
    {
    }
  }

  /** The remotes, the sender of a SUB among them; a node that was not known is at the head. */
  ghost function WithNew(rs: seq<Remote>, m: Msg): (r: seq<Remote>) {
    if m.sak || (exists k | 0 <= k < |rs| :: rs[k].addr == m.src) then rs
    else [Remote(m.src, New, 0, 0xFFFF_FFFF_FFFF_FFFF_FFFF_FFFF_FFFF_FFFF)] + rs
  }

  /** A message that is looked at: remote `i` is the first with the address of its sender, it does not unlink, and it is not
      stale. */
  ghost predicate Timely(rs: seq<Remote>, i: nat, m: Msg) {
    && i < |rs| && rs[i].addr == m.src && (forall k | 0 <= k < i :: rs[k].addr != m.src)
    && (m.sak || !m.unlink) && rs[i].revision <= m.revision
  }

  /** It indicates muting or shows a loop, and the sender is not silenced, and not about to be gone. */
  ghost predicate MustMute(own: nat, rs: seq<Remote>, i: nat, m: Msg)
    requires i < |rs|
  {
    && !m.unmute && !rs[i].state.Muted? && !rs[i].state.Unmuting? && !rs[i].state.Unlinking?
    && (m.mute || ShowsLoop(own, rs, i, m.meshId))
  }

  /** The least of a node's own id and those of the remotes in the mesh other than the one with an address. */
  ghost predicate IsLeast(id: nat, own: nat, rs: seq<Remote>, addr: nat) {
    && id <= own && (forall r | r in rs && r.addr != addr && (r.state.Active? || r.state.Linking?) :: id <= r.meshId)
    && (id == own || exists r | r in rs :: r.addr != addr && (r.state.Active? || r.state.Linking?) && id == r.meshId)
  }

  /** The answer to a message, if there is one, is one SAK to its sender. */
  ghost predicate Answers(out: seq<Msg>, addr: nat, own: nat, rs: seq<Remote>, m: Msg, mute: bool) {
    if m.sakReq then
      && |out| == 1 && out[0].sak && out[0].src == addr && out[0].dst == m.src && out[0].mute == mute && !out[0].unmute
      && IsLeast(out[0].meshId, own, rs, m.src)
    else out == []
  }

  lemma LeastIs(own: nat, rs: seq<Remote>, addr: nat)
    ensures IsLeast(MinMeshId(own, rs, Some(addr)), own, rs, addr)
  {
    forall r | r in rs
      ensures Contributes(r, Some(addr)) <==> r.addr != addr && (r.state.Active? || r.state.Linking?)
    {
    }
  }

  lemma SameOthers(id: nat, own: nat, rs: seq<Remote>, rs': seq<Remote>, addr: nat)
    requires forall r: Remote | r.addr != addr :: r in rs <==> r in rs'
    ensures IsLeast(id, own, rs, addr) <==> IsLeast(id, own, rs', addr)
  {
  }

  /** The sender is muted: it is at the head, the others stay as they were, and the answer says so. */
  ghost predicate IsMuted(addr: nat, own: nat, was: seq<Remote>, i: nat, m: Msg, now: seq<Remote>, out: seq<Msg>)
    requires i < |was|
  {
    && |now| == |was| && now[0].addr == m.src && now[0].state == Muted && now[0].revision == m.revision
    && (m.sakReq || m.sak ==> now[0].meshId == m.meshId)
    && now[1..] == was[..i] + was[i + 1..]
    && Answers(out, addr, own, was, m, true)
  }

  lemma {:induction false} LookupIs(rs: seq<Remote>, i: nat, addr: nat)
    requires i < |rs| && rs[i].addr == addr && forall k | 0 <= k < i :: rs[k].addr != addr
    ensures Lookup(rs, addr) == i
  {
  }

  lemma WithNewIs(v: NodeView, m: Msg)
    requires !m.sak
    ensures WithSender(v, m.src).remotes == WithNew(v.remotes, m)
  {
    assert Lookup(v.remotes, m.src) < |v.remotes| <==> exists k | 0 <= k < |v.remotes| :: v.remotes[k].addr == m.src;
  }

  /** Every message that is looked at, and that indicates muting or shows a loop, mutes its sender. */
  lemma LoopMutes(v: NodeView, i: nat, m: Msg, c: Choice)
    requires var rs := WithNew(v.remotes, m); Timely(rs, i, m) && MustMute(v.meshId, rs, i, m)
    ensures var (v', out) := Receive(v, m, c);
      && v'.addr == v.addr && v'.meshId == v.meshId
      && IsMuted(v.addr, v.meshId, WithNew(v.remotes, m), i, m, v'.remotes, out)
  {
    hide *;
    Looked(v, i, m, c);
    ProcessMutes(v, WithNew(v.remotes, m), i, m, c);
  }

  /** A remote after a message that does not mute it: a new one is active, and so is one that was being unmuted, once it has
      been acknowledged or has acknowledged. */
  ghost function Settled(r: Remote, m: Msg, ackCurrent: bool): Remote {
    r.(revision := m.revision, meshId := m.meshId,
       state := if r.state.New? || (r.state.Unmuting? && (m.sakReq || (m.sak && ackCurrent))) then Active else r.state)
  }

  /** A muted remote stays so. */
  lemma Finished(v: NodeView, j: nat, m: Msg, c: Choice)
    requires j == Lookup(v.remotes, m.src) < |v.remotes| && v.remotes[j].state.Muted? && v.remotes[j].revision == m.revision
    ensures Finish(v, m, c) == if !m.sak && !m.sakReq then (v, []) else
      (v.(remotes := v.remotes[j := v.remotes[j].(meshId := m.meshId)]), if m.sakReq then [AckMsg(v, j, c)] else [])
  {
    hide Lookup, AckMsg;
  }

  lemma Finishes(v: NodeView, j: nat, m: Msg, c: Choice)
    requires j == Lookup(v.remotes, m.src) < |v.remotes| && (m.sak || m.sakReq) && v.remotes[j].revision == m.revision
    ensures Finish(v, m, c) == (v.(remotes := v.remotes[j := Settled(v.remotes[j], m, c.ackCurrent)]),
                                if m.sakReq then [AckMsg(v, j, c)] else [])
  {
    hide Lookup, AckMsg;
    var (r, settled) := (v.remotes[j], Settled(v.remotes[j], m, c.ackCurrent));
    assert v.remotes[j := r.(state := Active)][j := settled] == v.remotes[j := settled];
  }

  /** What a SAK and a SUB say, if the other remotes are those of a list. */
  lemma SentMeans(v: NodeView, j: nat, c: Choice, rs: seq<Remote>)
    requires j < |v.remotes| && forall r: Remote | r.addr != v.remotes[j].addr :: r in rs <==> r in v.remotes
    ensures var (m, r) := (AckMsg(v, j, c), v.remotes[j]);
      && m.sak && m.src == v.addr && m.dst == r.addr && m.mute == r.state.Muted? && !m.unmute
      && IsLeast(m.meshId, v.meshId, rs, r.addr)
    ensures var (m, r) := (SubMsg(v, j, c.outRevision), v.remotes[j]);
      && !m.sak && m.sakReq && m.src == v.addr && m.dst == r.addr && m.unmute == r.state.Unmuting?
      && m.revision == c.outRevision && IsLeast(m.meshId, v.meshId, rs, r.addr)
  {
    LeastIs(v.meshId, v.remotes, v.remotes[j].addr);
    SameOthers(MinMeshId(v.meshId, v.remotes, Some(v.remotes[j].addr)), v.meshId, rs, v.remotes, v.remotes[j].addr);
  }

  /** The list of remotes when one of them has moved to the head and been changed. */
  lemma AtHead(rs: seq<Remote>, i: nat, x: Remote, y: Remote, z: Remote)
    requires i < |rs|
    ensures var moved := [y] + RemoveAt(rs[i := x], i);
      |moved| == |rs| && moved[1..] == rs[..i] + rs[i + 1..] && moved[0 := z][1..] == rs[..i] + rs[i + 1..]
  {
    assert rs[i := x][..i] == rs[..i] && rs[i := x][i + 1..] == rs[i + 1..];
  }

  lemma ProcessMutes(v: NodeView, rs: seq<Remote>, i: nat, m: Msg, c: Choice)
    requires Timely(rs, i, m) && MustMute(v.meshId, rs, i, m)
    requires i == Lookup(rs[i := rs[i].(revision := m.revision)], m.src)
    ensures var (v', out) := Process(v.(remotes := rs[i := rs[i].(revision := m.revision)]), i, m, c);
      && v'.addr == v.addr && v'.meshId == v.meshId && IsMuted(v.addr, v.meshId, rs, i, m, v'.remotes, out)
  {
    var v1 := v.(remotes := rs[i := rs[i].(revision := m.revision)]);
    LoopShownAgain(v.meshId, rs, i, m.revision, m.meshId);
    ShowsLoopIs(v1, i, m.meshId);
    hide Lookup, MeshHasLoop, ShowsLoop, AckMsg, IsLeast;
    var v2 := Mute(v1, i);
    assert CheckLoop(v1, m, c) == v2;
    LookupIs(v2.remotes, 0, m.src);
    OthersStay(rs, i, v1.remotes[i]);
    OthersMove(v1.remotes, i, v2.remotes[0]);
    SentMeans(v2, 0, c, rs);
    Finished(v2, 0, m, c);
    AtHead(rs, i, v1.remotes[i], v2.remotes[0], v2.remotes[0].(meshId := m.meshId));
    hide Finish, Mute, RemoveAt, CheckLoop;
  }

  lemma OthersStay(rs: seq<Remote>, i: nat, x: Remote)
    requires i < |rs| && rs[i].addr == x.addr
    ensures forall r: Remote | r.addr != x.addr :: r in rs <==> r in rs[i := x]
  {
    forall r: Remote | r.addr != x.addr
      ensures r in rs <==> r in rs[i := x]
    {
      if k :| 0 <= k < |rs| && rs[k] == r {
        assert rs[i := x][k] == r;
      }
    }
  }

  lemma OthersMove(rs: seq<Remote>, i: nat, x: Remote)
    requires i < |rs| && rs[i].addr == x.addr
    ensures forall r: Remote | r.addr != x.addr :: r in rs <==> r in [x] + RemoveAt(rs, i)
  {
    assert rs == rs[..i] + [rs[i]] + rs[i + 1..];
  }

  /** Any other message leaves the sender in its place, with the revision and the mesh id of the message; the answer says
      whether it is muted already. */
  lemma NoLoopKeeps(v: NodeView, i: nat, m: Msg, c: Choice)
    requires Timely(WithNew(v.remotes, m), i, m) && !MustMute(v.meshId, WithNew(v.remotes, m), i, m) && (m.sak || m.sakReq)
    requires var r := WithNew(v.remotes, m)[i]; !(m.unmute && (m.sak || r.state.Muted? || r.state.Unmuting?))
    ensures var (v', out) := Receive(v, m, c);
      var rs := WithNew(v.remotes, m);
      v' == v.(remotes := rs[i := Settled(rs[i], m, c.ackCurrent)]) && Answers(out, v.addr, v.meshId, rs, m, rs[i].state.Muted?)
  {
    hide *;
    Looked(v, i, m, c);
    ProcessKeeps(v, WithNew(v.remotes, m), i, m, c);
  }

  lemma ProcessKeeps(v: NodeView, rs: seq<Remote>, i: nat, m: Msg, c: Choice)
    requires Timely(rs, i, m) && !MustMute(v.meshId, rs, i, m) && (m.sak || m.sakReq)
    requires !(m.unmute && (m.sak || rs[i].state.Muted? || rs[i].state.Unmuting?))
    requires i == Lookup(rs[i := rs[i].(revision := m.revision)], m.src)
    ensures var (v', out) := Process(v.(remotes := rs[i := rs[i].(revision := m.revision)]), i, m, c);
      && v' == v.(remotes := rs[i := Settled(rs[i], m, c.ackCurrent)])
      && Answers(out, v.addr, v.meshId, rs, m, rs[i].state.Muted?)
  {
    var v1 := v.(remotes := rs[i := rs[i].(revision := m.revision)]);
    LoopShownAgain(v.meshId, rs, i, m.revision, m.meshId);
    ShowsLoopIs(v1, i, m.meshId);
    hide Lookup, MeshHasLoop, ShowsLoop, AckMsg, IsLeast;
    assert CheckLoop(v1, m, c) == v1;
    OthersStay(rs, i, v1.remotes[i]);
    SentMeans(v1, i, c, rs);
    Finishes(v1, i, m, c);
    hide Finish;
  }

  /** The request to unmute makes a silenced remote active. The node draws a new mesh id, and sends a SUB with the same
      request and the new least id, and the answer. */
  ghost predicate IsUnmuted(v: NodeView, rs: seq<Remote>, i: nat, m: Msg, c: Choice, v': NodeView, out: seq<Msg>)
    requires i < |rs|
  {
    && v' == v.(meshId := c.drawn, remotes := rs[i := rs[i].(revision := m.revision, meshId := m.meshId, state := Active)])
    && |out| == 2 && out[0].src == v.addr && out[0].dst == m.src && !out[0].sak && out[0].sakReq && out[0].unmute
    && out[0].revision == c.outRevision && IsLeast(out[0].meshId, c.drawn, rs, m.src)
    && Answers(out[1..], v.addr, c.drawn, rs, m, false)
  }

  lemma UnmuteUnmutes(v: NodeView, i: nat, m: Msg, c: Choice)
    requires Timely(WithNew(v.remotes, m), i, m) && m.unmute && !m.sak && m.sakReq && c.subSent
    requires var r := WithNew(v.remotes, m)[i]; r.state.Muted? || r.state.Unmuting?
    ensures IsUnmuted(v, WithNew(v.remotes, m), i, m, c, Receive(v, m, c).0, Receive(v, m, c).1)
  {
    hide *;
    Looked(v, i, m, c);
    ProcessUnmutes(v, WithNew(v.remotes, m), i, m, c);
  }

  lemma ProcessUnmutes(v: NodeView, rs: seq<Remote>, i: nat, m: Msg, c: Choice)
    requires Timely(rs, i, m) && m.unmute && !m.sak && m.sakReq && c.subSent
    requires rs[i].state.Muted? || rs[i].state.Unmuting?
    requires i == Lookup(rs[i := rs[i].(revision := m.revision)], m.src)
    ensures var (v', out) := Process(v.(remotes := rs[i := rs[i].(revision := m.revision)]), i, m, c);
      IsUnmuted(v, rs, i, m, c, v', out)
  {
    hide Lookup, AckMsg, SubMsg, IsLeast, Finish, Process, Settled, CheckLoop;
    var r1 := rs[i].(revision := m.revision);
    var r2 := r1.(state := Unmuting);
    var v2 := v.(meshId := c.drawn, remotes := rs[i := r2]);
    var active := Settled(r2, m, c.ackCurrent);
    assert rs[i := r1][i := r2] == rs[i := r2] && rs[i := r2][i := active] == rs[i := active];
    ProcessOfUnmute(v.(remotes := rs[i := r1]), i, m, c);
    LookupIs(v2.remotes, i, m.src);
    OthersStay(rs, i, r2);
    SentMeans(v2, i, c, rs);
    Finishes(v2, i, m, c);
    SettledActive(rs[i], m, c.ackCurrent);
  }

  lemma SettledActive(r: Remote, m: Msg, ackCurrent: bool)
    requires m.sakReq
    ensures Settled(r.(revision := m.revision, state := Unmuting), m, ackCurrent)
      == r.(revision := m.revision, meshId := m.meshId, state := Active)
  {
  }

  lemma ProcessOfUnmute(v: NodeView, i: nat, m: Msg, c: Choice)
    requires i == Lookup(v.remotes, m.src) < |v.remotes| && m.unmute && !m.sak && c.subSent && Silenced(v.remotes[i])
    ensures var v' := v.(meshId := c.drawn, remotes := v.remotes[i := v.remotes[i].(state := Unmuting)]);
      Process(v, i, m, c) == (Finish(v', m, c).0, [SubMsg(v', i, c.outRevision)] + Finish(v', m, c).1)
  {
    hide Lookup, Finish, SubMsg;
  }

  /** What every message that is looked at does. */
  lemma ReceiveMeans(v: NodeView, m: Msg, c: Choice)
    ensures var rs := WithNew(v.remotes, m);
      var (v', out) := Receive(v, m, c);
      forall i: nat | Timely(rs, i, m) ::
        && (MustMute(v.meshId, rs, i, m) ==> v'.meshId == v.meshId && IsMuted(v.addr, v.meshId, rs, i, m, v'.remotes, out))
        && (!MustMute(v.meshId, rs, i, m) && (m.sak || m.sakReq) && !m.unmute ==>
              && v'.remotes == rs[i := Settled(rs[i], m, c.ackCurrent)]
              && Answers(out, v.addr, v.meshId, rs, m, rs[i].state.Muted?))
        && (m.unmute && !m.sak && m.sakReq && c.subSent && (rs[i].state.Muted? || rs[i].state.Unmuting?) ==>
              IsUnmuted(v, rs, i, m, c, v', out))
  {
    hide Receive, MustMute, Settled, IsMuted, IsUnmuted, Answers, WithNew;
    var rs := WithNew(v.remotes, m);
    forall i: nat | Timely(rs, i, m)
      ensures MustMute(v.meshId, rs, i, m) ==> var (v', out) := Receive(v, m, c);
        v'.meshId == v.meshId && IsMuted(v.addr, v.meshId, rs, i, m, v'.remotes, out)
      ensures !MustMute(v.meshId, rs, i, m) && (m.sak || m.sakReq) && !m.unmute ==> var (v', out) := Receive(v, m, c);
        v'.remotes == rs[i := Settled(rs[i], m, c.ackCurrent)] && Answers(out, v.addr, v.meshId, rs, m, rs[i].state.Muted?)
      ensures m.unmute && !m.sak && m.sakReq && c.subSent && (rs[i].state.Muted? || rs[i].state.Unmuting?) ==>
        IsUnmuted(v, rs, i, m, c, Receive(v, m, c).0, Receive(v, m, c).1)
    {
      if MustMute(v.meshId, rs, i, m) {
        LoopMutes(v, i, m, c);
      } else if (m.sak || m.sakReq) && !m.unmute {
        NoLoopKeeps(v, i, m, c);
      }
      if m.unmute && !m.sak && m.sakReq && c.subSent && (rs[i].state.Muted? || rs[i].state.Unmuting?) {
        UnmuteUnmutes(v, i, m, c);
      }
    }
  }

  /** A stale message changes nothing. */
  lemma StaleIsIgnored(v: NodeView, i: nat, m: Msg, c: Choice)
    requires i < |v.remotes| && v.remotes[i].addr == m.src && (forall k | 0 <= k < i :: v.remotes[k].addr != m.src)
    requires (m.sak || !m.unlink) && m.revision < v.remotes[i].revision && !v.remotes[i].state.New?
    ensures Receive(v, m, c) == (v, [])
  {
    LookupIs(v.remotes, i, m.src);
  }

  /** A SUB that unlinks takes its sender away, and is acknowledged. */
  lemma UnlinkDeletes(v: NodeView, i: nat, m: Msg, c: Choice)
    requires i < |v.remotes| && v.remotes[i].addr == m.src && (forall k | 0 <= k < i :: v.remotes[k].addr != m.src)
    requires !m.sak && m.unlink
    ensures var (v', out) := Receive(v, m, c);
      && v' == v.(remotes := v.remotes[..i] + v.remotes[i + 1..])
      && |out| == 1 && out[0].sak && out[0].src == v.addr && out[0].dst == m.src
  {
    LookupIs(v.remotes, i, m.src);
  }

  /** The revision of the sender has no part in the loop test. */
  lemma LoopShownAgain(own: nat, rs: seq<Remote>, i: nat, revision: nat, id: nat)
    requires i < |rs|
    ensures ShowsLoop(own, rs[i := rs[i].(revision := revision)], i, id) <==> ShowsLoop(own, rs, i, id)
  {
    OthersStay(rs, i, rs[i].(revision := revision));
    SameOthers(id, own, rs, rs[i := rs[i].(revision := revision)], rs[i].addr);
  }

  /** A message that is looked at is processed by the remote it comes from. */
  lemma Looked(v: NodeView, i: nat, m: Msg, c: Choice)
    requires Timely(WithNew(v.remotes, m), i, m)
    ensures var rs := WithNew(v.remotes, m);
      var v1 := v.(remotes := rs[i := rs[i].(revision := m.revision)]);
      i == Lookup(v1.remotes, m.src) && Receive(v, m, c) == Process(v1, i, m, c)
  {
    var rs := WithNew(v.remotes, m);
    if !m.sak {
      WithNewIs(v, m);
    }
    LookupIs(rs, i, m.src);
    LookupUpdated(rs, i, rs[i].(revision := m.revision));
    hide Process;
  }

  /** A node whose handlers update its remotes in place. The linked list of remotes is a sequence, head first. */
  class Node {
    const addr: nat
    var meshId: nat
    var remotes: seq<Remote>

    ghost function View(): NodeView
      reads this
    {
      NodeView(addr, meshId, remotes)
    }

    constructor (addr: nat, meshId: nat)
      ensures View() == NodeView(addr, meshId, [])
    {
      this.addr, this.meshId, this.remotes := addr, meshId, [];
    }

    method FindMinMeshId(excluded: Option<nat>) returns (minMeshId: nat)
      ensures minMeshId == MinMeshId(meshId, remotes, excluded)
    {
      minMeshId := meshId;
      for k := 0 to |remotes|
        invariant minMeshId == MinTo(meshId, remotes, k, excluded)
      {
        var remote := remotes[k];
        if excluded == Some(remote.addr) || (!remote.state.Active? && !remote.state.Linking?) {
          continue;
        }
        if remote.meshId < minMeshId {
          minMeshId := remote.meshId;
        }
      }
    }

    method LookupRemote(addr: nat) returns (i: nat)
      ensures i == Lookup(remotes, addr)
    {
      i := 0;
      while i < |remotes| && remotes[i].addr != addr
        invariant i <= |remotes|
        invariant Lookup(remotes, addr) == i + Lookup(remotes[i..], addr)
      {
        i := i + 1;
      }
    }

    method HasLoop(i: nat, id: nat) returns (loop: bool)
      requires i < |remotes|
      ensures loop == MeshHasLoop(View(), i, id) == ShowsLoop(meshId, remotes, i, id)
    {
      ShowsLoopIs(View(), i, id);
      if remotes[i].meshId == id {
        return false;
      }
      var min := FindMinMeshId(Some(remotes[i].addr));
      return id == min;
    }

    method AddRemote(addr: nat) returns (i: nat)
      modifies this
      ensures View() == WithSender(old(View()), addr)
      ensures i == Lookup(remotes, addr) < |remotes|
    {
      i := LookupRemote(addr);
      if i == |remotes| {
        remotes := [Remote(addr, New, 0, MAX_MESH_ID)] + remotes;
        i := 0;
      }
    }

    /** Deletes the remote with an address, if there is one: the record before it is found and linked to the one after it. */
    method DeleteRemote(addr: nat)
      modifies this
      ensures View() == old(View()).(remotes := Deleted(old(remotes), addr))
      ensures UniqueAddrs(old(remotes)) ==>
        UniqueAddrs(remotes) && forall r :: r in remotes <==> r in old(remotes) && r.addr != addr
    {
      if UniqueAddrs(remotes) {
        DeletedMeans(remotes, addr);
      }
      var i := LookupRemote(addr);
      if i == |remotes| {
        return;
      }
      if remotes[0].addr == addr {
        remotes := remotes[1..];
      } else {
        var prev := 0;
        while remotes[prev + 1].addr != addr
          invariant prev < i
          decreases i - prev
        {
          prev := prev + 1;
        }
        remotes := remotes[..prev + 1] + remotes[prev + 2..];
      }
    }

    /** The muted remote moves to the head of the list, so that remotes are unmuted last muted first. */
    method MuteRemote(i: nat)
      requires i < |remotes|
      modifies this
      ensures View() == Mute(old(View()), i)
      ensures meshId == old(meshId)
      ensures if old(remotes[i]).state == Muted || old(remotes[i]).state == Unlinking then remotes == old(remotes)
        else remotes == [old(remotes[i]).(state := Muted)] + (old(remotes)[..i] + old(remotes)[i + 1..])
    {
      var remote := remotes[i];
      if remote.state == Muted || remote.state == Unlinking {
        return;
      }
      remotes := [remote.(state := Muted)] + (remotes[..i] + remotes[i + 1..]);
    }

    method SendSubscription(i: nat, outRevision: nat) returns (m: Msg)
      requires i < |remotes| && !remotes[i].state.Muted?
      ensures m == SubMsg(View(), i, outRevision)
      ensures !m.sak && m.sakReq && m.dst == remotes[i].addr && IsLeast(m.meshId, meshId, remotes, remotes[i].addr)
      ensures m.unlink == (remotes[i].state == Unlinking) && m.unmute == (remotes[i].state == Unmuting) && !m.mute
    {
      LeastIs(meshId, remotes, remotes[i].addr);
      var remote := remotes[i];
      var min := FindMinMeshId(Some(remote.addr));
      m := Msg(addr, remote.addr, false, true, remote.state == Unlinking, false, remote.state == Unmuting,
               outRevision, min);
    }

    /** `ok` is false when the SUB could not be sent. */
    method UnmuteRemote(i: nat, c: Choice) returns (ok: bool, out: seq<Msg>)
      requires i < |remotes|
      modifies this
      ensures View() == Unmute(old(View()), i, c.drawn)
      ensures ok == (!Silenced(old(remotes[i])) || c.subSent)
      ensures out == UnmuteSub(old(View()), i, c)
      ensures if old(remotes[i]).state == Muted || old(remotes[i]).state == Unmuting then
          && remotes == old(remotes)[i := old(remotes[i]).(state := Unmuting)] && meshId == c.drawn && ok == c.subSent
          && (if ok then |out| == 1 && !out[0].sak && out[0].unmute && out[0].dst == old(remotes[i]).addr else out == [])
        else remotes == old(remotes) && meshId == old(meshId) && ok && out == []
    {
      ok, out := true, [];
      var remote := remotes[i];
      if remote.state == Muted || remote.state == Unmuting {
        remotes := remotes[i := remote.(state := Unmuting)];
        meshId := c.drawn;
        ok := c.subSent;
        if ok {
          var sub := SendSubscription(i, c.outRevision);
          out := [sub];
        }
      }
    }

    method SendSubscriptionAck(i: nat, c: Choice) returns (m: Msg)
      requires i < |remotes|
      modifies this
      ensures m == AckMsg(old(View()), i, c)
      ensures View() == AfterAck(old(View()), i)
      ensures m.sak && m.dst == old(remotes[i]).addr && IsLeast(m.meshId, meshId, old(remotes), m.dst) && !m.unmute
      ensures m.unlink == (old(remotes[i]).state == Unlinking) && m.mute == (old(remotes[i]).state == Muted)
      ensures m.sakReq == (!c.collision && (c.sendInterests || old(remotes[i]).state == Unmuting))
    {
      LeastIs(meshId, remotes, remotes[i].addr);
      var remote := remotes[i];
      var unlink, mute, sendInterests := remote.state == Unlinking, remote.state == Muted, c.sendInterests;
      var min := FindMinMeshId(Some(remote.addr));
      if remote.state == Unmuting {
        remotes := remotes[i := remote.(state := Active)];
        sendInterests := true;
      }
      m := Msg(addr, remote.addr, true, !c.collision && sendInterests, unlink, mute, false, c.outRevision, min);
    }

    method DiscardMessage(src: nat)
      modifies this
      ensures View() == Discard(old(View()), src)
    {
      var i := LookupRemote(src);
      if i < |remotes| && remotes[i].state == New {
        DeleteRemote(src);
      }
    }

    /** A remote that unlinks is acknowledged and then deleted. */
    method UnlinkRemote(i: nat, m: Msg, c: Choice) returns (out: seq<Msg>)
      requires i == Lookup(remotes, m.src)
      modifies this
      ensures (View(), out) == Unlinked(old(View()), m, c)
    {
      hide Lookup, AckMsg;
      out := [];
      if i < |remotes| {
        ghost var rs := remotes;
        remotes := remotes[i := remotes[i].(revision := m.revision)];
        var ack := SendSubscriptionAck(i, c.(sendInterests := false, collision := false));
        assert remotes == rs[i := remotes[i]];
        LookupUpdated(rs, i, remotes[i]);
        DeleteRemote(m.src);
        out := [ack];
      }
    }

    /** The mesh part of the handler of both message kinds. `asserted` says whether the assertion that the first interests of
        a remote are not a repetition holds, if it is reached. */
    method DecodeSubscription(m: Msg, c: Choice) returns (out: seq<Msg>, asserted: bool)
      modifies this
      ensures (View(), out) == Receive(old(View()), m, c)
      ensures asserted <==> !FirstIsRepeated(old(View()), m)
      ensures var rs := WithNew(old(remotes), m);
        forall i: nat | Timely(rs, i, m) ::
          && (MustMute(old(meshId), rs, i, m) ==> meshId == old(meshId) && IsMuted(addr, meshId, rs, i, m, remotes, out))
          && (!MustMute(old(meshId), rs, i, m) && (m.sak || m.sakReq) && !m.unmute ==>
                && remotes == rs[i := Settled(rs[i], m, c.ackCurrent)]
                && Answers(out, addr, old(meshId), rs, m, rs[i].state.Muted?))
          && (m.unmute && !m.sak && m.sakReq && c.subSent && (rs[i].state.Muted? || rs[i].state.Unmuting?) ==>
                IsUnmuted(old(View()), rs, i, m, c, View(), out))
    {
      ReceiveMeans(View(), m, c);
      hide Process, FirstInterests, Timely, MustMute, Settled, IsMuted, IsUnmuted, Answers, WithNew;
      out, asserted := [], true;
      var i := LookupRemote(m.src);
      if m.sak {
        if i == |remotes| {
          return;
        }
      } else {
        if m.unlink {
          out := UnlinkRemote(i, m, c);
          return;
        }
        i := AddRemote(m.src);
      }
      if m.revision < remotes[i].revision {
        DiscardMessage(m.src);
        return;
      }
      var isDuplicate := remotes[i].revision == m.revision;
      LookupUpdated(remotes, i, remotes[i].(revision := m.revision));
      ghost var before := remotes;
      remotes := remotes[i := remotes[i].(revision := m.revision)];
      assert isDuplicate ==> remotes == before;
      out, asserted := ProcessMessage(i, m, c, isDuplicate);
    }

    method ProcessMessage(i: nat, m: Msg, c: Choice, isDuplicate: bool) returns (out: seq<Msg>, asserted: bool)
      requires i == Lookup(remotes, m.src) < |remotes|
      modifies this
      ensures (View(), out) == Process(old(View()), i, m, c)
      ensures asserted <==> !(isDuplicate && old(FirstInterests(View(), i, m)))
    {
      hide Finish, RemoveAt, SubMsg, MeshHasLoop, Discard;
      out, asserted := [], true;
      var sent: seq<Msg> := [];
      if m.unmute {
        if m.sak {
          DiscardMessage(m.src);
          return;
        }
        var ok;
        LookupUpdated(remotes, i, remotes[i].(state := Unmuting));
        ok, sent := UnmuteRemote(i, c);
        assert Lookup(remotes, m.src) == i;
        if !ok {
          DiscardMessage(m.src);
          return;
        }
      } else if !Silenced(remotes[i]) {
        var loop := m.mute;
        if !loop {
          loop := HasLoop(i, m.meshId);
        }
        if loop {
          MuteRemote(i);
          assert !remotes[Lookup(remotes, m.src)].state.New?;
        }
      }
      out, asserted := FinishMessage(m, c, isDuplicate);
      assert [] + out == out;
      out := sent + out;
    }

    method FinishMessage(m: Msg, c: Choice, isDuplicate: bool) returns (out: seq<Msg>, asserted: bool)
      modifies this
      ensures (View(), out) == Finish(old(View()), m, c)
      ensures asserted <==> !(isDuplicate && m.sakReq && old(
        var k := Lookup(remotes, m.src);
        k < |remotes| && remotes[k].state.New?))
    {
      out, asserted := [], true;
      var i := LookupRemote(m.src);
      if i == |remotes| {
        return;
      }
      if m.sakReq {
        asserted := remotes[i].state == New ==> !isDuplicate;
        var ack := SendSubscriptionAck(i, c);
        out := [ack];
      } else if !m.sak {
        DiscardMessage(m.src);
        return;
      }
      var r := remotes[i].(meshId := m.meshId);
      if r.state == New {
        r := r.(state := Active);
      }
      if m.sak && c.ackCurrent && r.state == Unmuting {
        r := r.(state := Active);
      }
      remotes := remotes[i := r];
    }
  }
}
