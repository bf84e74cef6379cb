/** Keeping the interests of the two ends of a link synchronized by deltas, revisions and acknowledgements. */
module DeltaSync {
  import opened Options

  /** A bit vector, as the set of its ones. */
  type Bits = set<nat>

  function Xor(a: Bits, b: Bits): Bits {
    (a - b) + (b - a)
  }

  /** What a vector that may be absent stands for: a clear vector is not stored. */
  function Ones(v: Option<Bits>): Bits {
    if v.Some? then v.value else {}
  }

  /** The kind of the message that is to be acknowledged, as far as the node remembers it. */
  datatype LastMsg = Nothing | LastSub | LastSak

  /** What one node keeps about the node at the other end; `isNew` if it does not know that node yet. */
  datatype End = End(
    outInterests: Option<Bits>, delta: Bits, deltaInd: bool, outRevision: nat, sakPending: bool, sendInterests: bool,
    last: LastMsg, inInterests: Option<Bits>, inRevision: nat, isNew: bool)

  /** The messages; `revision` is the outbound revision of the node that sends them. A SAK with a payload asks for a SAK
      itself. */
  datatype Msg =
    | Sub(toB: bool, revision: nat, isDelta: bool, payload: Bits)
    | Sak(toB: bool, revision: nat, ack: nat, isDelta: bool, interests: Option<Bits>)

  // ---- what the handlers do ----

  function Updated(e: End, interests: Bits): End {
    if e.outInterests.Some? then
      var delta := Xor(e.outInterests.value, interests);
      e.(delta := delta, deltaInd := true, outInterests := Some(interests),
         outRevision := e.outRevision + if delta != {} then 1 else 0)
    else
      e.(deltaInd := false, outInterests := Some(interests), outRevision := e.outRevision + 1)
  }

  /** What was sent is forgotten by setting it to nothing. */
  function Cleared(e: End): End {
    e.(outInterests := Some({}), deltaInd := false)
  }

  /** What a message with interests carries. */
  function Payload(e: End): Bits {
    if e.deltaInd then e.delta else Ones(e.outInterests)
  }

  function SubOf(e: End, toB: bool): Msg {
    Sub(toB, e.outRevision, e.deltaInd, Payload(e))
  }

  /** A SAK carries interests when they are due, but not after a collision. */
  function SakOf(e: End, toB: bool, collision: bool): Msg {
    Sak(toB, e.outRevision, e.inRevision, e.deltaInd, if !collision && e.sendInterests then Some(Payload(e)) else None)
  }

  /** Having sent a SAK, a node waits exactly if that carried interests. */
  function Acked(e: End, collision: bool): End {
    var req := !collision && e.sendInterests;
    e.(sakPending := req, last := if req then LastSak else Nothing)
  }

  function Stored(e: End, isDelta: bool, payload: Bits): Option<Bits> {
    var v := if isDelta && e.inInterests.Some? then Xor(payload, e.inInterests.value) else payload;
    if v == {} then None else Some(v)
  }

  /** Interests are received; repeated ones have no effect. */
  function Took(e: End, revision: nat, isDelta: bool, payload: Bits): End {
    if revision == e.inRevision then e
    else e.(inRevision := revision, inInterests := Stored(e, isDelta, payload))
  }

  /** The first interests for a node that was not known are due with the SAK, if there are any. */
  function Welcomed(e: End, interests: Bits): End {
    var e' := Updated(e, interests);
    e'.(sendInterests := e'.outRevision != e.outRevision, isNew := false)
  }

  /** A subscription is received; a message that is not stale is acknowledged. */
  function GotSub(e: End, m: Msg, interests: Bits): (End, Option<Msg>)
    requires m.Sub?
  {
    if m.revision < e.inRevision then (e, None)
    else
      var e1 := Took(if e.isNew then Cleared(e) else e, m.revision, m.isDelta, m.payload);
      var e2 := if e.isNew then Welcomed(e1, interests) else e1;
      var collision := !e.isNew && e.sakPending;
      (Acked(e2, collision), Some(SakOf(e2, !m.toB, collision)))
  }

  /** An acknowledgement is received. It moves the inbound revision even if it carries no interests. */
  function GotSak(e: End, m: Msg): (End, Option<Msg>)
    requires m.Sak?
  {
    if e.isNew || m.revision < e.inRevision then (e, None)
    else
      var (e1, reply) := match m.interests
        case None => (e.(inRevision := m.revision, last := Nothing), None)
        case Some(p) =>
          var e0 := Took(e, m.revision, m.isDelta, p);
          (Acked(e0, false), Some(SakOf(e0, !m.toB, false)));
      (if m.ack == e1.outRevision then e1.(sendInterests := false, sakPending := false) else e1, reply)
  }

  /** The message that waits for its acknowledgement is sent again, if the node still remembers that it was a SUB; otherwise
      a SAK is sent. */
  function Resent(e: End, toB: bool): (End, Msg) {
    if e.last == LastSub then (e, SubOf(e, toB)) else (Acked(e, false), SakOf(e, toB, false))
  }

  // ---- the link as a transition system ----

  /** Both ends, and all messages ever sent: they may be lost, delivered late, and delivered again. */
  datatype World = World(a: End, b: End, net: set<Msg>)

  /** `interests` are those of the node that acts. */
  datatype Action =
    | Tick(atB: bool, interests: Bits, keepAlive: bool)
    | Resend(atB: bool)
    | Deliver(m: Msg, interests: Bits)

  function At(w: World, atB: bool): End {
    if atB then w.b else w.a
  }

  function With(w: World, atB: bool, e: End, sent: set<Msg>): World {
    if atB then World(w.a, e, w.net + sent) else World(e, w.b, w.net + sent)
  }

  /** What may happen: nothing new is sent while an acknowledgement is pending, and only what was sent arrives. */
  predicate Enabled(w: World, act: Action) {
    match act
    case Tick(atB, _, _) => !At(w, atB).sakPending && !At(w, atB).isNew
    case Resend(atB) => At(w, atB).sakPending
    case Deliver(m, _) => m in w.net
  }

  function Step(w: World, act: Action): World {
    match act
    case Tick(atB, interests, keepAlive) =>
      var e := At(w, atB);
      var e' := Updated(e, interests);
      if e'.outRevision != e.outRevision || keepAlive then
        With(w, atB, e'.(sakPending := true, last := LastSub), {SubOf(e', !atB)})
      else With(w, atB, e', {})
    case Resend(atB) =>
      var (e', m) := Resent(At(w, atB), !atB);
      With(w, atB, e', {m})
    case Deliver(m, interests) =>
      var (e', reply) := if m.Sub? then GotSub(At(w, m.toB), m, interests) else GotSak(At(w, m.toB), m);
      With(w, m.toB, e', if reply.Some? then {reply.value} else {})
  }

  /** `y` has what `x` has sent. */
  predicate Synced(x: End, y: End) {
    x.outRevision == y.inRevision && Ones(y.inInterests) == Ones(x.outInterests)
  }

  /** All that `y` lacks is one update, for which `x` awaits an acknowledgement. */
  predicate Behind(x: End, y: End) {
    && x.outInterests.Some? && x.sakPending && x.outRevision == y.inRevision + 1
    && Ones(Stored(y, x.deltaInd, Payload(x))) == x.outInterests.value
  }

  // ---- the invariant ----

  predicate Carries(m: Msg) {
    m.Sub? || m.interests.Some?
  }

  function Carried(m: Msg): Bits
    requires Carries(m)
  {
    if m.Sub? then m.payload else m.interests.value
  }

  predicate Blank(e: End) {
    && e.outInterests.None? && e.outRevision == 0 && !e.sakPending && !e.sendInterests
    && e.inInterests.None? && e.inRevision == 0
  }

  /** What has been sent to `y` is what `x` is still sending, or is no newer than what `y` has; and nothing that `y` does not
      have has been acknowledged. */
  predicate Traffic(x: End, y: End, net: set<Msg>, toB: bool) {
    && (forall m | m in net && m.toB == toB && Carries(m) ::
          m.revision <= y.inRevision
          || (m.revision == x.outRevision && m.isDelta == x.deltaInd && Carried(m) == Payload(x)))
    && (forall m | m in net && m.toB == toB && !Carries(m) :: m.revision <= y.inRevision)
    && (forall m | m in net && m.toB != toB && m.Sak? :: m.ack <= y.inRevision)
  }

  predicate Direction(x: End, y: End, net: set<Msg>, toB: bool) {
    (Synced(x, y) || Behind(x, y)) && Traffic(x, y, net, toB) && (x.isNew ==> Blank(x))
  }

  predicate Inv(w: World) {
    Direction(w.a, w.b, w.net, true) && Direction(w.b, w.a, w.net, false)
  }

  /** A node has just linked to another one that does not know it yet. */
  predicate Linking(w: World) {
    Blank(w.a) && Blank(w.b) && w.b.isNew && !w.a.isNew && w.net == {}
  }

  /** Both directions are synchronized, no acknowledgement is pending, and all messages under way are old. */
  predicate Established(w: World) {
    && Synced(w.a, w.b) && Synced(w.b, w.a) && !w.a.sakPending && !w.b.sakPending && !w.a.isNew && !w.b.isNew
    && forall m | m in w.net ::
         m.revision <= At(w, m.toB).inRevision && (m.Sak? ==> m.ack <= At(w, !m.toB).inRevision)
  }

  lemma StartsInv(w: World)
    requires Linking(w) || Established(w)
    ensures Inv(w)
  {
  }

  /** A node stops waiting although the other one lacks its update: because a SUB arrives meanwhile, or a late SAK with
      interests, or because it has forgotten that it is a SUB that it has to send again. */
  predicate GivesUp(w: World, act: Action) {
    match act
    case Tick(_, _, _) => false
    case Resend(atB) =>
      var x := At(w, atB);
      Behind(x, At(w, !atB)) && x.last != LastSub && !x.sendInterests
    case Deliver(m, _) =>
      var x := At(w, m.toB);
      && Behind(x, At(w, !m.toB)) && m.revision >= x.inRevision
      && (m.Sub? || (m.interests.Some? && !x.sendInterests))
  }

  lemma XorTwice(a: Bits, b: Bits)
    ensures Xor(Xor(a, b), a) == b && Xor({}, b) == b && (Xor(a, b) == {} <==> a == b)
  {
    if Xor(a, b) == {} {
      assert a - b == {} && b - a == {};
      assert forall k :: k in a ==> k in b by {
        forall k | k in a
          ensures k in b
        {
          assert k in b || k in a - b;
        }
      }
      assert forall k :: k in b ==> k in a by {
        forall k | k in b
          ensures k in a
        {
          assert k in a || k in b - a;
        }
      }
    }
  }

  lemma UpdateSyncs(x: End, y: End, interests: Bits)
    requires Synced(x, y)
    ensures var x' := Updated(x, interests);
      if x'.outRevision == x.outRevision then Synced(x', y) else Behind(x'.(sakPending := true), y)
  {
    hide Xor;
    XorTwice(Ones(x.outInterests), interests);
    XorTwice(interests, {});
  }

  // ---- each end by itself ----

  predicate SameOut(x: End, x': End) {
    && x'.outInterests == x.outInterests && x'.delta == x.delta && x'.deltaInd == x.deltaInd
    && x'.outRevision == x.outRevision
  }

  /** A message that `x` may send: with the interests it is sending, or without any if it has nothing to tell. */
  predicate Current(m: Msg, x: End, y: End, toB: bool) {
    && m.toB == toB
    && if Carries(m) then m.revision == x.outRevision && m.isDelta == x.deltaInd && Carried(m) == Payload(x)
       else m.revision <= y.inRevision
  }

  lemma SenderKeeps(x: End, x': End, y: End, net: set<Msg>, sent: set<Msg>, toB: bool)
    requires Direction(x, y, net, toB) && SameOut(x, x') && (Synced(x, y) || x'.sakPending) && !x'.isNew
    requires forall m | m in sent :: Current(m, x, y, toB)
    ensures Direction(x', y, net + sent, toB)
  {
    hide Xor, Stored;
  }

  lemma UpdaterKeeps(x: End, y: End, interests: Bits, last: LastMsg, send: bool, net: set<Msg>, sent: set<Msg>, toB: bool)
    requires Traffic(x, y, net, toB) && Synced(x, y)
    requires Updated(x, interests).outRevision != x.outRevision ==> send
    requires
      var x' := Updated(x, interests).(sakPending := send, last := last);
      forall m | m in sent :: Current(m, x', y, toB)
    ensures Direction(Updated(x, interests).(sakPending := send, last := last, isNew := false), y, net + sent, toB)
  {
    hide Xor, Stored;
    UpdateSyncs(x, y, interests);
  }

  lemma ReceiverKeeps(x: End, y: End, y': End, net: set<Msg>, sent: set<Msg>, toB: bool)
    requires Direction(x, y, net, toB) && y'.inRevision == y.inRevision && y'.inInterests == y.inInterests
    requires forall m | m in sent :: m.toB != toB && (m.Sak? ==> m.ack <= y'.inRevision)
    ensures Direction(x, y', net + sent, toB)
  {
    hide Xor;
  }

  lemma ReceiverTakes(x: End, y: End, m: Msg, net: set<Msg>, toB: bool)
    requires Direction(x, y, net, toB) && m in net && m.toB == toB && Carries(m) && m.revision >= y.inRevision
    ensures Direction(x, Took(y, m.revision, m.isDelta, Carried(m)), net, toB)
  {
    hide Xor, Stored;
    StoredIs(y, m.isDelta, Carried(m));
  }

  lemma StoredIs(y: End, isDelta: bool, payload: Bits)
    ensures Stored(y, isDelta, payload) != Some({})
  {
  }

  // ---- every step ----

  lemma TickKeepsInv(w: World, act: Action)
    requires act.Tick? && Inv(w) && Enabled(w, act)
    ensures Inv(Step(w, act))
  {
    hide Direction, Updated, Traffic;
    var (x, y, toB) := (At(w, act.atB), At(w, !act.atB), !act.atB);
    var x' := Updated(x, act.interests);
    UpdatedKeepsIn(x, act.interests);
    IdleIsSynced(x, y, w.net, toB);
    if x'.outRevision != x.outRevision || act.keepAlive {
      UpdaterKeeps(x, y, act.interests, LastSub, true, w.net, {SubOf(x', toB)}, toB);
      ReceiverKeeps(y, x, x'.(sakPending := true, last := LastSub), w.net, {SubOf(x', toB)}, !toB);
    } else {
      UpdaterKeeps(x, y, act.interests, x.last, false, w.net, {}, toB);
      ReceiverKeeps(y, x, x', w.net, {}, !toB);
    }
  }

  lemma UpdatedKeepsIn(x: End, interests: Bits)
    ensures var x' := Updated(x, interests);
      && x'.inRevision == x.inRevision && x'.inInterests == x.inInterests && x'.isNew == x.isNew && x'.last == x.last
      && x'.sakPending == x.sakPending && x'.sendInterests == x.sendInterests
  {
    hide Xor;
  }

  /** A node that awaits no acknowledgement has told all. */
  lemma IdleIsSynced(x: End, y: End, net: set<Msg>, toB: bool)
    requires Direction(x, y, net, toB) && !x.sakPending
    ensures Synced(x, y) && Traffic(x, y, net, toB)
  {
    hide Xor;
  }

  lemma ResendKeepsInv(w: World, act: Action)
    requires act.Resend? && Inv(w) && Enabled(w, act) && !GivesUp(w, act)
    ensures Inv(Step(w, act))
  {
    hide Direction, Traffic, Xor, Stored;
    var (x, y, toB) := (At(w, act.atB), At(w, !act.atB), !act.atB);
    var (x', m) := Resent(x, toB);
    Known(x, y, w.net, toB);
    SenderKeeps(x, x', y, w.net, {m}, toB);
    ReceiverKeeps(y, x, x', w.net, {m}, !toB);
  }

  lemma Known(x: End, y: End, net: set<Msg>, toB: bool)
    requires Direction(x, y, net, toB)
    ensures Synced(x, y) || Behind(x, y)
    ensures x.isNew ==> Blank(x) && Synced(x, y) && Traffic(x, y, net, toB)
    ensures Synced(x, y) ==> x.outRevision <= y.inRevision
  {
    hide Xor;
  }

  /** What a SAK that asks for one leaves: the sender is synchronized, or still waits. */
  lemma AckKeeps(e: End, e1: End, z: End, net: set<Msg>, collision: bool, toB: bool)
    requires Direction(e, z, net, toB) && !e.isNew && SameOut(e, e1) && e1.sendInterests == e.sendInterests && !e1.isNew
    requires Synced(e, z) || (!collision && e.sendInterests)
    ensures Direction(Acked(e1, collision), z, net + {SakOf(e1, toB, collision)}, toB)
  {
    hide Direction, Xor, Stored;
    Known(e, z, net, toB);
    SenderKeeps(e, Acked(e1, collision), z, net, {SakOf(e1, toB, collision)}, toB);
  }

  lemma TookKeepsOut(e: End, revision: nat, isDelta: bool, payload: Bits)
    ensures var e1 := Took(e, revision, isDelta, payload);
      && SameOut(e, e1) && e1.sendInterests == e.sendInterests && e1.isNew == e.isNew && e1.sakPending == e.sakPending
      && e1.last == e.last && e1.inRevision == revision
  {
    hide Xor, Stored;
  }

  /** A SUB reaches a node that knows its sender. */
  lemma KnownGetsSub(e: End, z: End, m: Msg, interests: Bits, net: set<Msg>)
    requires m.Sub? && m in net && !e.isNew && Direction(e, z, net, !m.toB) && Direction(z, e, net, m.toB)
    requires m.revision >= e.inRevision && !Behind(e, z)
    ensures var (e', reply) := GotSub(e, m, interests);
      reply.Some? && Direction(e', z, net + {reply.value}, !m.toB) && Direction(z, e', net + {reply.value}, m.toB)
  {
    hide Direction, Xor, Stored, Took;
    var (e1, collision) := (Took(e, m.revision, m.isDelta, m.payload), e.sakPending);
    var sak := SakOf(e1, !m.toB, collision);
    Known(e, z, net, !m.toB);
    TookKeepsOut(e, m.revision, m.isDelta, m.payload);
    AckKeeps(e, e1, z, net, collision, !m.toB);
    ReceiverTakes(z, e, m, net, m.toB);
    ReceiverKeeps(z, e1, Acked(e1, collision), net, {sak}, m.toB);
  }

  /** A SUB reaches a node that does not know its sender. */
  lemma NewGetsSub(e: End, z: End, m: Msg, interests: Bits, net: set<Msg>)
    requires m.Sub? && m in net && e.isNew && Direction(e, z, net, !m.toB) && Direction(z, e, net, m.toB)
    ensures var (e', reply) := GotSub(e, m, interests);
      reply.Some? && Direction(e', z, net + {reply.value}, !m.toB) && Direction(z, e', net + {reply.value}, m.toB)
  {
    hide Direction, Xor, Stored, Took, Traffic, Updated;
    Known(e, z, net, !m.toB);
    var e0 := Cleared(e);
    var e1 := Took(e0, m.revision, m.isDelta, m.payload);
    var e2 := Welcomed(e1, interests);
    TookKeepsOut(e0, m.revision, m.isDelta, m.payload);
    UpdatedKeepsIn(e1, interests);
    var sak := SakOf(e2, !m.toB, false);
    ClearedIsSynced(e, e1, z, net, !m.toB);
    NewlySent(e1, interests, z, sak);
    UpdaterKeeps(e1, z, interests, Acked(e2, false).last, e2.sendInterests, net, {sak}, !m.toB);
    SenderKeepsFlags(Updated(e1, interests).(sakPending := e2.sendInterests, last := Acked(e2, false).last, isNew := false),
                     Acked(e2, false), z, net + {sak}, !m.toB);
    ClearedTakes(z, e, m, net, m.toB);
    ReceiverKeeps(z, e1, Acked(e2, false), net, {sak}, m.toB);
  }

  lemma ClearedIsSynced(e: End, e1: End, z: End, net: set<Msg>, toB: bool)
    requires Blank(e) && Synced(e, z) && Traffic(e, z, net, toB) && SameOut(Cleared(e), e1)
    ensures Synced(e1, z) && Traffic(e1, z, net, toB)
  {
    hide Xor;
  }

  lemma NewlySent(e1: End, interests: Bits, z: End, sak: Msg)
    requires Synced(e1, z) && e1.inRevision == Welcomed(e1, interests).inRevision
    requires sak == SakOf(Welcomed(e1, interests), sak.toB, false)
    ensures Current(sak, Updated(e1, interests), z, sak.toB)
  {
    hide Xor;
  }

  lemma SenderKeepsFlags(x: End, x': End, y: End, net: set<Msg>, toB: bool)
    requires Direction(x, y, net, toB) && !x.isNew && x' == x.(sendInterests := x'.sendInterests)
    ensures Direction(x', y, net, toB)
  {
    hide Xor, Stored;
  }

  lemma ClearedTakes(z: End, e: End, m: Msg, net: set<Msg>, toB: bool)
    requires Direction(z, e, net, toB) && Blank(e) && m in net && m.toB == toB && Carries(m)
    ensures Direction(z, Took(Cleared(e), m.revision, m.isDelta, Carried(m)), net, toB)
  {
    hide Direction, Xor, Stored, Took;
    ReceiverKeeps(z, e, Cleared(e), net, {}, toB);
    assert net + {} == net;
    ReceiverTakes(z, Cleared(e), m, net, toB);
  }

  lemma SubKeepsInv(w: World, act: Action)
    requires act.Deliver? && act.m.Sub? && Inv(w) && Enabled(w, act) && !GivesUp(w, act)
    ensures Inv(Step(w, act))
  {
    hide Direction, Behind;
    var (m, e, z) := (act.m, At(w, act.m.toB), At(w, !act.m.toB));
    Known(e, z, w.net, !m.toB);
    if m.revision < e.inRevision {
      assert w.net + {} == w.net;
    } else if e.isNew {
      NewGetsSub(e, z, m, act.interests, w.net);
    } else {
      KnownGetsSub(e, z, m, act.interests, w.net);
    }
  }

  /** The end of the wait for an acknowledgement. */
  lemma AckedKeeps(e: End, z: End, ack: nat, net: set<Msg>, toB: bool)
    requires Direction(e, z, net, toB) && !e.isNew && ack <= z.inRevision
    ensures Direction(if ack == e.outRevision then e.(sendInterests := false, sakPending := false) else e, z, net, toB)
  {
    hide Xor, Stored;
  }

  lemma AckIsOld(e: End, z: End, m: Msg, net: set<Msg>)
    requires Direction(e, z, net, !m.toB) && m in net && m.Sak?
    ensures m.ack <= z.inRevision
  {
  }

  lemma PlainIsOld(z: End, e: End, m: Msg, net: set<Msg>)
    requires Direction(z, e, net, m.toB) && m in net && !Carries(m)
    ensures m.revision <= e.inRevision
  {
  }

  /** A SAK without interests reaches a node. */
  lemma GetsPlainSak(e: End, z: End, m: Msg, net: set<Msg>)
    requires m.Sak? && m.interests.None? && m in net && !e.isNew && m.revision >= e.inRevision
    requires Direction(e, z, net, !m.toB) && Direction(z, e, net, m.toB)
    ensures var e' := GotSak(e, m).0;
      GotSak(e, m).1 == None && Direction(e', z, net, !m.toB) && Direction(z, e', net, m.toB)
  {
    hide Direction, Traffic, Xor, Stored;
    PlainIsOld(z, e, m, net);
    AckIsOld(e, z, m, net);
    var e1 := e.(last := Nothing);
    assert net + {} == net;
    Known(e, z, net, !m.toB);
    SenderKeeps(e, e1, z, net, {}, !m.toB);
    AckedKeeps(e1, z, m.ack, net, !m.toB);
    ReceiverKeeps(z, e, GotSak(e, m).0, net, {}, m.toB);
  }

  /** A SAK with interests reaches a node. */
  lemma GetsFullSak(e: End, z: End, m: Msg, net: set<Msg>)
    requires m.Sak? && m.interests.Some? && m in net && !e.isNew && m.revision >= e.inRevision
    requires Direction(e, z, net, !m.toB) && Direction(z, e, net, m.toB)
    requires Behind(e, z) ==> e.sendInterests
    ensures var (e', reply) := GotSak(e, m);
      reply.Some? && Direction(e', z, net + {reply.value}, !m.toB) && Direction(z, e', net + {reply.value}, m.toB)
  {
    hide Direction, Traffic, Behind, Xor, Stored, Took;
    Known(e, z, net, !m.toB);
    var e0 := Took(e, m.revision, m.isDelta, m.interests.value);
    var sak := SakOf(e0, !m.toB, false);
    TookKeepsOut(e, m.revision, m.isDelta, m.interests.value);
    AckIsOld(e, z, m, net);
    AckKeeps(e, e0, z, net, false, !m.toB);
    AckedKeeps(Acked(e0, false), z, m.ack, net + {sak}, !m.toB);
    ReceiverTakes(z, e, m, net, m.toB);
    ReceiverKeeps(z, e0, GotSak(e, m).0, net, {sak}, m.toB);
  }

  lemma SakKeepsInv(w: World, act: Action)
    requires act.Deliver? && act.m.Sak? && Inv(w) && Enabled(w, act) && !GivesUp(w, act)
    ensures Inv(Step(w, act))
  {
    hide Direction, Behind;
    var (m, e, z) := (act.m, At(w, act.m.toB), At(w, !act.m.toB));
    if e.isNew || m.revision < e.inRevision {
      assert w.net + {} == w.net;
    } else if m.interests.None? {
      GetsPlainSak(e, z, m, w.net);
      assert w.net + {} == w.net;
    } else {
      GetsFullSak(e, z, m, w.net);
    }
  }

  /** A node that gives up leaves the other one without its update, and does not send it again. */
  lemma GivingUpBreaksInv(w: World, act: Action)
    requires Inv(w) && Enabled(w, act) && GivesUp(w, act)
    ensures var atB := if act.Resend? then act.atB else act.m.toB;
      var (x, x', y') := (At(w, atB), At(Step(w, act), atB), At(Step(w, act), !atB));
      !x'.sakPending && !x'.isNew && SameOut(x, x') && y' == At(w, !atB) && !Inv(Step(w, act))
  {
    hide Xor, Stored, Traffic;
    if act.Deliver? {
      var (x, y) := (At(w, act.m.toB), At(w, !act.m.toB));
      Known(x, y, w.net, !act.m.toB);
      if act.m.Sak? {
        AckIsOld(x, y, act.m, w.net);
      }
    }
  }

  /** Every step keeps the invariant if and only if no node gives up in it. */
  lemma StepKeepsInvExactlyWhen(w: World, act: Action)
    requires Inv(w) && Enabled(w, act)
    ensures Inv(Step(w, act)) <==> !GivesUp(w, act)
  {
    hide Inv, GivesUp;
    if GivesUp(w, act) {
      GivingUpBreaksInv(w, act);
    } else {
      match act
      case Tick(_, _, _) => TickKeepsInv(w, act);
      case Resend(_) => ResendKeepsInv(w, act);
      case Deliver(m, _) => if m.Sub? { SubKeepsInv(w, act); } else { SakKeepsInv(w, act); }
    }
  }

  // ---- runs ----

  ghost predicate Run(ws: seq<World>, acts: seq<Action>) {
    && |ws| == |acts| + 1 && Inv(ws[0])
    && forall i | 0 <= i < |acts| :: Enabled(ws[i], acts[i]) && ws[i + 1] == Step(ws[i], acts[i])
  }

  ghost predicate NoneGivesUp(ws: seq<World>, acts: seq<Action>, n: nat)
    requires n <= |acts| < |ws|
  {
    forall i | 0 <= i < n :: !GivesUp(ws[i], acts[i])
  }

  /** On every run, the invariant holds all the time if and only if no node gives up. */
  lemma {:induction false} RunKeepsInvExactlyWhen(ws: seq<World>, acts: seq<Action>, n: nat)
    requires Run(ws, acts) && n <= |acts|
    ensures (forall i | 0 <= i <= n :: Inv(ws[i])) <==> NoneGivesUp(ws, acts, n)
  {
    hide Inv, GivesUp, Enabled, Step;
    if n > 0 {
      RunKeepsInvExactlyWhen(ws, acts, n - 1);
      assert NoneGivesUp(ws, acts, n) <==> NoneGivesUp(ws, acts, n - 1) && !GivesUp(ws[n - 1], acts[n - 1]);
      if forall i | 0 <= i <= n - 1 :: Inv(ws[i]) {
        assert Inv(ws[n - 1]) && Enabled(ws[n - 1], acts[n - 1]) && ws[n - 1 + 1] == Step(ws[n - 1], acts[n - 1]);
        StepKeepsInvExactlyWhen(ws[n - 1], acts[n - 1]);
      }
    }
  }

  /** As long as no node gives up, a node has the interests of the other one whenever the revisions agree, whatever messages
      are lost, delivered late, or delivered again. */
  lemma RevisionsAgreeMeansSynced(ws: seq<World>, acts: seq<Action>, n: nat, atB: bool)
    requires Run(ws, acts) && n <= |acts| && NoneGivesUp(ws, acts, n)
    ensures var (x, y) := (At(ws[n], atB), At(ws[n], !atB));
      && y.inRevision <= x.outRevision <= y.inRevision + 1
      && (x.outRevision == y.inRevision ==> Ones(y.inInterests) == Ones(x.outInterests))
      && (!x.sakPending ==> x.outRevision == y.inRevision)
  {
    hide Traffic, Stored, Xor;
    RunKeepsInvExactlyWhen(ws, acts, n);
    assert Inv(ws[n]);
  }

  // ---- what is told ----

  /** A node tells its interests: if the other end is not known to have just these, it is sent a subscription, and when that
      arrives it has them, whatever it is waiting for itself. */
  lemma TickTells(w: World, atB: bool, interests: Bits, keepAlive: bool, others: Bits)
    requires Inv(w) && Enabled(w, Tick(atB, interests, keepAlive))
    ensures var w1 := Step(w, Tick(atB, interests, keepAlive));
      && At(w1, atB).outInterests == Some(interests)
      && (At(w, atB).outInterests == Some(interests) ==> Ones(At(w, !atB).inInterests) == interests)
      && (At(w, atB).outInterests != Some(interests) || keepAlive ==>
            exists m | m in w1.net ::
              && w1.net == w.net + {m} && m.Sub? && m.toB != atB
              && Ones(At(Step(w1, Deliver(m, others)), !atB).inInterests) == interests)
  {
    hide Xor, Stored, Traffic, GotSub, Updated;
    var (x, y) := (At(w, atB), At(w, !atB));
    IdleIsSynced(x, y, w.net, !atB);
    UpdatedMeans(x, interests);
    UpdateSyncs(x, y, interests);
    if x.outInterests != Some(interests) || keepAlive {
      var w1 := Step(w, Tick(atB, interests, keepAlive));
      var m := SubOf(At(w1, atB), !atB);
      SubSyncs(At(w1, atB), y, m, others);
      assert m in w1.net;
    }
  }

  lemma UpdatedMeans(x: End, interests: Bits)
    ensures Updated(x, interests).outInterests == Some(interests)
    ensures Updated(x, interests).outRevision == x.outRevision + if x.outInterests == Some(interests) then 0 else 1
  {
    hide Xor;
    XorTwice(Ones(x.outInterests), interests);
  }

  /** Without losses, the first messages of a link tell each node the interests of the other, and nobody waits after them. */
  lemma HandshakeTells(w0: World, mine: Bits, theirs: Bits) returns (w4: World)
    requires Linking(w0)
    ensures Ones(w4.a.inInterests) == theirs && Ones(w4.b.inInterests) == mine
    ensures w4.a.outInterests == Some(mine) && w4.b.outInterests == Some(theirs)
    ensures !w4.a.sakPending && !w4.b.sakPending && !w4.b.isNew
  {
    hide Xor;
    XorTwice({}, theirs);
    XorTwice({}, mine);
    var w1 := Step(w0, Tick(false, mine, false));
    var w2 := Step(w1, Deliver(SubOf(w1.a, true), theirs));
    var sak := GotSub(w1.b, SubOf(w1.a, true), theirs).1.value;
    var w3 := Step(w2, Deliver(sak, {}));
    var reply := GotSak(w2.a, sak).1;
    w4 := if reply.Some? then Step(w3, Deliver(reply.value, {})) else w3;
  }

  // ---- what giving up leads to ----

  /** The next keep-alive message is sent, and arrives. */
  function KeptAlive(w: World, atB: bool): World {
    var w1 := Step(w, Tick(atB, Ones(At(w, atB).outInterests), true));
    Step(w1, Deliver(SubOf(At(w1, atB), !atB), {}))
  }

  lemma KeepAlive(w: World, atB: bool)
    requires At(w, atB).outInterests.Some? && !At(w, atB).sakPending
    ensures var (x, w1) := (At(w, atB), Step(w, Tick(atB, Ones(At(w, atB).outInterests), true)));
      && At(w1, !atB) == At(w, !atB)
      && At(w1, atB).outRevision == x.outRevision && At(w1, atB).outInterests == x.outInterests
      && At(w1, atB).deltaInd && At(w1, atB).delta == {}
  {
    hide Xor;
    XorTwice(Ones(At(w, atB).outInterests), Ones(At(w, atB).outInterests));
  }

  lemma Delivered(w: World, m: Msg)
    requires m.Sub?
    ensures var w' := Step(w, Deliver(m, {}));
      At(w', m.toB) == GotSub(At(w, m.toB), m, {}).0 && At(w', !m.toB) == At(w, !m.toB)
  {
    hide GotSub;
  }

  /** An empty delta moves the revision, and no interests. */
  lemma EmptyDelta(y: End, m: Msg, interests: Bits)
    requires m.Sub? && m.isDelta && m.payload == {} && m.revision >= y.inRevision
    ensures var y' := GotSub(y, m, interests).0;
      y'.inRevision == m.revision && Ones(y'.inInterests) == Ones(y.inInterests)
  {
    hide Xor;
    XorTwice({}, Ones(y.inInterests));
    var y1 := Took(if y.isNew then Cleared(y) else y, m.revision, m.isDelta, m.payload);
    UpdatedKeepsIn(y1, interests);
  }

  /** When a node has given up, the next keep-alive message makes the revisions agree, while the interests are as different
      as they were. */
  lemma GivingUpLoses(w: World, act: Action)
    requires Inv(w) && Enabled(w, act) && GivesUp(w, act)
    ensures var atB := if act.Resend? then act.atB else act.m.toB;
      var (x, y, w') := (At(w, atB), At(w, !atB), Step(w, act));
      && Enabled(w', Tick(atB, Ones(x.outInterests), true))
      && At(KeptAlive(w', atB), atB).outRevision == At(KeptAlive(w', atB), !atB).inRevision
      && Ones(At(KeptAlive(w', atB), atB).outInterests) == Ones(x.outInterests)
      && Ones(At(KeptAlive(w', atB), !atB).inInterests) == Ones(y.inInterests)
  {
    hide Xor, Traffic, Stored, GotSub, GotSak, Resent, Step;
    var atB := if act.Resend? then act.atB else act.m.toB;
    GivingUpBreaksInv(w, act);
    KeepAlive(Step(w, act), atB);
    var w1 := Step(Step(w, act), Tick(atB, Ones(At(w, atB).outInterests), true));
    var m := SubOf(At(w1, atB), !atB);
    EmptyDelta(At(w1, !atB), m, {});
    Delivered(w1, m);
  }

  /** A delta that is not empty makes a difference. */
  lemma BehindDiffers(x: End, y: End)
    requires Behind(x, y) && x.deltaInd && x.delta != {} && y.inInterests != Some({})
    ensures Ones(y.inInterests) != Ones(x.outInterests)
  {
    hide Xor;
    XorTwice(x.delta, Ones(y.inInterests));
    XorTwice({}, x.delta);
    if Ones(y.inInterests) == Ones(x.outInterests) {
      XorSame(x.delta, Ones(y.inInterests));
    }
  }

  lemma XorSame(a: Bits, b: Bits)
    requires Xor(a, b) == b
    ensures a == {}
  {
    assert forall k :: k in Xor(a, b) <==> ((k in a) != (k in b));
  }

  /** A node that awaits an acknowledgement receives a subscription, and its own acknowledgement arrives. */
  function Collided(w: World, m: Msg): World
    requires m.Sub?
  {
    var w1 := Step(w, Deliver(m, {}));
    Step(w1, Deliver(SakOf(At(w1, m.toB), !m.toB, true), {}))
  }

  /** After a collision the revisions agree, and the interests exactly when they did before. */
  lemma CollisionKeepsOrLoses(w: World, m: Msg)
    requires Inv(w) && m in w.net && m.Sub? && At(w, m.toB).sakPending && m.revision >= At(w, m.toB).inRevision
    requires !At(w, !m.toB).isNew
    ensures var (x, y) := (At(Collided(w, m), m.toB), At(Collided(w, m), !m.toB));
      && x.outRevision == y.inRevision && !x.sakPending
      && (Ones(y.inInterests) == Ones(x.outInterests)
          <==> Ones(At(w, !m.toB).inInterests) == Ones(At(w, m.toB).outInterests))
  {
    hide Xor, Stored, Traffic;
  }

  /** The sender resends, the subscription and then its acknowledgement arrive. */
  function Retried(w: World, atB: bool, interests: Bits): World {
    var m := SubOf(At(w, atB), !atB);
    var w1 := Step(Step(w, Resend(atB)), Deliver(m, interests));
    var reply := GotSub(At(w, !atB), m, interests).1;
    if reply.Some? then Step(w1, Deliver(reply.value, {})) else w1
  }

  /** From every state, one subscription that gets through when it is sent again synchronizes its direction, and ends the
      wait. */
  lemma RetrySynchronizes(w: World, atB: bool, interests: Bits)
    requires Inv(w) && At(w, atB).sakPending && At(w, atB).last == LastSub && !At(w, !atB).sakPending
    ensures var w' := Retried(w, atB, interests);
      Synced(At(w', atB), At(w', !atB)) && !At(w', atB).sakPending
  {
    hide Xor, Traffic, Stored, GotSub, GotSak;
    var (x, y, m) := (At(w, atB), At(w, !atB), SubOf(At(w, atB), !atB));
    Known(x, y, w.net, !atB);
    Known(y, x, w.net, atB);
    SubSyncs(x, y, m, interests);
    AckEnds(x, GotSub(y, m, interests).1.value);
  }

  lemma SubSyncs(x: End, y: End, m: Msg, interests: Bits)
    requires (Synced(x, y) || Behind(x, y)) && m == SubOf(x, m.toB)
    ensures var (y', reply) := GotSub(y, m, interests);
      && Synced(x, y') && reply.Some? && reply.value.Sak? && reply.value.toB != m.toB
      && reply.value.ack == x.outRevision && reply.value.revision >= y.outRevision
  {
    hide Xor;
    var y1 := Took(if y.isNew then Cleared(y) else y, m.revision, m.isDelta, m.payload);
    UpdatedKeepsIn(y1, interests);
    UpdatedGrows(y1, interests);
  }

  lemma AckEnds(x: End, m: Msg)
    requires m.Sak? && m.ack == x.outRevision && m.revision >= x.inRevision && !x.isNew
    ensures var x' := GotSak(x, m).0;
      SameOut(x, x') && !x'.sakPending
  {
    hide Xor;
  }

  lemma UpdatedGrows(x: End, interests: Bits)
    ensures Updated(x, interests).outRevision >= x.outRevision
  {
  }

  // ---- runs in which a node gives up ----

  /** The acknowledgement of a handshake is lost. The subscription that is therefore sent again counts as a collision, and
      the interests of `b` are not sent again: all revisions agree, and `a` does not have them. */
  lemma LostHandshakeDesynchronizes(w0: World) returns (w5: World)
    requires Linking(w0)
    ensures !w5.a.sakPending && !w5.b.sakPending
    ensures w5.b.outRevision == w5.a.inRevision && w5.a.outRevision == w5.b.inRevision
    ensures w5.b.outInterests == Some({2}) && w5.a.inInterests == None
  {
    var w1 := Step(w0, Tick(false, {1}, false));
    var sub := SubOf(w1.a, true);
    var w2 := Step(w1, Deliver(sub, {2}));
    assert 2 in w2.b.delta;
    var w3 := Step(w2, Resend(false));
    var w4 := Step(w3, Deliver(sub, {2}));
    w5 := Step(w4, Deliver(SakOf(w4.b, false, true), {}));
  }

  /** An acknowledgement arrives again while the next one is pending. The node forgets what it has to send again, sends an
      acknowledgement in its place, and stops waiting: its update is lost, although all revisions agree later. */
  lemma RepeatedAckDesynchronizes(w0: World) returns (w7: World)
    requires Established(w0) && w0.a.outInterests == Some({}) && !w0.a.sendInterests && !w0.b.sendInterests
    ensures !w7.a.sakPending && w7.a.outRevision == w7.b.inRevision
    ensures w7.a.outInterests == Some({1, 2}) && Ones(w7.b.inInterests) == {1}
  {
    var w1 := Step(w0, Tick(false, {1}, false));
    assert w1.a.delta == {1};
    var w2 := Step(w1, Deliver(SubOf(w1.a, true), {}));
    assert Xor({1}, {}) == {1};
    var ack := SakOf(w2.b, false, false);
    var w3 := Step(w2, Deliver(ack, {}));
    var w4 := Step(w3, Tick(false, {1, 2}, false));
    assert 2 in w4.a.delta;
    var w5 := Step(w4, Deliver(ack, {}));
    var w6 := Step(w5, Resend(false));
    var sub := SubOf(Step(w6, Tick(false, {1, 2}, true)).a, true);
    assert Xor({1, 2}, {1, 2}) == {} && Xor({}, {1}) == {1};
    w7 := Step(Step(w6, Tick(false, {1, 2}, true)), Deliver(sub, {}));
    var reply := SakOf(w7.b, false, false);
    w7 := Step(w7, Deliver(reply, {}));
  }

  /** Both nodes change their interests at the same time; the subscription of `b` is late, and is never taken into account. */
  lemma CollisionDesynchronizes(w0: World) returns (w4: World, late: Msg)
    requires Established(w0) && w0.a.outInterests == Some({}) && w0.b.outInterests == Some({})
    ensures late in w4.net && late.Sub? && !late.toB && late.payload == {1}
    ensures w4.b.outInterests == Some({1}) && w4.b.outRevision == w4.a.inRevision
    ensures !w4.a.sakPending && !w4.b.sakPending && Ones(w4.a.inInterests) == {}
    ensures Ones(Step(w4, Deliver(late, {})).a.inInterests) == {}
  {
    var w1 := Step(w0, Tick(true, {1}, false));
    var w2 := Step(w1, Tick(false, {2}, false));
    assert 1 in w1.b.delta && 2 in w2.a.delta;
    late := SubOf(w1.b, false);
    var m := SubOf(w2.a, true);
    var w3 := Step(w2, Deliver(m, {}));
    w4 := Step(w3, Deliver(SakOf(w3.b, false, true), {}));
  }

  // ---- why unmuting needs more than a subscription ----

  /** A remote is unmuted: the first subscription is a delta against nothing, and the other end applies it. */
  function Unmuted(x: End, y: End, interests: Bits, toB: bool): (End, End) {
    var x' := Updated(Cleared(x), interests);
    (x', GotSub(y, SubOf(x', toB), {}).0)
  }

  /** After the subscription that unmutes a link, the ends agree exactly when the receiver has nothing stored. */
  lemma UnmutingSynchronizesExactlyWhen(x: End, y: End, interests: Bits, toB: bool)
    requires x.outRevision == y.inRevision && !y.isNew
    ensures var (x', y') := Unmuted(x, y, interests, toB);
      x'.outRevision == y'.inRevision && (Ones(y'.inInterests) == Ones(x'.outInterests) <==> Ones(y.inInterests) == {})
  {
    var stored := Ones(y.inInterests);
    if b :| b in stored {
      assert b in Xor(interests, stored) <==> b !in interests;
    } else {
      assert Xor(interests, stored) == interests;
    }
    assert Xor({}, interests) == interests;
  }

  // ---- the handlers ----

  const SAK_RETRY_THRESHOLD: nat := 2
  const SAK_RETRY_LIMIT: nat := 3

  /** Why the timer is running: nothing but the keep-alive, changes that can wait, or changes that cannot. */
  datatype SubsPending = NonePending | Throttled | SendNow

  class RemoteNode {
    var outInterests: Option<Bits>
    var delta: Bits
    var deltaInd: bool
    var outRevision: nat
    var sakPending: bool
    var sendInterests: bool
    var lastSubMsgType: LastMsg
    var inInterests: Option<Bits>
    var inRevision: nat
    var isNew: bool
    /** How often the timer has found an acknowledgement pending. */
    var sakCounter: nat

    ghost function View(): End
      reads this
    {
      End(outInterests, delta, deltaInd, outRevision, sakPending, sendInterests, lastSubMsgType, inInterests, inRevision,
          isNew)
    }

    method ClearOutboundInterests()
      modifies this
      ensures View() == Cleared(old(View()))
    {
      outInterests := Some({});
      deltaInd := false;
    }

    method UpdateOutboundInterests(newInterests: Bits) returns (changes: bool)
      modifies this
      ensures View() == Updated(old(View()), newInterests) && sakCounter == old(sakCounter)
      ensures outInterests == Some(newInterests)
      ensures changes <==> old(outInterests) != Some(newInterests)
      ensures outRevision == old(outRevision) + if changes then 1 else 0
    {
      changes := false;
      XorTwice(Ones(outInterests), newInterests);
      if outInterests.Some? {
        delta := Xor(outInterests.value, newInterests);
        if delta != {} {
          changes := true;
        }
        deltaInd := true;
      } else {
        deltaInd := false;
        changes := true;
      }
      outInterests := Some(newInterests);
      if changes {
        outRevision := outRevision + 1;
      }
    }

    /** What is sent brings every receiver up to date that lacks just this update. The count of resends starts over unless an
        acknowledgement is pending already. */
    method SendSubscription(toB: bool) returns (m: Msg)
      modifies this
      ensures m == SubOf(old(View()), toB) && View() == old(View()).(sakPending := true, last := LastSub)
      ensures forall y, interests | (Synced(View(), y) || Behind(View(), y)) && !y.isNew ::
        Synced(View(), GotSub(y, m, interests).0)
      ensures sakCounter == if old(sakPending) then old(sakCounter) else 0
      ensures m.toB == toB && m.revision == outRevision && m.isDelta == deltaInd && sakPending && lastSubMsgType == LastSub
      ensures m.payload == if deltaInd then delta else Ones(outInterests)
    {
      hide Xor;
      m := Sub(toB, outRevision, deltaInd, if deltaInd then delta else Ones(outInterests));
      if !sakPending {
        sakPending := true;
        sakCounter := 0;
      }
      lastSubMsgType := LastSub;
    }

    /** A node whose latest update has been received stops waiting when it gets this. If it carries interests, it brings every
        receiver up to date that lacks just these, and the sender waits for a SAK itself; otherwise it waits no more. */
    method SendSubscriptionAck(toB: bool, collision: bool) returns (m: Msg)
      modifies this
      ensures m == SakOf(old(View()), toB, collision) && View() == Acked(old(View()), collision)
      ensures forall x: End | !x.isNew && x.inRevision <= outRevision && x.outRevision == inRevision ::
        !GotSak(x, m).0.sakPending
      ensures forall y: End | Behind(View(), y) && !y.isNew && m.interests.Some? :: Synced(View(), GotSak(y, m).0)
      ensures sakCounter == if !old(sakPending) && sakPending then 0 else old(sakCounter)
      ensures m.toB == toB && m.revision == outRevision && m.ack == inRevision && m.isDelta == deltaInd
      ensures m.interests == (
        if collision || !sendInterests then None else if deltaInd then Some(delta) else Some(Ones(outInterests)))
      ensures sakPending == m.interests.Some? && lastSubMsgType == if m.interests.Some? then LastSak else Nothing
    {
      hide Xor;
      var req := !collision && sendInterests;
      var interests := if req then Some(if deltaInd then delta else Ones(outInterests)) else None;
      m := Sak(toB, outRevision, inRevision, deltaInd, interests);
      lastSubMsgType := Nothing;
      if req {
        if !sakPending {
          sakPending := true;
          sakCounter := 0;
        }
        lastSubMsgType := LastSak;
      } else {
        sakPending := false;
      }
    }

    method UpdateInboundInterests(payload: Bits, isDelta: bool)
      modifies `inInterests
      ensures View() == old(View()).(inInterests := Stored(old(View()), isDelta, payload))
    {
      var interests := payload;
      if inInterests.Some? {
        if isDelta {
          interests := Xor(interests, inInterests.value);
        }
        inInterests := None;
      }
      if interests != {} {
        inInterests := Some(interests);
      }
    }

    /** Takes the interests that a message carries, unless it is a repetition. */
    method TakeInterests(revision: nat, isDelta: bool, payload: Bits)
      modifies `inInterests, `inRevision
      ensures View() == Took(old(View()), revision, isDelta, payload)
    {
      var isDuplicate := inRevision == revision;
      inRevision := revision;
      if !isDuplicate {
        UpdateInboundInterests(payload, isDelta);
      }
    }

    method DecodeSubscription(m: Msg, newInterests: Bits) returns (reply: Option<Msg>)
      requires m.Sub? && (isNew ==> inRevision == 0)
      modifies this
      ensures (View(), reply) == GotSub(old(View()), m, newInterests)
      ensures if m.revision < old(inRevision) then reply == None else
        reply.Some? && reply.value.Sak? && reply.value.ack == inRevision == m.revision && !isNew
      ensures m.revision == old(inRevision) ==> inInterests == old(inInterests)
      ensures m.revision > old(inRevision) ==>
        Ones(inInterests) == if m.isDelta then Xor(m.payload, Ones(old(inInterests))) else m.payload
      ensures old(isNew) ==> outInterests == Some(newInterests)
      ensures !old(isNew) && old(sakPending) && reply.Some? ==> reply.value.interests == None && !sakPending
    {
      XorTwice({}, m.payload);
      hide Updated, Stored;
      var collision := false;
      if !isNew {
        collision := sakPending;
      } else {
        ClearOutboundInterests();
      }
      if m.revision < inRevision {
        return None;
      }
      TakeInterests(m.revision, m.isDelta, m.payload);
      if isNew {
        var changes := UpdateOutboundInterests(newInterests);
        sendInterests := changes;
        isNew := false;
      }
      var sak := SendSubscriptionAck(!m.toB, collision);
      reply := Some(sak);
    }

    method DecodeSubscriptionAck(m: Msg) returns (ok: bool, reply: Option<Msg>)
      requires m.Sak?
      modifies this
      ensures (View(), reply) == GotSak(old(View()), m)
      ensures ok == (!old(isNew) && m.revision >= old(inRevision) && m.ack == outRevision)
      ensures old(isNew) || m.revision < old(inRevision) ==> View() == old(View()) && reply == None
      ensures ok ==> !sakPending && !sendInterests
      ensures !old(isNew) && m.revision >= old(inRevision) ==>
        inRevision == m.revision && (reply.Some? <==> m.interests.Some?)
        && (m.interests.None? ==> lastSubMsgType == Nothing && sakPending == (old(sakPending) && !ok))
    {
      hide Stored;
      if isNew || m.revision < inRevision {
        return false, None;
      }
      reply := None;
      match m.interests {
        case Some(payload) =>
          TakeInterests(m.revision, m.isDelta, payload);
          var sak := SendSubscriptionAck(!m.toB, false);
          reply := Some(sak);
        case None =>
          inRevision := m.revision;
          lastSubMsgType := Nothing;
      }
      ok := outRevision == m.ack;
      if ok {
        sendInterests := false;
        sakPending := false;
      }
    }

    /** Whether the timer sends again what is not acknowledged: three times, from the second time on that it finds it so. */
    ghost predicate Resends(pending: SubsPending)
      reads this
    {
      sakPending && pending != SendNow && 2 <= sakCounter + 1 < 5
    }

    /** While an acknowledgement is pending, the last message is sent again, and after three times the remote is lost;
        otherwise a SUB is sent on a change, or to keep the link alive. */
    method SendSubsTimer(newInterests: Bits, pending: SubsPending, toB: bool) returns (sent: Option<Msg>, lost: bool)
      modifies this
      ensures old(Resends(pending)) ==> (View(), sent) == (Resent(old(View()), toB).0, Some(Resent(old(View()), toB).1))
      ensures old(sakPending) && !old(Resends(pending)) ==> View() == old(View()) && sent == None
      ensures !old(sakPending) ==>
        var e' := Updated(old(View()), newInterests);
        if e'.outRevision != old(outRevision) || pending == NonePending
        then View() == e'.(sakPending := true, last := LastSub) && sent == Some(SubOf(e', toB))
        else View() == e' && sent == None
      ensures !old(sakPending) ==>
        && outInterests == Some(newInterests)
        && (sent.Some? <==> old(outInterests) != Some(newInterests) || pending == NonePending)
      ensures lost <==> old(sakPending) && pending != SendNow && old(sakCounter) + 1 >= 5
    {
      hide Updated;
      sent, lost := None, false;
      if sakPending {
        if pending == SendNow {
          return;
        }
        sakCounter := sakCounter + 1;
        if sakCounter < SAK_RETRY_THRESHOLD {
          return;
        }
        if sakCounter >= SAK_RETRY_THRESHOLD + SAK_RETRY_LIMIT {
          lost := true;
          return;
        }
        var m;
        if lastSubMsgType == LastSub {
          m := SendSubscription(toB);
        } else {
          m := SendSubscriptionAck(toB, false);
        }
        sent := Some(m);
      } else {
        var changes := UpdateOutboundInterests(newInterests);
        if changes || pending == NonePending {
          var m := SendSubscription(toB);
          sent := Some(m);
        }
      }
    }
  }
}
