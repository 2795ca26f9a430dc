/**
 * What the server promises its clients, proved of the state functions that
 * the ChatServer class follows: who receives a broadcast, what remove, drop
 * and shutdown leave behind, and how a session's read loop registers, stops
 * and dispatches.
 */
module ServerProperties {
  import opened JavaLang
  import opened Protocol
  import opened Bans
  import opened ServerParse
  import opened Registry
  import opened ServerSpec

  /**
   * Accept hands out ids 0, 1, 2, ... in accept order: the new id is the number
   * of connections accepted before, above every listed id (so never reused),
   * and the new session goes last in the list, unregistered, with the welcome
   * as the only message on its channel. After shutdown nothing is accepted.
   */
  lemma AcceptAssignsNextId(st: ServerState)
    requires Consistent(st)
    ensures !st.alive ==> AfterAccept(st) == (st, None)
    ensures st.alive ==>
      var (after, id) := AfterAccept(st);
      && id == Some(|st.channels|)
      && (forall i :: i in Ids(st.clientes) ==> i < id.value)
      && after.clientes == st.clientes + [Session(id.value, None, true, true)]
      && |after.channels| == |st.channels| + 1
      && after.channels[..|st.channels|] == st.channels
      && after.channels[id.value].outbox == [Welcome(id.value)]
      && Ids(after.clientes) == Ids(st.clientes) + {id.value}
  {
    if st.alive {
      IdsAppend(st.clientes, Session(st.clientId + 1, None, true, true));
    }
  }

  /**
   * A broadcast that does not throw writes `m` once to every listed session that
   * passes the sender and ban test, and nothing anywhere else; it throws only
   * when the text has no sender name and some recipient other than the sender
   * has a ban entry. The list and the ban map do not change.
   */
  lemma BroadcastDelivers(st: ServerState, m: ChatMessage)
    requires Consistent(st)
    ensures var (after, thrown) := AfterBroadcast(st, m);
      && after.clientId == st.clientId && after.alive == st.alive
      && after.clientes == st.clientes && after.bans == st.bans
      && (thrown.None? <==> forall q :: 0 <= q < |st.clientes| ==> !Crashes(st.clientes[q], st.bans, m))
      && (SenderName(m.text).Return? ==> thrown.None?)
      && (thrown.None? ==> forall p :: 0 <= p < |st.clientes| ==>
            after.channels[st.clientes[p].id]
              == if Receives(st.clientes[p], st.bans, m) then Write(st.channels[st.clientes[p].id], m)
                 else st.channels[st.clientes[p].id])
      && (forall i :: 0 <= i < |st.channels| && i !in Ids(st.clientes) ==> after.channels[i] == st.channels[i])
  {
    FirstCrashSpec(st.clientes, st.bans, m);
    match FirstCrash(st.clientes, st.bans, m)
    case None =>
      DeliverSpec(st.channels, st.clientes, st.bans, m);
    case Some(c) =>
      BroadcastStopsAtThrow(st, m);
  }

  /**
   * A broadcast that throws has delivered exactly to the recipients before the
   * session where the sender name was needed and could not be read; that
   * session and all later ones get nothing.
   */
  lemma BroadcastStopsAtThrow(st: ServerState, m: ChatMessage)
    requires Consistent(st) && FirstCrash(st.clientes, st.bans, m).Some?
    ensures var c := FirstCrash(st.clientes, st.bans, m).value;
      var (after, thrown) := AfterBroadcast(st, m);
      && thrown == Some(ArrayIndexOutOfBoundsException)
      && SenderName(m.text).Throw? && Crashes(st.clientes[c], st.bans, m)
      && (forall p :: 0 <= p < |st.clientes| ==>
            after.channels[st.clientes[p].id]
              == if p < c && Receives(st.clientes[p], st.bans, m) then Write(st.channels[st.clientes[p].id], m)
                 else st.channels[st.clientes[p].id])
      && (forall i :: 0 <= i < |st.channels| && i !in Ids(st.clientes) ==> after.channels[i] == st.channels[i])
  {
    var c := FirstCrash(st.clientes, st.bans, m).value;
    var done := st.clientes[..c];
    FirstCrashSpec(st.clientes, st.bans, m);
    assert forall p :: 0 <= p < c ==> done[p] == st.clientes[p];
    DeliverSpec(st.channels, done, st.bans, m);
    forall p | c <= p < |st.clientes| ensures st.clientes[p].id !in Ids(done) {
    }
    forall i | i in Ids(done) ensures i in Ids(st.clientes) {
      var q :| 0 <= q < c && done[q].id == i;
      assert st.clientes[q].id == i;
    }
  }

  /** The sender of a message never gets it back from broadcast, whether or not it throws. */
  lemma NoEcho(st: ServerState, m: ChatMessage)
    requires Consistent(st) && 0 <= m.id < |st.channels|
    ensures AfterBroadcast(st, m).0.channels[m.id] == st.channels[m.id]
  {
    BroadcastDelivers(st, m);
    if AfterBroadcast(st, m).1.Some? {
      BroadcastStopsAtThrow(st, m);
    }
  }

  /**
   * remove(id) takes the session with that id out of the list, keeping the
   * others in order; that session alone is sent the logout notice (when its
   * channel still takes writes) and closed. An id not listed changes nothing.
   */
  lemma RemoveSpec(st: ServerState, id: int)
    requires Consistent(st)
    ensures var after := AfterRemove(st, id);
      && after.clientId == st.clientId && after.alive == st.alive && after.bans == st.bans
      && (forall s :: s in after.clientes <==> s in st.clientes && s.id != id)
      && IdsIncreasing(after.clientes)
      && Ids(after.clientes) == Ids(st.clientes) - {id}
      && (id in Ids(st.clientes) ==>
            after.channels == st.channels[id := Disconnect(Write(st.channels[id], LogoutNotice))])
      && (id !in Ids(st.clientes) ==> after == st)
  {
    WithoutMembers(st.clientes, id);
    WithoutKeeps(st.clientes, id, |st.channels|);
    EvictSpec(st.channels, st.clientes, id);
    if id !in Ids(st.clientes) {
      WithoutUnlisted(st.clientes, id);
    }
  }

  /** A second remove of the same id changes nothing. */
  lemma RemoveTwice(st: ServerState, id: int)
    requires Consistent(st)
    ensures var once := AfterRemove(st, id);
      IdsBelow(once.clientes, |once.channels|) && AfterRemove(once, id) == once
  {
    RemoveSpec(st, id);
    RemoveKeeps(st, id);
    RemoveSpec(AfterRemove(st, id), id);
  }

  /**
   * drop(nombre) answers true exactly when the walk meets a session named
   * `nombre` (ignoring case) before any unregistered one, and then removes the
   * first such session; it answers false exactly when every session is named
   * otherwise, and then nothing changes; it throws when an unregistered session
   * comes first, and then nothing changes either.
   */
  lemma DropSpec(st: ServerState, nombre: string)
    requires Consistent(st)
    ensures var (after, r) := AfterDrop(st, nombre);
      && (r == Return(false) <==>
            forall q :: 0 <= q < |st.clientes| ==> st.clientes[q].username.Some? && !NamedAs(st.clientes[q], nombre))
      && (r != Return(true) ==> after == st)
      && (r.Throw? ==> r == Throw(NullPointerException))
      && (r == Return(true) ==>
            exists p :: 0 <= p < |st.clientes| && NamedAs(st.clientes[p], nombre)
              && (forall q :: 0 <= q < p ==> st.clientes[q].username.Some? && !NamedAs(st.clientes[q], nombre))
              && after == AfterRemove(st, st.clientes[p].id))
    ensures forall p ::
              0 <= p < |st.clientes| && NamedAs(st.clientes[p], nombre)
              && (forall q :: 0 <= q < p ==> st.clientes[q].username.Some? && !NamedAs(st.clientes[q], nombre))
              ==> AfterDrop(st, nombre).1 == Return(true)
    ensures forall p ::
              0 <= p < |st.clientes| && st.clientes[p].username.None?
              && (forall q :: 0 <= q < p ==> st.clientes[q].username.Some? && !NamedAs(st.clientes[q], nombre))
              ==> AfterDrop(st, nombre).1 == Throw(NullPointerException)
  {
    forall p | 0 <= p < |st.clientes|
        && (forall q :: 0 <= q < p ==> st.clientes[q].username.Some? && !NamedAs(st.clientes[q], nombre))
      ensures NamedAs(st.clientes[p], nombre) ==> AfterDrop(st, nombre).1 == Return(true)
      ensures st.clientes[p].username.None? ==> AfterDrop(st, nombre).1 == Throw(NullPointerException)
    {
      FindUserFirst(st.clientes, nombre, p);
    }
    FindUserFound(st.clientes, nombre);
    match FindUser(st.clientes, nombre)
    case Return(Some(p)) =>
      assert NamedAs(st.clientes[p], nombre);
    case Return(None) =>
    case Throw(e) =>
      var q := FirstDecisive(st.clientes, nombre);
      FindUserFirst(st.clientes, nombre, q);
  }

  /** Every list has a first position where drop's walk is decided: the end, an unregistered session or a match. */
  lemma {:induction false} FirstDecisive(ss: seq<Session>, nombre: string) returns (q: int)
    ensures 0 <= q <= |ss|
    ensures q == |ss| || ss[q].username.None? || NamedAs(ss[q], nombre)
    ensures forall q' :: 0 <= q' < q ==> ss[q'].username.Some? && !NamedAs(ss[q'], nombre)
  {
    if ss == [] || ss[0].username.None? || NamedAs(ss[0], nombre) {
      return 0;
    }
    var rest := FirstDecisive(ss[1..], nombre);
    q := rest + 1;
    forall q' | 0 <= q' < q ensures ss[q'].username.Some? && !NamedAs(ss[q'], nombre) {
      if q' > 0 { assert ss[q'] == ss[1..][q' - 1]; }
    }
    if rest < |ss[1..]| {
      assert ss[q] == ss[1..][rest];
    }
  }

  /**
   * shutdown() leaves no session listed, `alive` false and every channel
   * closed; the ban map does not change.
   */
  lemma ShutdownClosesAll(st: ServerState)
    requires Consistent(st)
    ensures var after := AfterShutdown(st);
      && !after.alive && after.clientes == [] && after.bans == st.bans
      && forall i :: 0 <= i < |after.channels| ==> after.channels[i].disconnected
  {
    ShutdownKeeps(st);
  }

  /**
   * Before closing, shutdown() sends each listed session the SHUTDOWN notice,
   * unless its user banned the server's sender name "El servidor va a cerrar".
   */
  lemma ShutdownNotifies(st: ServerState)
    requires Consistent(st)
    ensures forall p :: 0 <= p < |st.clientes| ==>
      var id := st.clientes[p].id;
      AfterShutdown(st).channels[id] == Disconnect(
        if Blocks(st.bans, st.clientes[p].username, ShutdownNotice.text) then st.channels[id]
        else Write(st.channels[id], ShutdownNotice))
  {
    var delivered := Deliver(st.channels, st.clientes, st.bans, ShutdownNotice);
    var closed := CloseAll(delivered, st.clientes);
    assert AfterShutdown(st).channels == closed;
    DeliverSpec(st.channels, st.clientes, st.bans, ShutdownNotice);
    CloseAllSpec(delivered, st.clientes);
    forall p | 0 <= p < |st.clientes|
      ensures closed[st.clientes[p].id] == Disconnect(
        if Blocks(st.bans, st.clientes[p].username, ShutdownNotice.text) then st.channels[st.clientes[p].id]
        else Write(st.channels[st.clientes[p].id], ShutdownNotice))
    {
      var s := st.clientes[p];
      assert s.id in Ids(st.clientes);
      assert closed[s.id] == Disconnect(delivered[s.id]);
      ShutdownNoticeFilter(s, st.bans);
    }
  }

  /** The shutdown notice reaches a session exactly when its user has not banned the server's sender name. */
  lemma ShutdownNoticeFilter(s: Session, bans: BanMap)
    requires s.id >= 0
    ensures Receives(s, bans, ShutdownNotice) <==> !Blocks(bans, s.username, ShutdownNotice.text)
  {
    NoticesHaveSender();
  }

  /** shutdown() writes to no connection that had already left the list, and closes none of them again. */
  lemma ShutdownSparesUnlisted(st: ServerState)
    requires Consistent(st)
    ensures forall i :: 0 <= i < |st.channels| && i !in Ids(st.clientes) ==>
      AfterShutdown(st).channels[i] == st.channels[i]
  {
    var delivered := Deliver(st.channels, st.clientes, st.bans, ShutdownNotice);
    assert AfterShutdown(st).channels == CloseAll(delivered, st.clientes);
    DeliverSpec(st.channels, st.clientes, st.bans, ShutdownNotice);
    CloseAllSpec(delivered, st.clientes);
  }

  /**
   * A drop command whose lookup completes is answered to the requester alone:
   * apart from the requester's channel, which gets the reply, and the dropped
   * session's, which gets the logout notice and is closed, no channel is
   * written. When the lookup meets an unregistered session first, it throws:
   * nothing changes, no reply is sent and the requester's thread ends.
   */
  lemma DropAnswersOnlyRequester(st: ServerState, k: int, u: string, msg: ChatMessage, name: string)
    requires Consistent(st) && 0 <= k < |st.channels|
    requires msg.kind == Message && DropCommand(msg.text) == Return(Some(name))
    ensures FindUser(st.clientes, name).Return? ==>
      var (after, step) := AfterHandle(st, k, u, msg);
      var found := FindUser(st.clientes, name).value;
      var mid := AfterDrop(st, name).0;
      && step == Handled
      && after.channels[k] == Write(mid.channels[k], DropReply(k, name, found.Some?))
      && forall i :: 0 <= i < |st.channels| && i != k && (found.None? || i != st.clientes[found.value].id) ==>
           after.channels[i] == st.channels[i]
    ensures FindUser(st.clientes, name).Throw? ==>
      AfterHandle(st, k, u, msg) == (st, Crashed(NullPointerException))
  {
    match FindUser(st.clientes, name)
    case Return(Some(p)) => RemoveSpec(st, st.clientes[p].id);
    case Return(None) =>
    case Throw(e) => DropSpec(st, name);
  }

  /**
   * A MESSAGE that is not a drop command is broadcast as it came: the new
   * state is the broadcast's, whose deliveries BroadcastDelivers describes, and
   * the thread crashes exactly when the broadcast throws; when the text has a
   * sender name the broadcast does not throw and the thread goes on reading.
   */
  lemma ChatIsBroadcast(st: ServerState, k: int, u: string, msg: ChatMessage)
    requires Consistent(st) && 0 <= k < |st.channels|
    requires msg.kind == Message && DropCommand(msg.text) == Return(None)
    ensures AfterHandle(st, k, u, msg) == (AfterBroadcast(st, msg).0, StepAfter(AfterBroadcast(st, msg).1))
    ensures SenderName(msg.text).Return? ==> AfterHandle(st, k, u, msg).1 == Handled
  {
    BroadcastDelivers(st, msg);
  }

  /**
   * A BAN from session `k` (user `u`) with a readable target bans it for `u`,
   * then broadcasts its notice from the updated state (BroadcastDelivers says
   * who gets it); the notice never throws and never reaches `k`. An UNBAN does
   * the same with the target lifted.
   */
  lemma BanNoticeSkipsRequester(st: ServerState, k: int, u: string, msg: ChatMessage)
    requires Consistent(st) && 0 <= k < |st.channels|
    requires msg.kind in {Ban, Unban} && BanTarget(msg.text).Return?
    ensures var (after, step) := AfterHandle(st, k, u, msg);
      var target := BanTarget(msg.text).value;
      && step == Handled
      && after.bans == (if msg.kind == Ban then WithBan(st.bans, u, target) else WithoutBan(st.bans, u, target))
      && after.clientes == st.clientes
      && after.channels[k] == st.channels[k]
    ensures var target := BanTarget(msg.text).value;
      var mid := if msg.kind == Ban then AfterBan(st, u, target) else AfterUnban(st, u, target).0;
      AfterHandle(st, k, u, msg).0 == AfterBroadcast(mid, BanNotice(k, u, target, msg.kind == Ban)).0
  {
    if msg.kind == Ban {
      BanSkipsRequester(st, k, u, msg);
    } else {
      UnbanSkipsRequester(st, k, u, msg);
    }
  }

  /** The BAN half of BanNoticeSkipsRequester. */
  lemma BanSkipsRequester(st: ServerState, k: int, u: string, msg: ChatMessage)
    requires Consistent(st) && 0 <= k < |st.channels|
    requires msg.kind == Ban && BanTarget(msg.text).Return?
    ensures var (after, step) := AfterHandle(st, k, u, msg);
      && step == Handled && after.bans == WithBan(st.bans, u, BanTarget(msg.text).value)
      && after.clientes == st.clientes && after.channels[k] == st.channels[k]
    ensures var target := BanTarget(msg.text).value;
      AfterHandle(st, k, u, msg).0 == AfterBroadcast(AfterBan(st, u, target), BanNotice(k, u, target, true)).0
  {
    var target := BanTarget(msg.text).value;
    var notice := BanNotice(k, u, target, true);
    var mid := AfterBan(st, u, target);
    BanNoticeHasSender(k, u, target, true);
    assert AfterHandle(st, k, u, msg) == (AfterBroadcast(mid, notice).0, StepAfter(AfterBroadcast(mid, notice).1));
    BanMidNotice(st, mid, notice);
  }

  /** The UNBAN half of BanNoticeSkipsRequester. */
  lemma UnbanSkipsRequester(st: ServerState, k: int, u: string, msg: ChatMessage)
    requires Consistent(st) && 0 <= k < |st.channels|
    requires msg.kind == Unban && BanTarget(msg.text).Return?
    ensures var (after, step) := AfterHandle(st, k, u, msg);
      && step == Handled && after.bans == WithoutBan(st.bans, u, BanTarget(msg.text).value)
      && after.clientes == st.clientes && after.channels[k] == st.channels[k]
    ensures var target := BanTarget(msg.text).value;
      AfterHandle(st, k, u, msg).0 == AfterBroadcast(AfterUnban(st, u, target).0, BanNotice(k, u, target, false)).0
  {
    var target := BanTarget(msg.text).value;
    var notice := BanNotice(k, u, target, false);
    var mid := AfterUnban(st, u, target).0;
    BanNoticeHasSender(k, u, target, false);
    assert AfterHandle(st, k, u, msg) == (AfterBroadcast(mid, notice).0, StepAfter(AfterBroadcast(mid, notice).1));
    BanMidNotice(st, mid, notice);
  }

  /**
   * The notice broadcast after a ban map update, when it has a sender name:
   * it does not throw, keeps the list and the ban map, and skips its sender.
   */
  lemma BanMidNotice(st: ServerState, mid: ServerState, notice: ChatMessage)
    requires Consistent(st) && mid == st.(bans := mid.bans)
    requires 0 <= notice.id < |st.channels| && SenderName(notice.text).Return?
    ensures var (after, thrown) := AfterBroadcast(mid, notice);
      && thrown.None? && after.bans == mid.bans && after.clientes == st.clientes
      && after.channels[notice.id] == st.channels[notice.id]
  {
    assert Consistent(mid);
    FirstCrashSpec(mid.clientes, mid.bans, notice);
    NoEcho(mid, notice);
  }

  /**
   * LOGOUT removes the session named by the message's id: it leaves the list
   * and is not read from again.
   */
  lemma LogoutRemovesSender(st: ServerState, k: int, u: string, msg: ChatMessage)
    requires Consistent(st) && 0 <= k < |st.channels| && msg.kind == Logout
    ensures AfterHandle(st, k, u, msg).1 == Handled
    ensures msg.id !in Ids(AfterHandle(st, k, u, msg).0.clientes)
    ensures !Reading(AfterHandle(st, k, u, msg).0, msg.id)
  {
    var mid := AfterRemove(st, msg.id);
    var after := mid.(clientes := Deactivate(mid.clientes, k));
    assert AfterHandle(st, k, u, msg) == (after, Handled);
    RemoveSpec(st, msg.id);
    DeactivateSpec(mid.clientes, k, |mid.channels|);
    PositionSpec(after.clientes, msg.id);
  }

  /** LOGOUT ends the loop of the session that handles it, even when the message names another id. */
  lemma LogoutStopsHandler(st: ServerState, k: int, u: string, msg: ChatMessage)
    requires Consistent(st) && 0 <= k < |st.channels| && msg.kind == Logout
    ensures forall s :: s in AfterHandle(st, k, u, msg).0.clientes && s.id == k ==> !s.activo
    ensures !Reading(AfterHandle(st, k, u, msg).0, k)
  {
    var mid := AfterRemove(st, msg.id);
    var after := mid.(clientes := Deactivate(mid.clientes, k));
    assert AfterHandle(st, k, u, msg) == (after, Handled);
    DeactivateSpec(mid.clientes, k, |mid.channels|);
    forall s | s in after.clientes && s.id == k ensures !s.activo {
      var q :| 0 <= q < |after.clientes| && after.clientes[q] == s;
    }
  }

  /** SHUTDOWN from any session shuts the server down: no session is read from again. */
  lemma ShutdownStopsAll(st: ServerState, k: int, u: string, msg: ChatMessage, j: int)
    requires Consistent(st) && 0 <= k < |st.channels| && msg.kind == Shutdown
    ensures var (after, step) := AfterHandle(st, k, u, msg);
      && step == Handled && !after.alive && after.clientes == [] && !Reading(after, j)
  {
  }

  /**
   * The first message a session reads only sets its user name: nothing is
   * written to any channel, the ban map does not change, and the session no
   * longer waits for its registration; no other session changes.
   */
  lemma RegistrationOnlyNames(st: ServerState, k: int, msg: ChatMessage)
    requires Consistent(st) && Reading(st, k)
    requires st.clientes[Position(st.clientes, k).value].primero
    ensures var (after, step) := AfterReceive(st, k, msg);
      var p := Position(st.clientes, k).value;
      && step == Registered
      && after.channels == st.channels && after.bans == st.bans && after.alive == st.alive
      && |after.clientes| == |st.clientes|
      && after.clientes[p] == Session(k, Some(msg.text), false, true)
      && forall q :: 0 <= q < |st.clientes| && q != p ==> after.clientes[q] == st.clientes[q]
  {
    RegisterSpec(st.clientes, k, msg.text, |st.channels|);
  }

  /**
   * `primero` flips once: after any message read by session `k`, the session,
   * if still listed, has its user name and does not wait for a registration.
   */
  lemma PrimeroFlipsOnce(st: ServerState, k: int, msg: ChatMessage)
    requires Consistent(st) && Reading(st, k)
    ensures forall s :: s in AfterReceive(st, k, msg).0.clientes && s.id == k ==> !s.primero && s.username.Some?
  {
    var p := Position(st.clientes, k).value;
    if st.clientes[p].primero {
      var r := Register(st.clientes, k, msg.text);
      RegisterSpec(st.clientes, k, msg.text, |st.channels|);
      forall s | s in r && s.id == k ensures !s.primero && s.username.Some? {
        var q :| 0 <= q < |r| && r[q] == s;
      }
    } else {
      forall s | s in st.clientes && s.id == k ensures !s.primero && s.username.Some? {
        var q :| 0 <= q < |st.clientes| && st.clientes[q] == s;
        assert q == p;
      }
      HandleKeepsRegistration(st, k, st.clientes[p].username.value, msg);
    }
  }

  /** tratamientoMensaje never brings back the registration of a session that has registered. */
  lemma HandleKeepsRegistration(st: ServerState, k: int, u: string, msg: ChatMessage)
    requires Consistent(st) && 0 <= k < |st.channels|
    requires forall s :: s in st.clientes && s.id == k ==> !s.primero && s.username.Some?
    ensures forall s :: s in AfterHandle(st, k, u, msg).0.clientes && s.id == k ==> !s.primero && s.username.Some?
  {
    if msg.kind == Logout {
      LogoutKeepsRegistration(st, k, u, msg);
    } else if msg.kind == Message && DropCommand(msg.text).Return? && DropCommand(msg.text).value.Some? {
      var name := DropCommand(msg.text).value.value;
      match FindUser(st.clientes, name) {
        case Return(Some(f)) =>
          assert AfterHandle(st, k, u, msg).0.clientes == Without(st.clientes, st.clientes[f].id);
          WithoutMembers(st.clientes, st.clientes[f].id);
        case _ =>
      }
    }
  }

  /** LOGOUT only takes sessions out of the list and clears `activo`: a registered session stays registered. */
  lemma LogoutKeepsRegistration(st: ServerState, k: int, u: string, msg: ChatMessage)
    requires Consistent(st) && 0 <= k < |st.channels| && msg.kind == Logout
    requires forall s :: s in st.clientes && s.id == k ==> !s.primero && s.username.Some?
    ensures forall s :: s in AfterHandle(st, k, u, msg).0.clientes && s.id == k ==> !s.primero && s.username.Some?
  {
    var mid := AfterRemove(st, msg.id);
    var after := Deactivate(mid.clientes, k);
    assert AfterHandle(st, k, u, msg).0.clientes == after;
    DeactivateSpec(mid.clientes, k, |mid.channels|);
    WithoutMembers(st.clientes, msg.id);
    forall s | s in after && s.id == k ensures !s.primero && s.username.Some? {
      var q :| 0 <= q < |after| && after[q] == s;
      assert mid.clientes[q] in mid.clientes;
    }
  }
}
