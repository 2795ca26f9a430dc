/**
 * What each operation of ChatServerImpl does to the whole server state, as a
 * function from the state before to the state after (and the operation's
 * answer), with the invariant the operations keep and the properties they
 * promise proved as lemmas. The class in server.dfy is proved to follow these.
 */
module ServerSpec {
  import opened JavaLang
  import opened Protocol
  import opened Bans
  import opened ServerParse
  import opened Registry

  /** The first message run() writes on a new connection, carrying the session id. */
  function Welcome(id: int): ChatMessage {
    ChatMessage(id, Message, "Servidor: Conexión realizada")
  }

  /** What shutdown() broadcasts before closing every session. */
  const ShutdownNotice: ChatMessage := ChatMessage(ServerId, Shutdown, "El servidor va a cerrar")

  /** The private answer to a drop command. */
  function DropReply(id: int, name: string, found: bool): ChatMessage {
    ChatMessage(id, Message, "El usuario " + name + (if found then " ha sido desconectado." else " no existe."))
  }

  /** The notice broadcast after a BAN (`banned`) or an UNBAN (not `banned`). */
  function BanNotice(id: int, user: string, target: string, banned: bool): ChatMessage {
    ChatMessage(id, Message, user + (if banned then " ha baneado a " else " ha desbaneado a ") + target)
  }

  /**
   * How one message read by a session's loop ends: it was the registration, it
   * was dispatched, or dispatching it threw an exception that nothing catches
   * (which ends that session's thread).
   */
  datatype Step = Registered | Handled | Crashed(exception: Exception)

  /** A broadcast that threw ends the handling of the message with that exception. */
  function StepAfter(thrown: Option<Exception>): Step {
    if thrown.Some? then Crashed(thrown.value) else Handled
  }

  /** The fields of ChatServerImpl, and the output channel of every connection accepted so far. */
  datatype ServerState = ServerState(
    clientId: int,
    alive: bool,
    clientes: seq<Session>,
    bans: BanMap,
    channels: seq<Channel>)

  /**
   * The invariant of the server: connections 0..clientId have been accepted,
   * each with its channel; the listed sessions are in accept order; a channel
   * is closed exactly when its session has left the list; a session has a user
   * name exactly when it has read its registration; after shutdown the list is
   * empty.
   */
  predicate Consistent(st: ServerState) {
    && st.clientId >= -1
    && |st.channels| == st.clientId + 1
    && IdsBelow(st.clientes, |st.channels|)
    && IdsIncreasing(st.clientes)
    && ClosedExactlyUnlisted(st.channels, st.clientes)
    && RegisteredIffNamed(st.clientes)
    && (!st.alive ==> st.clientes == [])
  }

  /** The state of a freshly constructed server. */
  const Initial: ServerState := ServerState(-1, true, [], map[], [])

  // ---------------------------------------------------------------------------
  // The operations
  // ---------------------------------------------------------------------------

  /** One turn of the accept loop of startup(), with the welcome run() writes. */
  function AfterAccept(st: ServerState): (r: (ServerState, Option<int>))
    ensures r.1.Some? <==> st.alive
    ensures !st.alive ==> r.0 == st
    ensures r.0.bans == st.bans && r.0.alive == st.alive
    ensures r.1.Some? ==>
      && r.1.value == r.0.clientId == st.clientId + 1
      && |r.0.channels| == |st.channels| + 1 && r.0.channels[..|st.channels|] == st.channels
      && r.0.channels[|st.channels|] == Channel([Welcome(r.1.value)], false, false)
  {
    if !st.alive then (st, None)
    else
      var id := st.clientId + 1;
      (st.(clientId := id,
           clientes := st.clientes + [Session(id, None, true, true)],
           channels := st.channels + [Channel([Welcome(id)], false, false)]),
       Some(id))
  }

  /** broadcast(m): the channels it writes, and the exception that stopped it, if any. */
  function AfterBroadcast(st: ServerState, m: ChatMessage): (r: (ServerState, Option<Exception>))
    requires IdsBelow(st.clientes, |st.channels|)
    ensures |r.0.channels| == |st.channels|
  {
    match FirstCrash(st.clientes, st.bans, m)
    case None => (st.(channels := Deliver(st.channels, st.clientes, st.bans, m)), None)
    case Some(p) =>
      (st.(channels := Deliver(st.channels, st.clientes[..p], st.bans, m)), Some(ArrayIndexOutOfBoundsException))
  }

  /** remove(id). */
  function AfterRemove(st: ServerState, id: int): (r: ServerState)
    requires IdsBelow(st.clientes, |st.channels|)
    ensures |r.channels| == |st.channels|
  {
    st.(clientes := Without(st.clientes, id), channels := Evict(st.channels, st.clientes, id))
  }

  /** drop(nombre): the lookup, then remove of the session found. */
  function AfterDrop(st: ServerState, nombre: string): (r: (ServerState, Outcome<bool>))
    requires IdsBelow(st.clientes, |st.channels|)
    ensures |r.0.channels| == |st.channels|
  {
    match FindUser(st.clientes, nombre)
    case Throw(e) => (st, Throw(e))
    case Return(None) => (st, Return(false))
    case Return(Some(p)) => (AfterRemove(st, st.clientes[p].id), Return(true))
  }

  /** banUser(currentUser, userToBan); the answer is always true. */
  function AfterBan(st: ServerState, currentUser: string, userToBan: string): (r: ServerState)
    ensures r == st.(bans := r.bans)
    ensures Blocks(r.bans, Some(currentUser), userToBan)
  {
    st.(bans := WithBan(st.bans, currentUser, userToBan))
  }

  /** unbanUser(currentUser, userToUnban) and its answer. */
  function AfterUnban(st: ServerState, currentUser: string, userToUnban: string): (r: (ServerState, bool))
    ensures r.0 == st.(bans := r.0.bans)
    ensures !Blocks(r.0.bans, Some(currentUser), userToUnban)
    ensures !r.1 ==> r.0 == st
  {
    (st.(bans := WithoutBan(st.bans, currentUser, userToUnban)), currentUser in st.bans)
  }

  /** shutdown(): the notice is broadcast, then every listed session is closed and unlisted. */
  function AfterShutdown(st: ServerState): (r: ServerState)
    requires IdsBelow(st.clientes, |st.channels|)
    ensures |r.channels| == |st.channels|
  {
    var delivered := Deliver(st.channels, st.clientes, st.bans, ShutdownNotice);
    st.(alive := false, clientes := [], channels := CloseAll(delivered, st.clientes))
  }

  /**
   * tratamientoMensaje: what the thread of session `k`, whose user name is `u`,
   * does with a message after its registration.
   */
  function AfterHandle(st: ServerState, k: int, u: string, msg: ChatMessage): (r: (ServerState, Step))
    requires IdsBelow(st.clientes, |st.channels|) && 0 <= k < |st.channels|
    ensures |r.0.channels| == |st.channels|
  {
    match msg.kind
    case Message =>
      (match DropCommand(msg.text)
       case Throw(e) => (st, Crashed(e))
       case Return(None) =>
         var (after, thrown) := AfterBroadcast(st, msg);
         (after, StepAfter(thrown))
       case Return(Some(name)) =>
         (match AfterDrop(st, name)
          case (after, Throw(e)) => (after, Crashed(e))
          case (after, Return(found)) =>
            (after.(channels := after.channels[k := Write(after.channels[k], DropReply(k, name, found))]), Handled)))
    case Ban =>
      (match BanTarget(msg.text)
       case Throw(e) => (st, Crashed(e))
       case Return(target) =>
         var (after, thrown) := AfterBroadcast(AfterBan(st, u, target), BanNotice(k, u, target, true));
         (after, StepAfter(thrown)))
    case Unban =>
      (match BanTarget(msg.text)
       case Throw(e) => (st, Crashed(e))
       case Return(target) =>
         var (after, thrown) := AfterBroadcast(AfterUnban(st, u, target).0, BanNotice(k, u, target, false));
         (after, StepAfter(thrown)))
    case Logout =>
      var after := AfterRemove(st, msg.id);
      (after.(clientes := Deactivate(after.clientes, k)), Handled)
    case Shutdown =>
      (AfterShutdown(st), Handled)
  }

  /**
   * The loop of run() may go on for session `k`: the server is alive, the
   * session is listed and active, and its peer has not gone away (otherwise
   * the read fails and the loop ends).
   */
  predicate Reading(st: ServerState, k: int) {
    && st.alive
    && 0 <= k < |st.channels| && !st.channels[k].peerClosed
    && Position(st.clientes, k).Some? && st.clientes[Position(st.clientes, k).value].activo
  }

  /** One turn of the loop of run() for session `k`: the registration, or tratamientoMensaje. */
  function AfterReceive(st: ServerState, k: int, msg: ChatMessage): (r: (ServerState, Step))
    requires Consistent(st) && Reading(st, k)
    ensures r.1 == Registered <==> st.clientes[Position(st.clientes, k).value].primero
    ensures r.1 == Registered ==> r.0.channels == st.channels && r.0.bans == st.bans
  {
    var p := Position(st.clientes, k).value;
    if st.clientes[p].primero then (st.(clientes := Register(st.clientes, k, msg.text)), Registered)
    else AfterHandle(st, k, st.clientes[p].username.value, msg)
  }

  // ---------------------------------------------------------------------------
  // The invariant is kept
  // ---------------------------------------------------------------------------

  lemma AcceptKeeps(st: ServerState)
    requires Consistent(st)
    ensures Consistent(AfterAccept(st).0)
  {
    if st.alive {
      var r := AfterAccept(st).0;
      var s := Session(st.clientId + 1, None, true, true);
      IdsAppend(st.clientes, s);
      assert forall p :: 0 <= p < |st.clientes| ==> r.clientes[p] == st.clientes[p];
      forall i | 0 <= i < |r.channels| ensures r.channels[i].disconnected <==> i !in Ids(r.clientes) {
        if i < |st.channels| {
          assert r.channels[i] == st.channels[i];
        }
      }
    }
  }

  lemma BroadcastKeeps(st: ServerState, m: ChatMessage)
    requires Consistent(st)
    ensures Consistent(AfterBroadcast(st, m).0)
  {
    match FirstCrash(st.clientes, st.bans, m)
    case None =>
      DeliverKeepsFlags(st.channels, st.clientes, st.bans, m);
    case Some(p) =>
      DeliverKeepsFlags(st.channels, st.clientes[..p], st.bans, m);
  }

  lemma RemoveKeeps(st: ServerState, id: int)
    requires Consistent(st)
    ensures Consistent(AfterRemove(st, id))
  {
    WithoutKeeps(st.clientes, id, |st.channels|);
    EvictSpec(st.channels, st.clientes, id);
  }

  lemma DropKeeps(st: ServerState, nombre: string)
    requires Consistent(st)
    ensures Consistent(AfterDrop(st, nombre).0)
  {
    match FindUser(st.clientes, nombre)
    case Return(Some(p)) => RemoveKeeps(st, st.clientes[p].id);
    case _ =>
  }

  lemma ShutdownKeeps(st: ServerState)
    requires Consistent(st)
    ensures Consistent(AfterShutdown(st))
  {
    var delivered := Deliver(st.channels, st.clientes, st.bans, ShutdownNotice);
    DeliverKeepsFlags(st.channels, st.clientes, st.bans, ShutdownNotice);
    CloseAllSpec(delivered, st.clientes);
  }

  /** Writing to one channel opens or closes none. */
  lemma WriteKeeps(st: ServerState, k: int, m: ChatMessage)
    requires Consistent(st) && 0 <= k < |st.channels|
    ensures Consistent(st.(channels := st.channels[k := Write(st.channels[k], m)]))
  {
  }

  lemma HandleKeeps(st: ServerState, k: int, u: string, msg: ChatMessage)
    requires Consistent(st) && 0 <= k < |st.channels|
    ensures Consistent(AfterHandle(st, k, u, msg).0)
  {
    match msg.kind
    case Message =>
      match DropCommand(msg.text) {
        case Throw(e) =>
        case Return(None) => BroadcastKeeps(st, msg);
        case Return(Some(name)) =>
          DropKeeps(st, name);
          var after := AfterDrop(st, name).0;
          if AfterDrop(st, name).1.Return? {
            WriteKeeps(after, k, DropReply(k, name, AfterDrop(st, name).1.value));
          }
      }
    case Ban =>
      if BanTarget(msg.text).Return? {
        var target := BanTarget(msg.text).value;
        BroadcastKeeps(AfterBan(st, u, target), BanNotice(k, u, target, true));
      }
    case Unban =>
      if BanTarget(msg.text).Return? {
        var target := BanTarget(msg.text).value;
        BroadcastKeeps(AfterUnban(st, u, target).0, BanNotice(k, u, target, false));
      }
    case Logout =>
      RemoveKeeps(st, msg.id);
      var after := AfterRemove(st, msg.id);
      DeactivateSpec(after.clientes, k, |after.channels|);
    case Shutdown =>
      ShutdownKeeps(st);
  }

  lemma ReceiveKeeps(st: ServerState, k: int, msg: ChatMessage)
    requires Consistent(st) && Reading(st, k)
    ensures Consistent(AfterReceive(st, k, msg).0)
  {
    var p := Position(st.clientes, k).value;
    if st.clientes[p].primero {
      RegisterSpec(st.clientes, k, msg.text, |st.channels|);
      var r := Register(st.clientes, k, msg.text);
      forall q | 0 <= q < |r| ensures r[q].primero <==> r[q].username.None? {
      }
    } else {
      HandleKeeps(st, k, st.clientes[p].username.value, msg);
    }
  }

  // ---------------------------------------------------------------------------
  // Messages the server makes itself
  // ---------------------------------------------------------------------------

  /** The shutdown notice has a sender name, so broadcasting it never throws. */
  lemma NoticesHaveSender()
    ensures SenderName(ShutdownNotice.text) == Return(ShutdownNotice.text)
  {
    assert ShutdownNotice.text[0] == 'E';
    assert ':' !in ShutdownNotice.text;
  }

  /** A ban or unban notice has a sender name (at least its first word), so broadcasting it never throws. */
  lemma BanNoticeHasSender(k: int, u: string, target: string, banned: bool)
    ensures SenderName(BanNotice(k, u, target, banned).text).Return?
  {
    var text := BanNotice(k, u, target, banned).text;
    assert text[|u|] == ' ';
  }

  /** Broadcasting the shutdown notice reaches every session the ban filter lets through, and never throws. */
  lemma ShutdownNoticeDelivered(st: ServerState)
    requires IdsBelow(st.clientes, |st.channels|)
    ensures AfterBroadcast(st, ShutdownNotice)
         == (st.(channels := Deliver(st.channels, st.clientes, st.bans, ShutdownNotice)), None)
  {
    NoticesHaveSender();
    FirstCrashSpec(st.clientes, st.bans, ShutdownNotice);
  }
}
