/**
 * ChatServerImpl as one sequential object: the id counter, the `alive` flag,
 * the ordered session list `clientes`, the ban map, and the output channel of
 * every connection ever accepted (indexed by session id, so a channel outlives
 * its session's place in the list). Each public operation of ChatServerImpl and
 * each turn of a ServerThreadForClient read loop is a method that runs to
 * completion before the next one starts; each is proved to do what the
 * matching function of ServerSpec says.
 */
module Server {
  import opened JavaLang
  import opened Protocol
  import opened Bans
  import opened ServerParse
  import opened Registry
  import opened ServerSpec

  class ChatServer {
    /** The id given to the last accepted connection; -1 before the first. */
    var clientId: int
    /** Cleared by shutdown; gates the accept loop and every read loop. */
    var alive: bool
    /** The listed sessions, in accept order. */
    var clientes: seq<Session>
    /** For each user name, the names it has banned. */
    var bannedUsersMap: BanMap
    /** The output channel of connection i, for every id i accepted so far. */
    var channels: seq<Channel>

    function State(): ServerState
      reads this
    {
      ServerState(clientId, alive, clientes, bannedUsersMap, channels)
    }

    ghost predicate Valid()
      reads this
    {
      Consistent(State())
    }

    constructor ()
      ensures Valid() && State() == Initial
    {
      clientId := -1;
      alive := true;
      clientes := [];
      bannedUsersMap := map[];
      channels := [];
    }

    /**
     * One turn of the accept loop of startup(), with the opening of the new
     * thread's streams and its welcome message.
     */
    method Accept() returns (id: Option<int>)
      requires Valid()
      modifies this`clientId, this`clientes, this`channels
      ensures Valid()
      ensures (State(), id) == AfterAccept(old(State()))
    {
      AcceptKeeps(State());
      if !alive {
        return None;
      }
      clientId := clientId + 1;
      clientes := clientes + [Session(clientId, None, true, true)];
      channels := channels + [Channel([Welcome(clientId)], false, false)];
      id := Some(clientId);
    }

    /**
     * broadcast(m): visit the sessions in list order; skip the sender, and skip a
     * session whose user has banned the sender name read off the text. Reading
     * that name throws when the text has none.
     */
    method Broadcast(m: ChatMessage) returns (thrown: Option<Exception>)
      requires Valid()
      modifies this`channels
      ensures Valid()
      ensures (State(), thrown) == AfterBroadcast(old(State()), m)
    {
      BroadcastKeeps(State(), m);
      var j := 0;
      while j < |clientes|
        invariant 0 <= j <= |clientes|
        invariant IdsBelow(clientes[..j], |old(channels)|)
        invariant FirstCrash(clientes[..j], bannedUsersMap, m).None?
        invariant channels == Deliver(old(channels), clientes[..j], bannedUsersMap, m)
      {
        DeliverStep(old(channels), clientes, j, bannedUsersMap, m);
        var cliente := clientes[j];
        if cliente.id != m.id {
          var blocked := false;
          if cliente.username.Some? && cliente.username.value in bannedUsersMap {
            var sender := SenderName(m.text);
            if sender.Throw? {
              FirstCrashPrefix(clientes, j + 1, bannedUsersMap, m);
              return Some(sender.exception);
            }
            blocked := sender.value in bannedUsersMap[cliente.username.value];
          }
          if !blocked {
            channels := channels[cliente.id := Write(channels[cliente.id], m)];
          }
        }
        j := j + 1;
      }
      assert clientes[..j] == clientes;
      thrown := None;
    }

    /**
     * remove(id): walk the list; every session with that id is sent the logout
     * notice, disconnected and taken out of the list.
     */
    method Remove(id: int)
      requires Valid()
      modifies this`clientes, this`channels
      ensures Valid()
      ensures State() == AfterRemove(old(State()), id)
    {
      RemoveKeeps(State(), id);
      var kept: seq<Session> := [];
      var j := 0;
      while j < |clientes|
        invariant 0 <= j <= |clientes| && clientes == old(clientes)
        invariant IdsBelow(clientes[..j], |old(channels)|)
        invariant kept == Without(clientes[..j], id)
        invariant channels == Evict(old(channels), clientes[..j], id)
      {
        RemoveStep(old(channels), clientes, j, id);
        var cliente := clientes[j];
        if cliente.id == id {
          channels := channels[id := Write(channels[id], LogoutNotice)];
          channels := channels[id := Disconnect(channels[id])];
        } else {
          kept := kept + [cliente];
        }
        j := j + 1;
      }
      assert clientes[..j] == clientes;
      clientes := kept;
    }

    /**
     * drop(nombre): the first listed session whose user name equals `nombre`
     * ignoring case is removed and the answer is true; a session without a user
     * name reached first makes the comparison throw.
     */
    method Drop(nombre: string) returns (r: Outcome<bool>)
      requires Valid()
      modifies this`clientes, this`channels
      ensures Valid()
      ensures (State(), r) == AfterDrop(old(State()), nombre)
    {
      var j := 0;
      while j < |clientes|
        invariant 0 <= j <= |clientes|
        invariant clientes == old(clientes) && channels == old(channels)
        invariant forall q :: 0 <= q < j ==> clientes[q].username.Some? && !NamedAs(clientes[q], nombre)
      {
        var cliente := clientes[j];
        FindUserFirst(clientes, nombre, j);
        if cliente.username.None? {
          return Throw(NullPointerException);
        }
        if EqualsIgnoreCase(cliente.username.value, nombre) {
          Remove(cliente.id);
          return Return(true);
        }
        j := j + 1;
      }
      FindUserFirst(clientes, nombre, j);
      return Return(false);
    }

    /** banUser: `userToBan` joins the ban set of `currentUser`; the answer is always true. */
    method BanUser(currentUser: string, userToBan: string) returns (r: bool)
      modifies this`bannedUsersMap
      ensures r
      ensures State() == AfterBan(old(State()), currentUser, userToBan)
    {
      bannedUsersMap := WithBan(bannedUsersMap, currentUser, userToBan);
      return true;
    }

    /** unbanUser: `userToUnban` leaves the ban set of `currentUser`, if it has one. */
    method UnbanUser(currentUser: string, userToUnban: string) returns (r: bool)
      modifies this`bannedUsersMap
      ensures (State(), r) == AfterUnban(old(State()), currentUser, userToUnban)
    {
      if currentUser in bannedUsersMap {
        bannedUsersMap := WithoutBan(bannedUsersMap, currentUser, userToUnban);
        return true;
      }
      return false;
    }

    /**
     * shutdown(): broadcast the SHUTDOWN notice, then disconnect every listed
     * session and take it out of the list, then clear `alive`.
     */
    method Shutdown()
      requires Valid()
      modifies this`clientes, this`channels, this`alive
      ensures Valid()
      ensures State() == AfterShutdown(old(State()))
    {
      ShutdownKeeps(State());
      ShutdownNoticeDelivered(State());
      var thrown := Broadcast(ShutdownNotice);
      ghost var delivered, all := channels, clientes;
      ghost var k := 0;
      while |clientes| > 0
        invariant 0 <= k <= |all| && clientes == all[k..]
        invariant IdsBelow(all[..k], |delivered|)
        invariant channels == CloseAll(delivered, all[..k])
        decreases |clientes|
      {
        CloseStep(delivered, all, k);
        k := k + 1;
        var cliente := clientes[0];
        channels := channels[cliente.id := Disconnect(channels[cliente.id])];
        clientes := clientes[1..];
      }
      assert all[..k] == all;
      alive := false;
    }

    /**
     * tratamientoMensaje: the thread of session `k`, whose user name is `u`,
     * dispatches a message on its type.
     */
    method Handle(k: int, u: string, msg: ChatMessage) returns (step: Step)
      requires Valid() && 0 <= k < |channels|
      modifies this
      ensures Valid()
      ensures (State(), step) == AfterHandle(old(State()), k, u, msg)
    {
      HandleKeeps(State(), k, u, msg);
      if msg.kind == Message {
        var datos := DropCommand(msg.text);
        if datos.Throw? {
          return Crashed(datos.exception);
        }
        if datos.value.Some? {
          var name := datos.value.value;
          var respuesta := Drop(name);
          if respuesta.Throw? {
            return Crashed(respuesta.exception);
          }
          channels := channels[k := Write(channels[k], DropReply(k, name, respuesta.value))];
          return Handled;
        }
        var thrown := Broadcast(msg);
        return StepAfter(thrown);
      } else if msg.kind == Ban {
        var userToBan := BanTarget(msg.text);
        if userToBan.Throw? {
          return Crashed(userToBan.exception);
        }
        var _ := BanUser(u, userToBan.value);
        var thrown := Broadcast(BanNotice(k, u, userToBan.value, true));
        return StepAfter(thrown);
      } else if msg.kind == Unban {
        var userToUnban := BanTarget(msg.text);
        if userToUnban.Throw? {
          return Crashed(userToUnban.exception);
        }
        var _ := UnbanUser(u, userToUnban.value);
        var thrown := Broadcast(BanNotice(k, u, userToUnban.value, false));
        return StepAfter(thrown);
      } else if msg.kind == Logout {
        Remove(msg.id);
        clientes := Deactivate(clientes, k);
        return Handled;
      } else {
        Shutdown();
        alive := false;
        return Handled;
      }
    }

    /**
     * One turn of the loop of run() for session `k`: the first message read
     * sets the user name; every later one is dispatched.
     */
    method Receive(k: int, msg: ChatMessage) returns (step: Step)
      requires Valid() && Reading(State(), k)
      modifies this
      ensures Valid()
      ensures (State(), step) == AfterReceive(old(State()), k, msg)
    {
      ReceiveKeeps(State(), k, msg);
      var p := Position(clientes, k).value;
      if clientes[p].primero {
        clientes := Register(clientes, k, msg.text);
        return Registered;
      }
      step := Handle(k, clientes[p].username.value, msg);
    }

    /**
     * The peer of connection `k` goes away: from now on writes to it fail (the
     * IOException that broadcast, remove and the drop reply catch) and its
     * reads end the session's loop.
     */
    method PeerCloses(k: int)
      requires Valid() && 0 <= k < |channels|
      modifies this`channels
      ensures Valid()
      ensures channels == old(channels)[k := old(channels)[k].(peerClosed := true)]
    {
      channels := channels[k := channels[k].(peerClosed := true)];
    }
  }
}
