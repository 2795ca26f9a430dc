/**
 * The connection registry of the server as values: the sessions in the order of
 * `clientes` (ChatServerImpl.java:35), the output channel of every connection
 * ever accepted, and what broadcast, remove, drop and shutdown do to them, each
 * written as the walk over the list that the server performs, with the
 * properties of that walk proved as lemmas.
 */
module Registry {
  import opened JavaLang
  import opened Protocol
  import opened Bans
  import opened ServerParse

  /**
   * A ServerThreadForClient as the registry sees it: its id, its user name (null
   * until the first message arrives), and the flags `primero` (the next message
   * is the registration) and `activo` (the read loop goes on).
   */
  datatype Session = Session(id: int, username: Option<string>, primero: bool, activo: bool)

  /**
   * The output stream of one connection: the messages written to it so far,
   * whether the server has closed it (disconnect), and whether the peer has gone
   * away so that writes fail.
   */
  datatype Channel = Channel(outbox: seq<ChatMessage>, disconnected: bool, peerClosed: bool) {
    predicate Writable() {
      !disconnected && !peerClosed
    }
  }

  /** `output.writeObject(m)`; a write that fails is caught and the message is lost. */
  function Write(ch: Channel, m: ChatMessage): (r: Channel)
    ensures r == ch.(outbox := ch.outbox + (if ch.Writable() then [m] else []))
  {
    if ch.Writable() then ch.(outbox := ch.outbox + [m]) else ch
  }

  /** `disconnect()`: the streams and the socket are closed. */
  function Disconnect(ch: Channel): (r: Channel)
    ensures !r.Writable()
    ensures r.outbox == ch.outbox && r.peerClosed == ch.peerClosed
  {
    ch.(disconnected := true)
  }

  /** What remove() writes to a session before closing it. */
  const LogoutNotice: ChatMessage := ChatMessage(ServerId, Logout, "Desconectado del servidor")

  function Ids(ss: seq<Session>): set<int> {
    set p | 0 <= p < |ss| :: ss[p].id
  }

  /** Ids strictly increase along the list; in particular no id occurs twice. */
  predicate IdsIncreasing(ss: seq<Session>) {
    forall p, q :: 0 <= p < q < |ss| ==> ss[p].id < ss[q].id
  }

  /** Every id names one of the first `n` channels. */
  predicate IdsBelow(ss: seq<Session>, n: int) {
    forall p :: 0 <= p < |ss| ==> 0 <= ss[p].id < n
  }

  /** Exactly the channels of the connections no longer listed are closed. */
  predicate ClosedExactlyUnlisted(chs: seq<Channel>, ss: seq<Session>) {
    forall i :: 0 <= i < |chs| ==> (chs[i].disconnected <==> i !in Ids(ss))
  }

  /** A session waits for its registration exactly while it has no user name. */
  predicate RegisteredIffNamed(ss: seq<Session>) {
    forall p :: 0 <= p < |ss| ==> (ss[p].primero <==> ss[p].username.None?)
  }

  lemma IdsAppend(ss: seq<Session>, s: Session)
    ensures Ids(ss + [s]) == Ids(ss) + {s.id}
  {
    var r := ss + [s];
    forall i | i in Ids(r) ensures i in Ids(ss) + {s.id} {
      var p :| 0 <= p < |r| && r[p].id == i;
      if p < |ss| { assert ss[p].id == i; }
    }
    forall i | i in Ids(ss) ensures i in Ids(r) {
      var p :| 0 <= p < |ss| && ss[p].id == i;
      assert r[p].id == i;
    }
    assert r[|ss|].id == s.id;
  }

  /** One more element of a prefix adds its id; in an increasing list that id is new. */
  lemma IdsPrefix(ss: seq<Session>, j: int)
    requires 0 <= j < |ss|
    ensures ss[..j + 1] == ss[..j] + [ss[j]]
    ensures Ids(ss[..j + 1]) == Ids(ss[..j]) + {ss[j].id}
    ensures IdsIncreasing(ss) ==> ss[j].id !in Ids(ss[..j])
  {
    assert ss[..j + 1] == ss[..j] + [ss[j]];
    IdsAppend(ss[..j], ss[j]);
  }

  // ---------------------------------------------------------------------------
  // broadcast
  // ---------------------------------------------------------------------------

  /**
   * The test broadcast applies to each session: it is not the sender, and its
   * user's ban set does not hold the sender name parsed from the text.
   */
  predicate Receives(s: Session, bans: BanMap, m: ChatMessage) {
    s.id != m.id && !(SenderName(m.text).Return? && Blocks(bans, s.username, SenderName(m.text).value))
  }

  /**
   * Broadcast reaches this session and has to parse the sender name (the
   * session's user has a ban entry), but the text has none: the parse throws.
   */
  predicate Crashes(s: Session, bans: BanMap, m: ChatMessage) {
    s.id != m.id && s.username.Some? && s.username.value in bans && SenderName(m.text).Throw?
  }

  /** The channels after broadcast has visited the sessions `ss` in order without throwing. */
  function Deliver(chs: seq<Channel>, ss: seq<Session>, bans: BanMap, m: ChatMessage): (r: seq<Channel>)
    requires IdsBelow(ss, |chs|)
    ensures |r| == |chs|
  {
    if ss == [] then chs
    else
      var prev := Deliver(chs, ss[..|ss| - 1], bans, m);
      var s := ss[|ss| - 1];
      if Receives(s, bans, m) then prev[s.id := Write(prev[s.id], m)] else prev
  }

  /** The position of the first session at which broadcast throws, if any. */
  function FirstCrash(ss: seq<Session>, bans: BanMap, m: ChatMessage): (r: Option<nat>)
    ensures r.Some? ==> r.value < |ss|
  {
    if ss == [] then None
    else
      match FirstCrash(ss[..|ss| - 1], bans, m)
      case Some(p) => Some(p)
      case None => if Crashes(ss[|ss| - 1], bans, m) then Some(|ss| - 1) else None
  }

  /** One more session visited by broadcast. */
  lemma DeliverStep(chs: seq<Channel>, ss: seq<Session>, j: int, bans: BanMap, m: ChatMessage)
    requires IdsBelow(ss, |chs|) && 0 <= j < |ss|
    ensures IdsBelow(ss[..j], |chs|) && IdsBelow(ss[..j + 1], |chs|)
    ensures Deliver(chs, ss[..j + 1], bans, m)
         == var prev := Deliver(chs, ss[..j], bans, m);
            if Receives(ss[j], bans, m) then prev[ss[j].id := Write(prev[ss[j].id], m)] else prev
    ensures FirstCrash(ss[..j + 1], bans, m)
         == if FirstCrash(ss[..j], bans, m).Some? then FirstCrash(ss[..j], bans, m)
            else if Crashes(ss[j], bans, m) then Some(j) else None
  {
    assert ss[..j + 1][..j] == ss[..j];
  }

  /** Once broadcast has thrown on a prefix, the rest of the list does not matter. */
  lemma {:induction false} FirstCrashPrefix(ss: seq<Session>, n: int, bans: BanMap, m: ChatMessage)
    requires 0 <= n <= |ss| && FirstCrash(ss[..n], bans, m).Some?
    ensures FirstCrash(ss, bans, m) == FirstCrash(ss[..n], bans, m)
    decreases |ss| - n
  {
    if n < |ss| {
      assert ss[..n + 1][..n] == ss[..n];
      FirstCrashPrefix(ss, n + 1, bans, m);
    } else {
      assert ss[..n] == ss;
    }
  }

  /**
   * Broadcast throws at the first session that passes the sender test, has a
   * ban entry, and meets a text without a sender name; it never throws when the
   * text has a sender name.
   */
  lemma {:induction false} FirstCrashSpec(ss: seq<Session>, bans: BanMap, m: ChatMessage)
    ensures FirstCrash(ss, bans, m).None? <==> forall q :: 0 <= q < |ss| ==> !Crashes(ss[q], bans, m)
    ensures FirstCrash(ss, bans, m).Some? ==>
      var p := FirstCrash(ss, bans, m).value;
      && p < |ss| && Crashes(ss[p], bans, m)
      && forall q :: 0 <= q < p ==> !Crashes(ss[q], bans, m)
    ensures SenderName(m.text).Return? ==> FirstCrash(ss, bans, m).None?
  {
    if ss != [] {
      var init := ss[..|ss| - 1];
      FirstCrashSpec(init, bans, m);
      assert forall q :: 0 <= q < |init| ==> init[q] == ss[q];
    }
  }

  /**
   * Broadcast writes the message exactly once to every session that passes the
   * test, and writes nothing to any other session or to any connection that is
   * not in the list.
   */
  lemma {:induction false} DeliverSpec(chs: seq<Channel>, ss: seq<Session>, bans: BanMap, m: ChatMessage)
    requires IdsBelow(ss, |chs|) && IdsIncreasing(ss)
    ensures forall p :: 0 <= p < |ss| ==>
      Deliver(chs, ss, bans, m)[ss[p].id] == if Receives(ss[p], bans, m) then Write(chs[ss[p].id], m) else chs[ss[p].id]
    ensures forall i :: 0 <= i < |chs| && i !in Ids(ss) ==> Deliver(chs, ss, bans, m)[i] == chs[i]
  {
    if ss != [] {
      var init, s := ss[..|ss| - 1], ss[|ss| - 1];
      DeliverSpec(chs, init, bans, m);
      IdsPrefix(ss, |ss| - 1);
      assert ss[..|ss|] == ss;
      forall p | 0 <= p < |ss| - 1
        ensures Deliver(chs, ss, bans, m)[ss[p].id]
             == if Receives(ss[p], bans, m) then Write(chs[ss[p].id], m) else chs[ss[p].id]
      {
        assert init[p] == ss[p];
      }
    }
  }

  /** Broadcast only appends to outboxes: no channel is opened or closed. */
  lemma {:induction false} DeliverKeepsFlags(chs: seq<Channel>, ss: seq<Session>, bans: BanMap, m: ChatMessage)
    requires IdsBelow(ss, |chs|)
    ensures forall i :: 0 <= i < |chs| ==>
      && Deliver(chs, ss, bans, m)[i].disconnected == chs[i].disconnected
      && Deliver(chs, ss, bans, m)[i].peerClosed == chs[i].peerClosed
  {
    if ss != [] {
      DeliverKeepsFlags(chs, ss[..|ss| - 1], bans, m);
    }
  }

  /**
   * Bans are per recipient name and directional: after `user` bans the sender of
   * `m`, sessions named `user` stop receiving it, sessions with any other name
   * are unaffected, and unbanning restores delivery.
   */
  lemma BanFiltersOnlyItsUser(bans: BanMap, user: string, m: ChatMessage, s: Session)
    requires SenderName(m.text).Return? && s.id != m.id
    ensures var banned := WithBan(bans, user, SenderName(m.text).value);
      && (s.username == Some(user) ==> !Receives(s, banned, m))
      && (s.username != Some(user) ==> (Receives(s, banned, m) <==> Receives(s, bans, m)))
      && (s.username == Some(user) ==> Receives(s, WithoutBan(banned, user, SenderName(m.text).value), m))
  {
  }

  // ---------------------------------------------------------------------------
  // remove
  // ---------------------------------------------------------------------------

  /** The list after remove(id) has visited `ss`: `iterator.remove()` on every session with that id. */
  function Without(ss: seq<Session>, id: int): (r: seq<Session>)
    ensures |r| <= |ss|
    ensures forall p :: 0 <= p < |r| ==> r[p].id != id
  {
    if ss == [] then []
    else
      var prev := Without(ss[..|ss| - 1], id);
      if ss[|ss| - 1].id == id then prev else prev + [ss[|ss| - 1]]
  }

  /** The channels after remove(id) has visited `ss`: each session with that id is sent the logout notice and closed. */
  function Evict(chs: seq<Channel>, ss: seq<Session>, id: int): (r: seq<Channel>)
    requires IdsBelow(ss, |chs|)
    ensures |r| == |chs|
  {
    if ss == [] then chs
    else
      var prev := Evict(chs, ss[..|ss| - 1], id);
      if ss[|ss| - 1].id == id then prev[id := Disconnect(Write(prev[id], LogoutNotice))] else prev
  }

  /** One more session visited by remove. */
  lemma RemoveStep(chs: seq<Channel>, ss: seq<Session>, j: int, id: int)
    requires IdsBelow(ss, |chs|) && 0 <= j < |ss|
    ensures IdsBelow(ss[..j], |chs|) && IdsBelow(ss[..j + 1], |chs|)
    ensures Without(ss[..j + 1], id) == if ss[j].id == id then Without(ss[..j], id) else Without(ss[..j], id) + [ss[j]]
    ensures Evict(chs, ss[..j + 1], id)
         == var prev := Evict(chs, ss[..j], id);
            if ss[j].id == id then prev[id := Disconnect(Write(prev[id], LogoutNotice))] else prev
  {
    assert ss[..j + 1][..j] == ss[..j];
  }

  /** Removal takes out exactly the sessions with that id. */
  lemma {:induction false} WithoutMembers(ss: seq<Session>, id: int)
    ensures forall s :: s in Without(ss, id) <==> s in ss && s.id != id
  {
    if ss != [] {
      var init := ss[..|ss| - 1];
      WithoutMembers(init, id);
      assert ss == init + [ss[|ss| - 1]];
    }
  }

  /** Removing an id that is not listed changes nothing. */
  lemma {:induction false} WithoutUnlisted(ss: seq<Session>, id: int)
    requires id !in Ids(ss)
    ensures Without(ss, id) == ss
  {
    if ss != [] {
      var init := ss[..|ss| - 1];
      IdsPrefix(ss, |ss| - 1);
      assert ss[..|ss|] == ss;
      WithoutUnlisted(init, id);
    }
  }

  /** The sessions that stay keep their relative order, so the ids stay increasing. */
  lemma {:induction false} WithoutIncreasing(ss: seq<Session>, id: int)
    requires IdsIncreasing(ss)
    ensures IdsIncreasing(Without(ss, id))
  {
    if ss != [] {
      var init, s := ss[..|ss| - 1], ss[|ss| - 1];
      var prev := Without(init, id);
      WithoutIncreasing(init, id);
      if s.id != id {
        WithoutMembers(init, id);
        var r := prev + [s];
        forall p, q | 0 <= p < q < |r| ensures r[p].id < r[q].id {
          assert r[p] == prev[p];
          if q == |prev| {
            assert prev[p] in init;
            var p' :| 0 <= p' < |init| && init[p'] == prev[p];
            assert ss[p'] == init[p'];
          } else {
            assert r[q] == prev[q];
          }
        }
      }
    }
  }

  /**
   * Removal takes out exactly the id from the listed ids, and keeps every
   * invariant of the list.
   */
  lemma WithoutKeeps(ss: seq<Session>, id: int, n: int)
    ensures Ids(Without(ss, id)) == Ids(ss) - {id}
    ensures IdsIncreasing(ss) ==> IdsIncreasing(Without(ss, id))
    ensures IdsBelow(ss, n) ==> IdsBelow(Without(ss, id), n)
    ensures RegisteredIffNamed(ss) ==> RegisteredIffNamed(Without(ss, id))
  {
    var r := Without(ss, id);
    WithoutMembers(ss, id);
    if IdsIncreasing(ss) {
      WithoutIncreasing(ss, id);
    }
    forall i | i in Ids(r) ensures i in Ids(ss) - {id} {
      var p :| 0 <= p < |r| && r[p].id == i;
      assert r[p] in ss;
    }
    forall i | i in Ids(ss) - {id} ensures i in Ids(r) {
      var p :| 0 <= p < |ss| && ss[p].id == i;
      assert ss[p] in r;
    }
    if IdsBelow(ss, n) {
      forall p | 0 <= p < |r| ensures 0 <= r[p].id < n {
        assert r[p] in ss;
      }
    }
    if RegisteredIffNamed(ss) {
      forall p | 0 <= p < |r| ensures r[p].primero <==> r[p].username.None? {
        assert r[p] in ss;
      }
    }
  }

  /**
   * In a list with increasing ids, remove sends the logout notice to the session
   * with that id, if listed, closes it, and touches no other channel.
   */
  lemma {:induction false} EvictSpec(chs: seq<Channel>, ss: seq<Session>, id: int)
    requires IdsBelow(ss, |chs|) && IdsIncreasing(ss)
    ensures Evict(chs, ss, id) == if id in Ids(ss) then chs[id := Disconnect(Write(chs[id], LogoutNotice))] else chs
  {
    if ss != [] {
      var init := ss[..|ss| - 1];
      IdsPrefix(ss, |ss| - 1);
      assert ss[..|ss|] == ss;
      EvictSpec(chs, init, id);
    }
  }

  // ---------------------------------------------------------------------------
  // drop
  // ---------------------------------------------------------------------------

  /** `s.username.equalsIgnoreCase(name)` for a session with a user name. */
  predicate NamedAs(s: Session, name: string) {
    s.username.Some? && EqualsIgnoreCase(s.username.value, name)
  }

  /**
   * The lookup of drop: walk the sessions in list order and stop at the first
   * whose user name equals `name` ignoring case; a session without a user name
   * met first makes `username.equalsIgnoreCase` throw.
   */
  function FindUser(ss: seq<Session>, name: string): (r: Outcome<Option<nat>>)
    ensures r.Return? && r.value.Some? ==> r.value.value < |ss|
  {
    if ss == [] then Return(None)
    else if ss[0].username.None? then Throw(NullPointerException)
    else if EqualsIgnoreCase(ss[0].username.value, name) then Return(Some(0))
    else
      match FindUser(ss[1..], name)
      case Return(Some(p)) => Return(Some(p + 1))
      case other => other
  }

  /**
   * When the first `p` sessions are named and none of them is `name`, the
   * lookup is decided at position `p`: not found past the end, a null user
   * name throws, a match is found there. Every list has such a first decisive
   * position, so this fixes the lookup's result on every input.
   */
  lemma {:induction false} FindUserFirst(ss: seq<Session>, name: string, p: int)
    requires 0 <= p <= |ss|
    requires forall q :: 0 <= q < p ==> ss[q].username.Some? && !NamedAs(ss[q], name)
    ensures p == |ss| ==> FindUser(ss, name) == Return(None)
    ensures p < |ss| && ss[p].username.None? ==> FindUser(ss, name) == Throw(NullPointerException)
    ensures p < |ss| && NamedAs(ss[p], name) ==> FindUser(ss, name) == Return(Some(p))
  {
    if p > 0 {
      assert forall q :: 0 <= q < p - 1 ==> ss[1..][q] == ss[q + 1];
      FindUserFirst(ss[1..], name, p - 1);
    }
  }

  /** A user found by the lookup is named as asked, and every session before it is named otherwise. */
  lemma {:induction false} FindUserFound(ss: seq<Session>, name: string)
    ensures FindUser(ss, name).Return? && FindUser(ss, name).value.Some? ==>
      var p := FindUser(ss, name).value.value;
      && p < |ss| && NamedAs(ss[p], name)
      && forall q :: 0 <= q < p ==> ss[q].username.Some? && !NamedAs(ss[q], name)
    ensures FindUser(ss, name) == Return(None) <==>
      forall q :: 0 <= q < |ss| ==> ss[q].username.Some? && !NamedAs(ss[q], name)
  {
    if ss != [] && ss[0].username.Some? && !EqualsIgnoreCase(ss[0].username.value, name) {
      FindUserFound(ss[1..], name);
      assert forall q :: 1 <= q < |ss| ==> ss[q] == ss[1..][q - 1];
    }
  }

  // ---------------------------------------------------------------------------
  // shutdown, and the updates of a session's own fields
  // ---------------------------------------------------------------------------

  /** The channels after shutdown's loop has disconnected the sessions `ss` in order. */
  function CloseAll(chs: seq<Channel>, ss: seq<Session>): (r: seq<Channel>)
    requires IdsBelow(ss, |chs|)
    ensures |r| == |chs|
  {
    if ss == [] then chs
    else
      var prev := CloseAll(chs, ss[..|ss| - 1]);
      prev[ss[|ss| - 1].id := Disconnect(prev[ss[|ss| - 1].id])]
  }

  /** One more session disconnected by shutdown. */
  lemma CloseStep(chs: seq<Channel>, ss: seq<Session>, j: int)
    requires IdsBelow(ss, |chs|) && 0 <= j < |ss|
    ensures IdsBelow(ss[..j], |chs|) && IdsBelow(ss[..j + 1], |chs|)
    ensures CloseAll(chs, ss[..j + 1]) == CloseAll(chs, ss[..j])[ss[j].id := Disconnect(CloseAll(chs, ss[..j])[ss[j].id])]
  {
    var init := ss[..j + 1][..j];
    assert init == ss[..j];
    assert ss[..j + 1][j] == ss[j];
  }

  /** Shutdown's loop closes the channel of every listed session, writes nothing, and touches no other channel. */
  lemma {:induction false} CloseAllSpec(chs: seq<Channel>, ss: seq<Session>)
    requires IdsBelow(ss, |chs|)
    ensures forall i :: 0 <= i < |chs| ==>
      CloseAll(chs, ss)[i] == if i in Ids(ss) then Disconnect(chs[i]) else chs[i]
  {
    if ss != [] {
      CloseAllSpec(chs, ss[..|ss| - 1]);
      IdsPrefix(ss, |ss| - 1);
      assert ss[..|ss|] == ss;
    }
  }

  /** Where the session with this id stands in the list. */
  function Position(ss: seq<Session>, id: int): (r: Option<nat>)
    ensures r.Some? ==> r.value < |ss| && ss[r.value].id == id
  {
    if ss == [] then None
    else if ss[0].id == id then Some(0)
    else
      match Position(ss[1..], id)
      case Some(p) => Some(p + 1)
      case None => None
  }

  /** The lookup finds exactly the listed ids. */
  lemma {:induction false} PositionSpec(ss: seq<Session>, id: int)
    ensures Position(ss, id).None? <==> id !in Ids(ss)
  {
    if ss != [] && ss[0].id != id {
      PositionSpec(ss[1..], id);
      assert forall p :: 1 <= p < |ss| ==> ss[p] == ss[1..][p - 1];
      if id in Ids(ss) {
        var p :| 0 <= p < |ss| && ss[p].id == id;
        assert ss[1..][p - 1].id == id;
      }
    }
  }

  /** Every session with id `k` takes the update `f` of its own fields; the ids stay put. */
  function UpdateSession(ss: seq<Session>, k: int, f: Session -> Session): (r: seq<Session>)
    ensures |r| == |ss|
  {
    seq(|ss|, p requires 0 <= p < |ss| => if ss[p].id == k then f(ss[p]) else ss[p])
  }

  /** The first message read by session `k` becomes its user name (`username = ...; primero = false`). */
  function Register(ss: seq<Session>, k: int, name: string): (r: seq<Session>)
    ensures |r| == |ss| && forall p :: 0 <= p < |ss| ==> r[p].id == ss[p].id
  {
    UpdateSession(ss, k, (s: Session) => s.(username := Some(name), primero := false))
  }

  /** Session `k` stops its read loop (`activo = false`). */
  function Deactivate(ss: seq<Session>, k: int): (r: seq<Session>)
    ensures |r| == |ss| && forall p :: 0 <= p < |ss| ==> r[p].id == ss[p].id
  {
    UpdateSession(ss, k, (s: Session) => s.(activo := false))
  }

  /** Registering keeps the ids and the invariants of the list, and names exactly session `k`. */
  lemma RegisterSpec(ss: seq<Session>, k: int, name: string, n: int)
    ensures Ids(Register(ss, k, name)) == Ids(ss)
    ensures forall p :: 0 <= p < |ss| ==>
      Register(ss, k, name)[p] == if ss[p].id == k then Session(k, Some(name), false, ss[p].activo) else ss[p]
    ensures IdsIncreasing(ss) ==> IdsIncreasing(Register(ss, k, name))
    ensures IdsBelow(ss, n) ==> IdsBelow(Register(ss, k, name), n)
    ensures RegisteredIffNamed(ss) ==> RegisteredIffNamed(Register(ss, k, name))
  {
    var r := Register(ss, k, name);
    assert forall p :: 0 <= p < |ss| ==> r[p].id == ss[p].id;
    assert Ids(r) == Ids(ss) by {
      forall i | i in Ids(r) ensures i in Ids(ss) {
        var p :| 0 <= p < |r| && r[p].id == i;
      }
      forall i | i in Ids(ss) ensures i in Ids(r) {
        var p :| 0 <= p < |ss| && ss[p].id == i;
      }
    }
  }

  /** Deactivating keeps the ids and the invariants of the list, and stops exactly session `k`. */
  lemma DeactivateSpec(ss: seq<Session>, k: int, n: int)
    ensures Ids(Deactivate(ss, k)) == Ids(ss)
    ensures forall p :: 0 <= p < |ss| ==>
      Deactivate(ss, k)[p] == if ss[p].id == k then ss[p].(activo := false) else ss[p]
    ensures IdsIncreasing(ss) ==> IdsIncreasing(Deactivate(ss, k))
    ensures IdsBelow(ss, n) ==> IdsBelow(Deactivate(ss, k), n)
    ensures RegisteredIffNamed(ss) ==> RegisteredIffNamed(Deactivate(ss, k))
  {
    var r := Deactivate(ss, k);
    assert forall p :: 0 <= p < |ss| ==> r[p].id == ss[p].id;
    assert Ids(r) == Ids(ss) by {
      forall i | i in Ids(r) ensures i in Ids(ss) {
        var p :| 0 <= p < |r| && r[p].id == i;
      }
      forall i | i in Ids(ss) ensures i in Ids(r) {
        var p :| 0 <= p < |ss| && ss[p].id == i;
      }
    }
  }
}
