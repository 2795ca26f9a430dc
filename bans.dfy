/**
 * The ban registry of the server (`bannedUsersMap` in ChatServerImpl.java): for
 * each recipient user name, the set of sender names whose messages it does not
 * want to receive. Entries are created on the first ban and never deleted.
 */
module Bans {
  import opened JavaLang

  type BanMap = map<string, set<string>>

  /** The names `user` has banned; empty when it has no entry. */
  function BannedBy(bans: BanMap, user: string): set<string> {
    if user in bans then bans[user] else {}
  }

  /**
   * `bans.computeIfAbsent(user, k -> new HashSet<>()).add(target)`: afterwards
   * `user` has an entry that holds `target`; nothing else changes.
   */
  function WithBan(bans: BanMap, user: string, target: string): (r: BanMap)
    ensures r.Keys == bans.Keys + {user}
    ensures target in r[user]
    ensures r[user] - {target} == BannedBy(bans, user) - {target}
    ensures forall u :: u in bans && u != user ==> r[u] == bans[u]
  {
    bans[user := BannedBy(bans, user) + {target}]
  }

  /**
   * `bans.get(user).remove(target)` when `user` has an entry: afterwards `target`
   * is not in it, the key stays, and nothing else changes. Without an entry
   * nothing changes.
   */
  function WithoutBan(bans: BanMap, user: string, target: string): (r: BanMap)
    ensures r.Keys == bans.Keys
    ensures user in bans ==> target !in r[user] && r[user] + {target} == bans[user] + {target}
    ensures forall u :: u in bans && u != user ==> r[u] == bans[u]
    ensures user !in bans ==> r == bans
  {
    if user in bans then bans[user := bans[user] - {target}] else bans
  }

  /**
   * The filter of broadcast: a recipient whose user name has an entry holding
   * the sender name does not get the message. A recipient that has not
   * registered a name (null in Java) has no entry.
   */
  predicate Blocks(bans: BanMap, recipient: Option<string>, sender: string) {
    recipient.Some? && recipient.value in bans && sender in bans[recipient.value]
  }

  /** Banning blocks the target for that recipient and changes no other recipient's filter. */
  lemma BanBlocks(bans: BanMap, user: string, target: string, other: Option<string>, sender: string)
    ensures Blocks(WithBan(bans, user, target), Some(user), target)
    ensures other != Some(user) ==> (Blocks(WithBan(bans, user, target), other, sender) <==> Blocks(bans, other, sender))
  {
  }

  /** Unbanning lifts the block on the target for that recipient only. */
  lemma UnbanUnblocks(bans: BanMap, user: string, target: string, other: Option<string>, sender: string)
    ensures !Blocks(WithoutBan(bans, user, target), Some(user), target)
    ensures other != Some(user) ==> (Blocks(WithoutBan(bans, user, target), other, sender) <==> Blocks(bans, other, sender))
  {
  }

  /** Unbanning right after banning leaves the user's entry with the target removed. */
  lemma BanThenUnban(bans: BanMap, user: string, target: string)
    ensures WithoutBan(WithBan(bans, user, target), user, target)
         == bans[user := BannedBy(bans, user) - {target}]
  {
  }
}
