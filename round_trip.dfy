/**
 * The client and the server agree on the text format "username: rest": what
 * the server reads back out of the texts the client builds — the sender name
 * the ban filter compares, the target of a BAN or UNBAN, the drop command — is
 * what the user typed.
 */
module RoundTrip {
  import opened JavaLang
  import opened Protocol
  import opened Bans
  import opened ServerParse
  import opened Registry
  import opened Client

  /** A character absent from a string is absent from its trim. */
  lemma TrimKeepsOut(s: string, c: char)
    requires c !in s
    ensures c !in Trim(s)
  {
    var t := TrimStart(s);
    assert c !in t by {
      assert t == s[|s| - |t|..];
      forall k | 0 <= k < |t| ensures t[k] != c {
        assert t[k] == s[|s| - |t| + k];
      }
    }
    var r := TrimEnd(t);
    assert r == t[..|r|];
    forall k | 0 <= k < |r| ensures r[k] != c {
      assert r[k] == t[k];
    }
    assert Trim(s) == r;
  }

  /** The sender name of a text "username: rest" is the user name, when it has no ':' and no surrounding white space. */
  lemma PrefixedSender(username: string, text: string)
    requires ':' !in username && IsTrimmed(username)
    requires StartsWith(text, username + ": ")
    ensures SenderName(text) == Return(username)
  {
    var prefix := username + ": ";
    var rest := text[|username| + 1..];
    assert text[..|prefix|] == prefix;
    assert text[..|username|] == prefix[..|username|] == username;
    assert text[|username|] == prefix[|username|] == ':';
    assert text[|username| + 1] == prefix[|username| + 1] == ' ';
    assert text == username + [':'] + rest;
    PiecesAt(username, ':', rest);
  }

  /**
   * Every text a client sends, whatever the line, carries the client's user name
   * as its sender name, provided the name has no ':' and no surrounding white
   * space.
   */
  lemma ClientTextHasSender(id: int, username: string, line: string)
    requires ':' !in username && IsTrimmed(username)
    ensures SenderName(Classify(id, username, line).0.text) == Return(username)
  {
    PrefixedSender(username, Classify(id, username, line).0.text);
  }

  /** The server reads back, as the target, a trimmed name without ':' placed after "username: ". */
  lemma TargetRoundTrip(username: string, t: string)
    requires ':' !in username && ':' !in t && IsTrimmed(t)
    ensures BanTarget(username + ": " + t) == Return(t)
  {
    var text := username + ": " + t;
    var after := [' '] + t;
    assert text == username + [':'] + after;
    PiecesAt(username, ':', after);
    assert text[|username|] == ':';
    assert !OnlyOf(after, ':') by {
      assert after[0] == ' ';
    }
    assert ':' !in after by {
      forall k | 0 <= k < |after| ensures after[k] != ':' {
        if k > 0 { assert after[k] == t[k - 1]; }
      }
    }
    assert BeforeFirst(after, ':') == after;
    TrimLeadingSpace(' ', t);
  }

  /**
   * A "ban " or "unban " line without ':' from a user whose name has no ':'
   * reaches the server as a BAN or UNBAN whose target is the trimmed rest of
   * the line.
   */
  lemma BanLineRoundTrip(id: int, username: string, line: string)
    requires ':' !in username && ':' !in line
    requires StartsWith(line, "ban ") || StartsWith(line, "unban ")
    ensures var m := Classify(id, username, line).0;
      && m.kind == (if StartsWith(line, "ban ") then Ban else Unban)
      && BanTarget(m.text) == Return(Trim(line[if StartsWith(line, "ban ") then 4 else 6..]))
  {
    ClassifyKinds(id, username, line);
    CommandsDisjoint(line);
    var t := Trim(line[if StartsWith(line, "ban ") then 4 else 6..]);
    TrimKeepsOut(line[if StartsWith(line, "ban ") then 4 else 6..], ':');
    TargetRoundTrip(username, t);
  }

  /**
   * "ban b" and "unban b", for `b` a trimmed name without ':', reach the server
   * as a BAN and an UNBAN of exactly `b`.
   */
  lemma BanWordRoundTrip(id: int, a: string, b: string)
    requires ':' !in a && ':' !in b && IsTrimmed(b)
    ensures var ban := Classify(id, a, "ban " + b).0;
      ban.kind == Ban && BanTarget(ban.text) == Return(b)
    ensures var unban := Classify(id, a, "unban " + b).0;
      unban.kind == Unban && BanTarget(unban.text) == Return(b)
  {
    var banLine, unbanLine := "ban " + b, "unban " + b;
    assert StartsWith(banLine, "ban ") && banLine[4..] == b;
    assert StartsWith(unbanLine, "unban ") && unbanLine[6..] == b;
    assert !StartsWith(unbanLine, "ban ") by {
      assert unbanLine[0] == 'u';
    }
    assert ':' !in banLine && ':' !in unbanLine;
    BanLineRoundTrip(id, a, banLine);
    BanLineRoundTrip(id, a, unbanLine);
  }

  /**
   * End to end: once the server records that `a` bans `b` (`b` a trimmed name
   * without ':'), no session of `a` receives anything `b` types; once it
   * records the unban, `b`'s messages get through again.
   */
  lemma BanCommandBlocksSender(bans: BanMap, a: string, idB: int, b: string, line: string, s: Session)
    requires ':' !in b && IsTrimmed(b)
    requires s.username == Some(a)
    ensures !Receives(s, WithBan(bans, a, b), Classify(idB, b, line).0)
    ensures s.id != idB ==> Receives(s, WithoutBan(WithBan(bans, a, b), a, b), Classify(idB, b, line).0)
  {
    ClientTextHasSender(idB, b, line);
    BanBlocks(bans, a, b, s.username, b);
    UnbanUnblocks(WithBan(bans, a, b), a, b, s.username, b);
  }

  /** A line that starts with 'd' is chat. */
  lemma DLineIsChat(id: int, username: string, line: string)
    requires |line| > 0 && line[0] == 'd'
    ensures Classify(id, username, line).0.kind == Message
    ensures Classify(id, username, line).0.text == username + ": " + line
  {
    ClassifyKinds(id, username, line);
    assert ToLowerAscii(line[0]) == 'd';
    assert !EqualsIgnoreCase(line, "logout") by {
      if |line| == |"logout"| { assert ToLowerAscii("logout"[0]) == 'l'; }
    }
    assert !EqualsIgnoreCase(line, "shutdown") by {
      if |line| == |"shutdown"| { assert ToLowerAscii("shutdown"[0]) == 's'; }
    }
    assert !StartsWith(line, "ban ") by {
      if |line| >= 4 { assert line[..4][0] == 'd'; }
    }
    assert !StartsWith(line, "unban ") by {
      if |line| >= 6 { assert line[..6][0] == 'd'; }
    }
  }

  /**
   * "drop name" typed by a user whose name has no space reaches the server as
   * the drop command for `name`, when `name` is one word.
   */
  lemma DropLineRoundTrip(id: int, username: string, name: string)
    requires ' ' !in username && ' ' !in name && name != ""
    ensures var m := Classify(id, username, "drop " + name).0;
      m.kind == Message && DropCommand(m.text) == Return(Some(name))
  {
    var line := "drop " + name;
    DLineIsChat(id, username, line);
    assert username + ": " + line == (username + ":") + " " + "drop" + " " + name;
    assert ' ' !in username + ":";
    DropCommandWords(username + ":", "drop", name);
  }

  /**
   * "drop" typed alone is chat for the client, but the server looks for a third
   * word that is not there: reading it throws.
   */
  lemma LoneDropThrows(id: int, username: string)
    requires ' ' !in username
    ensures var m := Classify(id, username, "drop").0;
      m.kind == Message && DropCommand(m.text) == Throw(ArrayIndexOutOfBoundsException)
  {
    DLineIsChat(id, username, "drop");
    assert username + ": " + "drop" == (username + ":") + " " + "drop";
    assert ' ' !in username + ":";
    DropWithoutTargetThrows(username + ":", "drop");
  }
}
