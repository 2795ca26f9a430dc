/**
 * ChatClientImpl: the console loop of main(), which turns each typed line into
 * one ChatMessage for the server, and the loop of ChatClientListener, which
 * shows what the server sends, learns the client id from the first message and
 * stops on SHUTDOWN or LOGOUT.
 */
module Client {
  import opened JavaLang
  import opened Protocol

  // ---------------------------------------------------------------------------
  // Classifying a typed line
  // ---------------------------------------------------------------------------

  /** The lines that end the console loop: "logout" and "shutdown", ignoring case. */
  predicate StopsConsole(line: string) {
    EqualsIgnoreCase(line, "logout") || EqualsIgnoreCase(line, "shutdown")
  }

  /**
   * The message the console loop of user `username`, with client id `id`, sends
   * for one typed line, and whether the loop goes on afterwards. Every text
   * starts with "username: ", which is where the server reads the sender name.
   */
  function Classify(id: int, username: string, line: string): (r: (ChatMessage, bool))
    ensures r.0.id == id
    ensures StartsWith(r.0.text, username + ": ")
    ensures !r.1 <==> StopsConsole(line)
  {
    if EqualsIgnoreCase(line, "logout") then (ChatMessage(id, Logout, username + ": " + line), false)
    else if EqualsIgnoreCase(line, "shutdown") then (ChatMessage(id, Shutdown, username + ": " + line), false)
    else if StartsWith(line, "ban ") then (ChatMessage(id, Ban, username + ": " + Trim(line[4..])), true)
    else if StartsWith(line, "unban ") then (ChatMessage(id, Unban, username + ": " + Trim(line[6..])), true)
    else (ChatMessage(id, Message, username + ": " + line), true)
  }

  /** The five kinds of line exclude one another, so the order of the tests does not matter. */
  lemma CommandsDisjoint(line: string)
    ensures !(EqualsIgnoreCase(line, "logout") && EqualsIgnoreCase(line, "shutdown"))
    ensures StartsWith(line, "ban ") ==> !StopsConsole(line) && !StartsWith(line, "unban ")
    ensures StartsWith(line, "unban ") ==> !StopsConsole(line)
  {
    if StartsWith(line, "ban ") {
      assert line[0] == "ban "[0];
      assert ToLowerAscii(line[0]) == 'b';
    }
    if StartsWith(line, "unban ") {
      assert line[0] == "unban "[0];
      assert ToLowerAscii(line[0]) == 'u';
    }
  }

  /**
   * Each kind of message comes from exactly one kind of line: LOGOUT and
   * SHUTDOWN from those words in any case, BAN and UNBAN from the case-sensitive
   * prefixes "ban " and "unban ", carrying the trimmed rest of the line as the
   * target; every other line is chat and travels unchanged.
   */
  lemma ClassifyKinds(id: int, username: string, line: string)
    ensures var m := Classify(id, username, line).0;
      && (m.kind == Logout <==> EqualsIgnoreCase(line, "logout"))
      && (m.kind == Shutdown <==> EqualsIgnoreCase(line, "shutdown"))
      && (m.kind == Ban <==> StartsWith(line, "ban "))
      && (m.kind == Unban <==> StartsWith(line, "unban "))
      && (m.kind == Ban ==> m.text == username + ": " + Trim(line[4..]))
      && (m.kind == Unban ==> m.text == username + ": " + Trim(line[6..]))
      && (m.kind in {Message, Logout, Shutdown} ==> m.text == username + ": " + line)
  {
    CommandsDisjoint(line);
  }

  /** The messages the console loop sends for `lines`, when none of them stops it. */
  function Transcript(id: int, username: string, lines: seq<string>): (r: seq<ChatMessage>)
    ensures |r| == |lines|
  {
    if lines == [] then []
    else Transcript(id, username, lines[..|lines| - 1]) + [Classify(id, username, lines[|lines| - 1]).0]
  }

  /** The transcript holds, in order, the message of each line. */
  lemma TranscriptSpec(id: int, username: string, lines: seq<string>)
    ensures forall j :: 0 <= j < |lines| ==> Transcript(id, username, lines)[j] == Classify(id, username, lines[j]).0
  {
    forall j | 0 <= j < |lines| ensures Transcript(id, username, lines)[j] == Classify(id, username, lines[j]).0 {
      TranscriptAt(id, username, lines, j);
    }
  }

  /** The `j`-th message of the transcript is the message of the `j`-th line. */
  lemma {:induction false} TranscriptAt(id: int, username: string, lines: seq<string>, j: int)
    requires 0 <= j < |lines|
    ensures Transcript(id, username, lines)[j] == Classify(id, username, lines[j]).0
  {
    var init := lines[..|lines| - 1];
    var before := Transcript(id, username, init);
    var last := Classify(id, username, lines[|lines| - 1]).0;
    assert Transcript(id, username, lines) == before + [last];
    if j < |init| {
      TranscriptAt(id, username, init, j);
      assert init[j] == lines[j];
      assert (before + [last])[j] == before[j];
    } else {
      assert (before + [last])[j] == last;
    }
  }

  /** The transcript of one more line ends with that line's message. */
  lemma TranscriptStep(id: int, username: string, lines: seq<string>, i: int)
    requires 0 <= i < |lines|
    ensures Transcript(id, username, lines[..i + 1])
         == Transcript(id, username, lines[..i]) + [Classify(id, username, lines[i]).0]
  {
    assert lines[..i + 1][..i] == lines[..i];
  }

  /**
   * How many elements of `xs` a loop handles when it stops right after the first
   * element satisfying `stop`: up to and including that element, or all of them.
   */
  function HandledUntil<T>(xs: seq<T>, stop: T -> bool): (r: nat)
    ensures r <= |xs|
  {
    if xs == [] then 0 else if stop(xs[0]) then 1 else 1 + HandledUntil(xs[1..], stop)
  }

  /** HandledUntil ends at the first element satisfying `stop`, and no earlier. */
  lemma {:induction false} HandledUntilSpec<T>(xs: seq<T>, stop: T -> bool)
    ensures forall j :: 0 <= j < HandledUntil(xs, stop) - 1 ==> !stop(xs[j])
    ensures HandledUntil(xs, stop) < |xs| ==> HandledUntil(xs, stop) > 0 && stop(xs[HandledUntil(xs, stop) - 1])
    ensures (forall j :: 0 <= j < |xs| ==> !stop(xs[j])) ==> HandledUntil(xs, stop) == |xs|
  {
    if xs != [] && !stop(xs[0]) {
      HandledUntilSpec(xs[1..], stop);
      forall j | 1 <= j < HandledUntil(xs, stop) - 1 ensures !stop(xs[j]) {
        assert xs[j] == xs[1..][j - 1];
      }
      if HandledUntil(xs, stop) < |xs| {
        assert xs[HandledUntil(xs, stop) - 1] == xs[1..][HandledUntil(xs[1..], stop) - 1];
      }
    }
  }

  /**
   * The loop handling elements up to HandledUntil, one step: from a position
   * before the end, the next element either ends it there or the end lies
   * further on (or is the end of `xs`).
   */
  lemma {:induction false} HandledUntilNext<T>(xs: seq<T>, stop: T -> bool, i: nat)
    requires i < HandledUntil(xs, stop)
    ensures stop(xs[i]) ==> HandledUntil(xs, stop) == i + 1
    ensures !stop(xs[i]) ==> i + 1 < HandledUntil(xs, stop) || i + 1 == HandledUntil(xs, stop) == |xs|
  {
    if i > 0 {
      HandledUntilNext(xs[1..], stop, i - 1);
      assert xs[1..][i - 1] == xs[i];
    }
  }

  /** A loop that ran to the end without stopping on its last element stopped on none. */
  lemma HandledUntilAll<T>(xs: seq<T>, stop: T -> bool)
    requires HandledUntil(xs, stop) == |xs| && (xs == [] || !stop(xs[|xs| - 1]))
    ensures forall j :: 0 <= j < |xs| ==> !stop(xs[j])
  {
    HandledUntilSpec(xs, stop);
  }

  /** The messages the listener has shown, one text per message. */
  function Texts(ms: seq<ChatMessage>): (r: seq<string>)
    ensures |r| == |ms|
  {
    seq(|ms|, j requires 0 <= j < |ms| => ms[j].text)
  }

  /** The messages that end the listener loop. */
  predicate StopsListener(m: ChatMessage) {
    m.kind == Shutdown || m.kind == Logout
  }

  // ---------------------------------------------------------------------------
  // The client object
  // ---------------------------------------------------------------------------

  class ChatClient {
    /** The name given on the command line, sent to register and prefixed to every text. */
    const username: string
    /** The id learnt from the first message of the server; 0 until then. */
    var id: int
    /** Cleared when the user logs out or shuts down, or the server ends the session. */
    var carryOn: bool
    /** The listener has not yet received its first message. */
    var primero: bool
    /** disconnect() has closed the streams: later writes fail and are lost. */
    var closed: bool
    /** The messages written to the server, in order. */
    var sent: seq<ChatMessage>
    /** The texts the listener has shown on the console, in order. */
    var shown: seq<string>

    constructor (username: string)
      ensures this.username == username
      ensures id == 0 && carryOn && primero && !closed && sent == [] && shown == []
    {
      this.username := username;
      id := 0;
      carryOn := true;
      primero := true;
      closed := false;
      sent := [];
      shown := [];
    }

    /** sendMessage: a write to closed streams throws an IOException, which is caught and the message is lost. */
    method SendMessage(m: ChatMessage)
      modifies this`sent
      ensures sent == old(sent) + (if closed then [] else [m])
    {
      if !closed {
        sent := sent + [m];
      }
    }

    /** The first message of main(): the user name, as a MESSAGE carrying the current id. */
    method Register()
      modifies this`sent
      ensures sent == old(sent) + (if closed then [] else [ChatMessage(id, Message, username)])
    {
      SendMessage(ChatMessage(id, Message, username));
    }

    /** One turn of the console loop for a typed line: send its message, stop after logout or shutdown. */
    method ConsoleLine(line: string)
      modifies this`sent, this`carryOn
      ensures sent == old(sent) + (if closed then [] else [Classify(id, username, line).0])
      ensures carryOn == (old(carryOn) && !StopsConsole(line))
    {
      if EqualsIgnoreCase(line, "logout") {
        SendMessage(ChatMessage(id, Logout, username + ": " + line));
        carryOn := false;
      } else if EqualsIgnoreCase(line, "shutdown") {
        SendMessage(ChatMessage(id, Shutdown, username + ": " + line));
        carryOn := false;
      } else if StartsWith(line, "ban ") {
        var userToBan := Trim(line[4..]);
        SendMessage(ChatMessage(id, Ban, username + ": " + userToBan));
      } else if StartsWith(line, "unban ") {
        var userToUnban := Trim(line[6..]);
        SendMessage(ChatMessage(id, Unban, username + ": " + userToUnban));
      } else {
        SendMessage(ChatMessage(id, Message, username + ": " + line));
      }
    }

    /**
     * The console loop of main() over the lines typed, in order. Each turn reads
     * a line first and only then tests carryOn, so the line read after the loop
     * has been stopped is consumed and ignored. `read` is the number of lines
     * consumed.
     */
    method Console(lines: seq<string>) returns (read: nat)
      modifies this`sent, this`carryOn
      ensures var n := if old(carryOn) then HandledUntil(lines, StopsConsole) else 0;
        && sent == old(sent) + (if closed then [] else Transcript(id, username, lines[..n]))
        && carryOn == (old(carryOn) && forall j :: 0 <= j < n ==> !StopsConsole(lines[j]))
        && read == if carryOn then |lines| else if n < |lines| then n + 1 else |lines|
    {
      ghost var start, before := carryOn, sent;
      ghost var n := if carryOn then HandledUntil(lines, StopsConsole) else 0;
      read := 0;
      while read < |lines|
        invariant 0 <= read <= n <= |lines|
        invariant !start ==> read == 0 && !carryOn
        invariant carryOn ==> start && (read < n || read == n == |lines|)
        invariant carryOn && read > 0 ==> !StopsConsole(lines[read - 1])
        invariant start && !carryOn ==> read == n && read > 0 && StopsConsole(lines[read - 1])
        invariant closed ==> sent == before
        invariant !closed ==> sent == before + Transcript(id, username, lines[..read])
      {
        var line := lines[read];
        read := read + 1;
        if !carryOn {
          break;
        }
        HandledUntilNext(lines, StopsConsole, read - 1);
        TranscriptStep(id, username, lines, read - 1);
        assert line == lines[read - 1];
        ConsoleLine(line);
      }
      if carryOn {
        HandledUntilAll(lines, StopsConsole);
      }
    }

    /** disconnect(): close the streams and stop. */
    method Disconnect()
      modifies this`closed, this`carryOn
      ensures closed && !carryOn
    {
      closed := true;
      carryOn := false;
    }

    /**
     * One turn of the listener loop: show the message; the first one gives the
     * client its id; SHUTDOWN or LOGOUT stops the client and disconnects it.
     */
    method OnMessage(line: ChatMessage)
      modifies this`id, this`primero, this`carryOn, this`closed, this`shown
      ensures shown == old(shown) + [line.text]
      ensures id == (if old(primero) then line.id else old(id)) && !primero
      ensures carryOn == (old(carryOn) && !StopsListener(line))
      ensures closed == (old(closed) || StopsListener(line))
    {
      shown := shown + [line.text];
      if primero {
        id := line.id;
        primero := false;
      }
      if line.kind == Shutdown || line.kind == Logout {
        carryOn := false;
        Disconnect();
      }
    }

    /**
     * The listener loop over the messages the server sends, in order, while
     * carryOn holds; `read` is how many it takes in. Afterwards the first of them
     * has set the id, each has been shown, and a SHUTDOWN or LOGOUT among them
     * has stopped and disconnected the client.
     */
    method Listen(incoming: seq<ChatMessage>) returns (read: nat)
      modifies this`id, this`primero, this`carryOn, this`closed, this`shown
      ensures read == if old(carryOn) then HandledUntil(incoming, StopsListener) else 0
      ensures shown == old(shown) + Texts(incoming[..read])
      ensures id == (if old(primero) && read > 0 then incoming[0].id else old(id))
      ensures primero == (old(primero) && read == 0)
      ensures carryOn == (old(carryOn) && forall j :: 0 <= j < read ==> !StopsListener(incoming[j]))
      ensures closed == (old(closed) || (old(carryOn) && !carryOn))
    {
      ghost var start := carryOn;
      ghost var n := if carryOn then HandledUntil(incoming, StopsListener) else 0;
      read := 0;
      while carryOn && read < |incoming|
        invariant 0 <= read <= n <= |incoming|
        invariant !start ==> read == 0 && !carryOn
        invariant carryOn ==> start && (read < n || read == n == |incoming|)
        invariant carryOn && read > 0 ==> !StopsListener(incoming[read - 1])
        invariant start && !carryOn ==> read == n && read > 0 && StopsListener(incoming[read - 1])
        invariant shown == old(shown) + Texts(incoming[..read])
        invariant id == (if old(primero) && read > 0 then incoming[0].id else old(id))
        invariant primero == (old(primero) && read == 0)
        invariant closed == (old(closed) || (start && !carryOn))
      {
        var line := incoming[read];
        HandledUntilNext(incoming, StopsListener, read);
        OnMessage(line);
        read := read + 1;
        assert Texts(incoming[..read]) == Texts(incoming[..read - 1]) + [line.text];
      }
      if carryOn {
        HandledUntilAll(incoming, StopsListener);
      }
    }
  }
}
