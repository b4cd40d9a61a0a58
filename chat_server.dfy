/** The chat server's mutable state — the registry of client handlers, the messages
    sent so far, and the log — and the ChatServer.java operations that update it,
    each proved to have exactly the effect ServerRouting describes. Every operation
    runs atomically here: the threads that run them side by side in the server are
    not modelled. */
module ChatServerModel {
  import opened JavaText
  import opened ServerRouting

  /** One line of the server log: the client's address and the logged text. */
  datatype LogEntry = LogEntry(ip: string, text: string)

  function Entries(h: Handler, lines: seq<string>): seq<LogEntry> {
    seq(|lines|, i requires 0 <= i < |lines| => LogEntry(h.ip, lines[i]))
  }

  /** The `StringBuilder` loop of `broadcastClientList`: the header, then each
      registered address and a newline. */
  method BuildClientList(clients: seq<Handler>) returns (text: string)
    ensures text == ListText(clients)
  {
    text := LIST_HEADER;
    var i := 0;
    while i < |clients|
      invariant 0 <= i <= |clients|
      invariant text == LIST_HEADER + IpLines(clients[..i])
    {
      IpLinesSnoc(clients[..i], clients[i]);
      assert clients[..i + 1] == clients[..i] + [clients[i]];
      text := text + clients[i].ip + "\n";
      i := i + 1;
    }
    assert clients[..i] == clients;
  }

  class ChatServer {
    var clients: seq<Handler>
    var outbox: seq<Message>
    var log: seq<LogEntry>

    ghost predicate Valid()
      reads this
    {
      Distinct(clients)
    }

    constructor ()
      ensures Valid() && clients == [] && outbox == [] && log == []
    {
      clients, outbox, log := [], [], [];
    }

    /** `sendMessage`: one message to one handler. */
    method SendMessage(to: Handler, text: string)
      modifies this`outbox
      ensures outbox == old(outbox) + [Message(to, text)]
    {
      outbox := outbox + [Message(to, text)];
    }

    /** `broadcastMessage`: the stamped text to each registered client in turn. */
    method BroadcastMessage(sender: Handler, text: string, time: string)
      modifies this`outbox
      ensures outbox == old(outbox) + Broadcast(clients, sender, time, text)
    {
      var i := 0;
      while i < |clients|
        invariant 0 <= i <= |clients|
        invariant outbox == old(outbox) + Broadcast(clients[..i], sender, time, text)
      {
        assert Broadcast(clients[..i + 1], sender, time, text)
            == Broadcast(clients[..i], sender, time, text) + [Message(clients[i], Stamp(sender, time) + text)];
        SendMessage(clients[i], Stamp(sender, time) + text);
        i := i + 1;
      }
      assert clients[..i] == clients;
    }

    /** `broadcastClientList`: build the list once, then send it to each registered client. */
    method BroadcastClientList()
      modifies this`outbox
      ensures outbox == old(outbox) + ListBroadcast(clients)
    {
      var text := BuildClientList(clients);
      var i := 0;
      while i < |clients|
        invariant 0 <= i <= |clients|
        invariant outbox == old(outbox) + SendAll(clients[..i], text)
      {
        assert SendAll(clients[..i + 1], text) == SendAll(clients[..i], text) + [Message(clients[i], text)];
        SendMessage(clients[i], text);
        i := i + 1;
      }
      assert clients[..i] == clients;
    }

    /** `sendDirectMessage`: scan the registry in order, deliver to the first client
        with the target address and stop; reply not-found when the scan finds none. */
    method SendDirectMessage(me: Handler, target: string, text: string)
      modifies this`outbox
      ensures outbox == old(outbox) + DirectMessage(clients, me, target, text)
    {
      var i := 0;
      while i < |clients|
        invariant 0 <= i <= |clients|
        invariant outbox == old(outbox)
        invariant forall j :: 0 <= j < i ==> clients[j].ip != target
      {
        if clients[i].ip == target {
          assert IsFirstWithIp(clients, target, i);
          SendMessage(clients[i], DmText(me, text));
          return;
        }
        i := i + 1;
      }
      SendMessage(me, PEER_NOT_FOUND);
    }

    /** The empty-target loop of `sendFile`: the offer text to every registered client
        except the requester, in registry order. */
    method OfferToOthers(me: Handler, text: string)
      modifies this`outbox
      ensures outbox == old(outbox) + SendAll(Others(clients, me), text)
    {
      var i := 0;
      while i < |clients|
        invariant 0 <= i <= |clients|
        invariant outbox == old(outbox) + SendAll(Others(clients[..i], me), text)
      {
        assert clients[..i + 1][..i] == clients[..i];
        assert Others(clients[..i + 1], me)
            == Others(clients[..i], me) + (if clients[i] != me then [clients[i]] else []);
        if clients[i] != me {
          SendAllSnoc(Others(clients[..i], me), clients[i], text);
          SendMessage(clients[i], text);
        }
        i := i + 1;
      }
      assert clients[..i] == clients;
    }

    /** `sendFile`, given what the file system says about the path and the requester's
        input lines after the command: the empty-target loop offers to every other
        client; the targeted loop offers to the first client with the address and then
        reads the answer from the requester's own reader. After a "Y" the source calls
        `client.sendFile` on that client; when it is the requester itself, this is the
        same call again on the lines that follow. */
    method SendFile(me: Handler, target: string, stat: FileStat, answers: seq<string>)
      returns (outcome: Outcome, read: nat)
      modifies this`outbox
      ensures var step := FileOffer(clients, me, target, stat, answers);
        outbox == old(outbox) + step.out && outcome == step.outcome && read == step.read
      decreases |answers|
    {
      if stat.Missing? {
        SendMessage(me, FILE_NOT_FOUND);
        return Continue, 0;
      }
      if target == "" {
        OfferToOthers(me, OpenOfferText(me, stat.name, stat.length));
        return Continue, 0;
      }
      var i := 0;
      while i < |clients|
        invariant 0 <= i <= |clients|
        invariant outbox == old(outbox)
        invariant forall j :: 0 <= j < i ==> clients[j].ip != target
      {
        if clients[i].ip == target {
          assert IsFirstWithIp(clients, target, i);
          var offer := Message(clients[i], OfferText(me, stat.name));
          SendMessage(clients[i], OfferText(me, stat.name));
          if |answers| == 0 {
            return Crashed(NullAnswer), 0;
          }
          if !Accepts(answers[0]) {
            SendMessage(me, RejectText(clients[i]));
            return Continue, 1;
          }
          if clients[i] != me {
            SendMessage(me, TRANSFER_DONE);
            return Continue, 1;
          }
          var innerOutcome, innerRead := SendFile(me, target, stat, answers[1..]);
          ghost var inner := FileOffer(clients, me, target, stat, answers[1..]);
          assert outbox == old(outbox) + [offer] + inner.out;
          if innerOutcome != Continue {
            return innerOutcome, 1 + innerRead;
          }
          SendMessage(me, TRANSFER_DONE);
          return Continue, 1 + innerRead;
        }
        i := i + 1;
      }
      SendMessage(me, PEER_NOT_FOUND);
      return Continue, 0;
    }

    /** `handleCommand`: log the line, then act on the first matching command word. */
    method HandleCommand(me: Handler, command: string, time: string, fs: string -> FileStat,
                         answers: seq<string>)
      returns (outcome: Outcome, read: nat)
      modifies this`outbox, this`log
      ensures log == old(log) + [LogEntry(me.ip, command)]
      ensures var step := Route(clients, me, command, time, fs, answers);
        outbox == old(outbox) + step.out && outcome == step.outcome && read == step.read
    {
      log := log + [LogEntry(me.ip, command)];
      outcome, read := Continue, 0;
      RouteByPrefix(clients, me, command, time, fs, answers);
      if "/chat" <= command {
        if |command| < 6 {
          return Crashed(SubstringOutOfRange), 0;
        }
        BroadcastMessage(me, command[6..], time);
      } else if "/help" <= command {
        SendMessage(me, HELP_TEXT);
      } else if "/exit" <= command {
        SendMessage(me, GOODBYE);
        outcome := Closed;
      } else if "/list" <= command {
        BroadcastClientList();
      } else if "/dm" <= command {
        var parts := SplitLimit(command, ' ', 3);
        if |parts| == 3 {
          SendDirectMessage(me, parts[1], parts[2]);
        } else {
          SendMessage(me, DM_FORMAT_ERROR);
        }
      } else if "/file" <= command {
        var parts := SplitLimit(command, ' ', 3);
        if |parts| == 3 {
          outcome, read := SendFile(me, parts[1], fs(parts[2]), answers);
        } else {
          SendMessage(me, FILE_FORMAT_ERROR);
        }
      } else {
        SendMessage(me, UNKNOWN_COMMAND);
      }
    }

    /** The body of `start`'s accept loop for a new handler `h`: register it, broadcast
        its join notice, log the connection, broadcast the client list. */
    method Connect(h: Handler, time: string)
      requires Valid() && h !in clients
      modifies this
      ensures Valid()
      ensures clients == old(clients) + [h]
      ensures outbox == old(outbox) + Arrival(clients, h, time)
      ensures log == old(log) + [LogEntry(h.ip, CONNECT_LOG)]
    {
      clients := clients + [h];
      ArrivalReachesNewcomer(old(clients), h, time, h);
      BroadcastMessage(h, JoinNotice(h), time);
      log := log + [LogEntry(h.ip, CONNECT_LOG)];
      BroadcastClientList();
    }

    /** The `finally` block of `run`: unregister the handler, then tell the clients that
        remain that it left and send them the new list. */
    method Disconnect(me: Handler, time: string)
      requires Valid()
      modifies this`clients, this`outbox
      ensures Valid()
      ensures clients == RemoveFirst(old(clients), me)
      ensures outbox == old(outbox) + Departure(clients, me, time)
    {
      RemoveFirstDistinct(clients, me);
      clients := RemoveFirst(clients, me);
      BroadcastMessage(me, LeaveNotice(me), time);
      BroadcastClientList();
    }

    /** `run`: dispatch the client's lines until end of stream, `/exit` or an exception,
        a `/file` handshake taking the lines after its command as answers; then clean up. */
    method Run(me: Handler, lines: seq<string>, time: string, fs: string -> FileStat)
      requires Valid()
      modifies this
      ensures Valid()
      ensures clients == RemoveFirst(old(clients), me)
      ensures outbox == old(outbox) + Session(old(clients), me, lines, 0, time, fs).out
                        + Departure(clients, me, time)
      ensures log == old(log) + Entries(me, Session(old(clients), me, lines, 0, time, fs).handled)
    {
      var total := Session(clients, me, lines, 0, time, fs);
      var i := 0;
      var done := false;
      while !done && i < |lines|
        invariant 0 <= i <= |lines|
        invariant clients == old(clients)
        invariant Pending(old(outbox), old(log), total, outbox, log,
                          if done then Trace([], []) else Session(clients, me, lines, i, time, fs), me)
        decreases |lines| - i, if done then 0 else 1
      {
        ghost var before, logBefore := outbox, log;
        var outcome, read := HandleCommand(me, lines[i], time, fs, lines[i + 1..]);
        ghost var out := outbox[|before|..];
        assert outbox == before + out;
        SessionStep(clients, me, lines, i, time, fs);
        if outcome != Continue {
          done := true;
          assert out + [] == out && [lines[i]] + [] == [lines[i]];
          PendingAdvance(old(outbox), old(log), total, before, logBefore, me, lines[i], out, Trace([], []));
        } else {
          var next := i + 1 + read;
          assert next == Resume(clients, me, lines, time, fs, i);
          PendingAdvance(old(outbox), old(log), total, before, logBefore, me, lines[i], out,
                         Session(clients, me, lines, next, time, fs));
          i := next;
        }
      }
      assert outbox + [] == outbox && log + Entries(me, []) == log;
      assert outbox == old(outbox) + total.out;
      assert log == old(log) + Entries(me, total.handled);
      Disconnect(me, time);
    }
  }

  /** What is sent and logged so far, followed by what the rest of the session will
      send and log, is the whole session's output and log. */
  ghost predicate Pending(outbox0: seq<Message>, log0: seq<LogEntry>, total: Trace,
                          outbox: seq<Message>, log: seq<LogEntry>, rest: Trace, me: Handler)
  {
    && outbox0 + total.out == outbox + rest.out
    && log0 + Entries(me, total.handled) == log + Entries(me, rest.handled)
  }

  /** Handling one more line moves its messages and its log entry from the pending
      part of the session to what has been done. */
  lemma PendingAdvance(outbox0: seq<Message>, log0: seq<LogEntry>, total: Trace,
                       outbox: seq<Message>, log: seq<LogEntry>, me: Handler, line: string,
                       out: seq<Message>, after: Trace)
    requires Pending(outbox0, log0, total, outbox, log, Trace(out + after.out, [line] + after.handled), me)
    ensures Pending(outbox0, log0, total, outbox + out, log + [LogEntry(me.ip, line)], after, me)
  {
    assert Entries(me, [line] + after.handled) == [LogEntry(me.ip, line)] + Entries(me, after.handled);
  }
}
