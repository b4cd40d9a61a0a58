/** What the chat server sends, to whom, when a client connects, sends one command
    line, or leaves: ChatServer.java's routing stated over values. A message is a
    (recipient, text) pair; a registry is the server's ordered list of client handlers.
    The imperative handler in ChatServerModel is proved to append exactly these
    messages to its outbox. */
module ServerRouting {
  import opened JavaText

  /** One connected client's handler. Its identity is the object itself; `ip` is the
      remote address, which two handlers may share. */
  class Handler {
    const ip: string

    constructor (ip: string)
      ensures this.ip == ip
    {
      this.ip := ip;
    }
  }

  datatype Message = Message(to: Handler, text: string)

  /** The registry never holds the same handler twice. */
  predicate Distinct(clients: seq<Handler>) {
    forall i, j :: 0 <= i < j < |clients| ==> clients[i] != clients[j]
  }

  // ---------------------------------------------------------------- observing an outbox

  /** The texts delivered to `h`, in the order they were sent. */
  function Inbox(out: seq<Message>, h: Handler): seq<string> {
    if |out| == 0 then []
    else Inbox(out[..|out| - 1], h) + (if out[|out| - 1].to == h then [out[|out| - 1].text] else [])
  }

  /** The recipient of each message, in sending order. */
  function Recipients(out: seq<Message>): seq<Handler> {
    seq(|out|, i requires 0 <= i < |out| => out[i].to)
  }

  lemma {:induction false} InboxAppend(a: seq<Message>, b: seq<Message>, h: Handler)
    ensures Inbox(a + b, h) == Inbox(a, h) + Inbox(b, h)
    decreases |b|
  {
    if |b| == 0 {
      assert a + b == a;
    } else {
      assert (a + b)[..|a + b| - 1] == a + b[..|b| - 1];
      InboxAppend(a, b[..|b| - 1], h);
    }
  }

  /** A handler that no message is addressed to receives nothing. */
  lemma {:induction false} InboxOfOthers(out: seq<Message>, h: Handler)
    requires forall k :: 0 <= k < |out| ==> out[k].to != h
    ensures Inbox(out, h) == []
    decreases |out|
  {
    if |out| > 0 {
      InboxOfOthers(out[..|out| - 1], h);
    }
  }

  /** The recipients of two batches sent one after the other. */
  lemma RecipientsAppend(a: seq<Message>, b: seq<Message>)
    ensures Recipients(a + b) == Recipients(a) + Recipients(b)
  {
    assert forall k :: 0 <= k < |b| ==> (a + b)[|a| + k] == b[k];
  }

  /** One message carrying `text` to each of `recipients`, in their order. */
  function SendAll(recipients: seq<Handler>, text: string): seq<Message> {
    seq(|recipients|, i requires 0 <= i < |recipients| => Message(recipients[i], text))
  }

  /** Sending to one more recipient appends one message. */
  lemma SendAllSnoc(rs: seq<Handler>, h: Handler, text: string)
    ensures SendAll(rs + [h], text) == SendAll(rs, text) + [Message(h, text)]
  {
  }

  /** Sending to distinct recipients delivers the text exactly once to each of them
      and to nobody else, in the recipients' order. */
  lemma {:induction false} InboxSendAll(rs: seq<Handler>, text: string, h: Handler)
    requires Distinct(rs)
    ensures Recipients(SendAll(rs, text)) == rs
    ensures Inbox(SendAll(rs, text), h) == if h in rs then [text] else []
    decreases |rs|
  {
    var out := SendAll(rs, text);
    assert Recipients(out) == rs;
    if |rs| > 0 {
      var init := rs[..|rs| - 1];
      var last := rs[|rs| - 1];
      assert out[..|out| - 1] == SendAll(init, text);
      assert out[|out| - 1] == Message(last, text);
      assert Distinct(init);
      InboxSendAll(init, text, h);
      assert Inbox(out, h) == Inbox(SendAll(init, text), h) + (if last == h then [text] else []);
      assert h in rs <==> h in init || h == last;
      if h == last {
        assert h !in init;
      }
    }
  }

  // ---------------------------------------------------------------- broadcasts

  /** The prefix every broadcast carries: the sender's address and the time. */
  function Stamp(sender: Handler, time: string): string {
    "[" + sender.ip + "] [" + time + "] "
  }

  /** `broadcastMessage`: the stamped text to every registered client, the sender included. */
  function Broadcast(clients: seq<Handler>, sender: Handler, time: string, text: string): (r: seq<Message>)
    ensures Recipients(r) == clients
    ensures forall k :: 0 <= k < |r| ==> r[k].text == Stamp(sender, time) + text
  {
    SendAll(clients, Stamp(sender, time) + text)
  }

  /** A broadcast reaches every registered client exactly once, in registry order,
      and nobody outside the registry. */
  lemma BroadcastReachesEachOnce(clients: seq<Handler>, sender: Handler, time: string, text: string, h: Handler)
    requires Distinct(clients)
    ensures Recipients(Broadcast(clients, sender, time, text)) == clients
    ensures Inbox(Broadcast(clients, sender, time, text), h)
         == if h in clients then [Stamp(sender, time) + text] else []
  {
    InboxSendAll(clients, Stamp(sender, time) + text, h);
  }

  const LIST_TITLE: string := "현재 온라인 클라이언트 목록:"
  const LIST_HEADER: string := LIST_TITLE + "\n"

  /** Each registered address followed by a newline, in registry order. */
  function IpLines(clients: seq<Handler>): string {
    if |clients| == 0 then "" else clients[0].ip + "\n" + IpLines(clients[1..])
  }

  /** The one client-list string `broadcastClientList` builds. */
  function ListText(clients: seq<Handler>): string {
    LIST_HEADER + IpLines(clients)
  }

  /** `broadcastClientList`: that same string to every registered client. */
  function ListBroadcast(clients: seq<Handler>): (r: seq<Message>)
    ensures Recipients(r) == clients
    ensures forall k :: 0 <= k < |r| ==> r[k].text == ListText(clients)
  {
    SendAll(clients, ListText(clients))
  }

  function Ips(clients: seq<Handler>): seq<string> {
    seq(|clients|, i requires 0 <= i < |clients| => clients[i].ip)
  }

  /** Appending one more client appends its address line. */
  lemma {:induction false} IpLinesSnoc(clients: seq<Handler>, c: Handler)
    ensures IpLines(clients + [c]) == IpLines(clients) + c.ip + "\n"
    decreases |clients|
  {
    if |clients| == 0 {
      assert [c][1..] == [];
    } else {
      assert (clients + [c])[1..] == clients[1..] + [c];
      IpLinesSnoc(clients[1..], c);
    }
  }

  /** The address lines are the addresses joined by newlines, with a final newline. */
  lemma {:induction false} IpLinesJoin(clients: seq<Handler>)
    ensures IpLines(clients) == Join(Ips(clients) + [""], '\n')
    decreases |clients|
  {
    if |clients| > 0 {
      IpLinesJoin(clients[1..]);
      assert Ips(clients) + [""] == [clients[0].ip] + (Ips(clients[1..]) + [""]);
      JoinCons(clients[0].ip, Ips(clients[1..]) + [""], '\n');
    }
  }

  /** Read back line by line, the client list is the title, then each registered
      address in registry order, then nothing after the last newline. */
  lemma ClientListLines(clients: seq<Handler>)
    requires forall i :: 0 <= i < |clients| ==> '\n' !in clients[i].ip
    ensures Fields(ListText(clients), '\n') == [LIST_TITLE] + Ips(clients) + [""]
  {
    IpLinesJoin(clients);
    var fs := [LIST_TITLE] + Ips(clients) + [""];
    assert fs == [LIST_TITLE] + (Ips(clients) + [""]);
    JoinCons(LIST_TITLE, Ips(clients) + [""], '\n');
    assert '\n' !in LIST_TITLE;
    forall k | 0 <= k < |fs| ensures '\n' !in fs[k] {
      if 0 < k < |fs| - 1 { assert fs[k] == clients[k - 1].ip; }
    }
    FieldsOfJoin(fs, '\n');
  }

  // ---------------------------------------------------------------- direct messages

  /** Some registered client has address `ip`. */
  predicate HasIp(clients: seq<Handler>, ip: string) {
    exists i :: 0 <= i < |clients| && clients[i].ip == ip
  }

  /** `i` is the first registry position whose address is `ip`. */
  predicate IsFirstWithIp(clients: seq<Handler>, ip: string, i: int) {
    0 <= i < |clients| && clients[i].ip == ip && forall j :: 0 <= j < i ==> clients[j].ip != ip
  }

  /** The scan of `sendDirectMessage` and `sendFile`: the first client, in registry
      order, whose address equals `ip`. */
  function FirstWithIp(clients: seq<Handler>, ip: string): (r: Option<nat>)
    ensures r.Some? ==> IsFirstWithIp(clients, ip, r.value)
    ensures r.None? <==> !HasIp(clients, ip)
  {
    if |clients| == 0 then None
    else if clients[0].ip == ip then Some(0)
    else
      match FirstWithIp(clients[1..], ip)
      case None =>
        assert forall i :: 0 < i < |clients| ==> clients[i] == clients[1..][i - 1];
        None
      case Some(i) => Some(i + 1)
  }

  const PEER_NOT_FOUND: string := "해당 IP 주소를 가진 클라이언트를 찾을 수 없습니다."

  function DmText(sender: Handler, text: string): string {
    "[DM from " + sender.ip + "]: " + text
  }

  /** `sendDirectMessage`: one message, either to the first client with the target
      address or, when there is none, a not-found reply to the sender. */
  function DirectMessage(clients: seq<Handler>, sender: Handler, target: string, text: string): (out: seq<Message>)
    ensures HasIp(clients, target) ==>
      exists i :: IsFirstWithIp(clients, target, i) && out == [Message(clients[i], DmText(sender, text))]
    ensures !HasIp(clients, target) ==> out == [Message(sender, PEER_NOT_FOUND)]
  {
    match FirstWithIp(clients, target)
    case Some(i) => [Message(clients[i], DmText(sender, text))]
    case None => [Message(sender, PEER_NOT_FOUND)]
  }

  // ---------------------------------------------------------------- file offers

  /** What the file system says about the path of a `/file` command: `File.exists()`
      and `File.isFile()` both hold (then `getName()` and `length()`), or not. */
  datatype FileStat = Missing | Regular(name: string, length: nat)

  /** Why a handler's command ends its session with an uncaught exception. */
  datatype Fault =
    | SubstringOutOfRange   // `command.substring(6)` on "/chat"
    | NullAnswer            // `readLine()` returned null where a handshake answer was expected

  /** How a command leaves the session: still reading, closed by `/exit`, or ended by
      an uncaught exception. The last two both run the session's cleanup. */
  datatype Outcome = Continue | Closed | Crashed(fault: Fault)

  /** The effect of one command line: the messages it sends, in order, and how many of
      the session's following input lines it took as handshake answers. */
  datatype Step = Step(outcome: Outcome, out: seq<Message>, read: nat)

  const FILE_NOT_FOUND: string := "파일을 찾을 수 없습니다."
  const TRANSFER_DONE: string := "[Server] 파일 전송이 완료되었습니다."

  function OpenOfferText(sender: Handler, name: string, length: nat): string {
    "[파일 전송 요청] " + sender.ip + "," + name + "," + NatToDecimal(length) + "을 받으시겠습니까? (Y/N)"
  }

  function OfferText(sender: Handler, name: string): string {
    "[파일 전송 요청] " + sender.ip + "에서 " + name + "을 받으시겠습니까? (Y/N)"
  }

  function RejectText(target: Handler): string {
    "[Server] " + target.ip + "님이 파일 전송을 거부했습니다."
  }

  /** `answer.equalsIgnoreCase("Y")`: the answer is the single letter Y, in either case. */
  predicate Accepts(answer: string): (r: bool)
    ensures r <==> |answer| == 1 && (answer[0] == 'Y' || answer[0] == 'y')
  {
    answer == "Y" || answer == "y"
  }

  /** The registered clients other than `me`, in registry order. */
  function Others(clients: seq<Handler>, me: Handler): (r: seq<Handler>)
    ensures |r| <= |clients| && me !in r
    ensures forall h :: h in r ==> h in clients
  {
    if |clients| == 0 then []
    else
      var last := clients[|clients| - 1];
      Others(clients[..|clients| - 1], me) + (if last != me then [last] else [])
  }

  /** Leaving `me` out keeps exactly the other clients, each still once. */
  lemma {:induction false} OthersMembers(clients: seq<Handler>, me: Handler)
    requires Distinct(clients)
    ensures Distinct(Others(clients, me))
    ensures forall h :: h in Others(clients, me) <==> h in clients && h != me
    decreases |clients|
  {
    if |clients| > 0 {
      var init := clients[..|clients| - 1];
      var last := clients[|clients| - 1];
      OthersMembers(init, me);
      assert forall h :: h in clients <==> h in init || h == last;
      assert last !in init;
    }
  }

  /** `sendFile`: the file check, then the broadcast offer for an empty target, else the
      targeted offer, answered by the requester's following input lines `answers`
      (its own reader, ChatServer.java:189). When the first client with the address is
      the requester itself, a "Y" runs `sendFile` again on the same handler, which
      offers again and reads the next line; the completion notice follows only after
      that inner call returns. */
  function FileOffer(clients: seq<Handler>, sender: Handler, target: string, stat: FileStat,
                    answers: seq<string>): (r: Step)
    ensures r.read <= |answers|
    ensures stat.Missing? ==> r == Step(Continue, [Message(sender, FILE_NOT_FOUND)], 0)
    ensures stat.Regular? && target != "" && !HasIp(clients, target)
      ==> r == Step(Continue, [Message(sender, PEER_NOT_FOUND)], 0)
    ensures r.read > 0 ==> stat.Regular? && target != "" && HasIp(clients, target)
    ensures r.outcome != Continue ==> r.outcome == Crashed(NullAnswer) && r.read == |answers|
    decreases |answers|
  {
    if stat.Missing? then Step(Continue, [Message(sender, FILE_NOT_FOUND)], 0)
    else if target == "" then
      Step(Continue, SendAll(Others(clients, sender), OpenOfferText(sender, stat.name, stat.length)), 0)
    else
      match FirstWithIp(clients, target)
      case None => Step(Continue, [Message(sender, PEER_NOT_FOUND)], 0)
      case Some(i) =>
        var offer := Message(clients[i], OfferText(sender, stat.name));
        if |answers| == 0 then Step(Crashed(NullAnswer), [offer], 0)
        else if !Accepts(answers[0]) then Step(Continue, [offer, Message(sender, RejectText(clients[i]))], 1)
        else if clients[i] != sender then Step(Continue, [offer, Message(sender, TRANSFER_DONE)], 1)
        else
          var inner := FileOffer(clients, sender, target, stat, answers[1..]);
          if inner.outcome != Continue then Step(inner.outcome, [offer] + inner.out, 1 + inner.read)
          else Step(Continue, [offer] + inner.out + [Message(sender, TRANSFER_DONE)], 1 + inner.read)
  }

  /** An empty target offers the file exactly once to every registered client except
      the requester, and the requester hears nothing. */
  lemma OpenOfferReachesOthers(clients: seq<Handler>, sender: Handler, stat: FileStat,
                               answers: seq<string>, h: Handler)
    requires Distinct(clients) && stat.Regular?
    ensures var step := FileOffer(clients, sender, "", stat, answers);
      && step.outcome == Continue && step.read == 0
      && Inbox(step.out, h) == if h in clients && h != sender
                               then [OpenOfferText(sender, stat.name, stat.length)] else []
  {
    OthersMembers(clients, sender);
    InboxSendAll(Others(clients, sender), OpenOfferText(sender, stat.name, stat.length), h);
  }

  /** With an existing file and a registered target, the first client with that address
      gets the offer and the first answer line is read. When that client is someone
      else, or the answer is not "Y"/"y", nothing more is read and the requester gets
      one reply: completion for "Y"/"y", otherwise a rejection naming the target's
      address. */
  lemma TargetedOfferAnswers(clients: seq<Handler>, sender: Handler, target: string, stat: FileStat,
                             answer: string, later: seq<string>)
    requires stat.Regular? && target != "" && HasIp(clients, target)
    ensures var step := FileOffer(clients, sender, target, stat, [answer] + later);
      exists i :: IsFirstWithIp(clients, target, i)
        && step.read >= 1 && |step.out| >= 1
        && step.out[0] == Message(clients[i], OfferText(sender, stat.name))
        && (clients[i] != sender || !Accepts(answer) ==>
              step == Step(Continue, [Message(clients[i], OfferText(sender, stat.name)),
                                      Message(sender, if Accepts(answer) then TRANSFER_DONE else RejectText(clients[i]))], 1))
  {
    var i := FirstWithIp(clients, target).value;
    assert ([answer] + later)[0] == answer;
    assert IsFirstWithIp(clients, target, i);
  }

  /** `n` copies of one message. */
  function Copies(m: Message, n: nat): (r: seq<Message>)
    ensures |r| == n && forall k :: 0 <= k < n ==> r[k] == m
  {
    seq(n, _ => m)
  }

  /** The offer a requester makes to itself: after `n` answers of "Y"/"y" it has been
      offered the file `n + 1` times; a further answer that is not "Y"/"y" gets the
      rejection and then one completion notice for each accepting level, innermost
      first, while running out of lines instead ends the session with the null-answer
      fault after the offers. */
  lemma {:induction false} SelfOfferChain(clients: seq<Handler>, sender: Handler, target: string,
                                          stat: FileStat, answers: seq<string>, i: nat, n: nat)
    requires stat.Regular? && target != "" && IsFirstWithIp(clients, target, i) && clients[i] == sender
    requires n <= |answers| && forall k :: 0 <= k < n ==> Accepts(answers[k])
    requires n < |answers| ==> !Accepts(answers[n])
    ensures var offer := Message(sender, OfferText(sender, stat.name));
      FileOffer(clients, sender, target, stat, answers)
        == if n == |answers| then Step(Crashed(NullAnswer), Copies(offer, n + 1), n)
           else Step(Continue, Copies(offer, n + 1) + [Message(sender, RejectText(sender))]
                               + Copies(Message(sender, TRANSFER_DONE), n), n + 1)
    decreases n
  {
    var offer := Message(sender, OfferText(sender, stat.name));
    assert FirstWithIp(clients, target) == Some(i) by {
      var j := FirstWithIp(clients, target).value;
      assert IsFirstWithIp(clients, target, j);
    }
    if n > 0 {
      var tail := answers[1..];
      assert forall k :: 0 <= k < n - 1 ==> tail[k] == answers[k + 1];
      assert n - 1 < |tail| ==> tail[n - 1] == answers[n];
      SelfOfferChain(clients, sender, target, stat, tail, i, n - 1);
      var done := Message(sender, TRANSFER_DONE);
      assert [offer] + Copies(offer, n) == Copies(offer, n + 1);
      if n < |answers| {
        assert Copies(done, n - 1) + [done] == Copies(done, n);
        assert [offer] + (Copies(offer, n) + [Message(sender, RejectText(sender))] + Copies(done, n - 1)) + [done]
            == Copies(offer, n + 1) + [Message(sender, RejectText(sender))] + Copies(done, n);
      }
    } else if n < |answers| {
      assert Copies(Message(sender, TRANSFER_DONE), 0) == [];
      assert Copies(offer, 1) == [offer];
    } else {
      assert Copies(offer, 1) == [offer];
    }
  }

  /** A client at address "a", alone in the registry, sends `/file a f` and then "Y",
      "Y" and `/exit` as answers: the file is offered to it three times, `/exit` counts
      as a refusal, and the two accepting levels each send their completion notice. */
  lemma SelfTargetOffer(me: Handler)
    requires me.ip == "a"
    ensures var offer := Message(me, OfferText(me, "f"));
      var done := Message(me, TRANSFER_DONE);
      FileOffer([me], me, "a", Regular("f", 3), ["Y", "Y", "/exit"])
        == Step(Continue, [offer, offer, offer, Message(me, RejectText(me)), done, done], 3)
  {
    var answers := ["Y", "Y", "/exit"];
    assert Accepts(answers[0]) && Accepts(answers[1]) && !Accepts(answers[2]);
    assert IsFirstWithIp([me], "a", 0);
    SelfOfferChain([me], me, "a", Regular("f", 3), answers, 0, 2);
    var offer := Message(me, OfferText(me, "f"));
    var done := Message(me, TRANSFER_DONE);
    assert Copies(offer, 3) == [offer, offer, offer];
    assert Copies(done, 2) == [done, done];
  }

  /** The session of that client: its three following lines are all taken as answers,
      so only `/file a f` is dispatched, and `/exit` never sends its goodbye. */
  lemma SelfTargetSession(me: Handler, time: string, fs: string -> FileStat)
    requires me.ip == "a" && fs("f") == Regular("f", 3)
    ensures var t := Session([me], me, ["/file a f", "Y", "Y", "/exit"], 0, time, fs);
      && t.handled == ["/file a f"]
      && t.out == FileOffer([me], me, "a", Regular("f", 3), ["Y", "Y", "/exit"]).out
  {
    var lines := ["/file a f", "Y", "Y", "/exit"];
    var answers := ["Y", "Y", "/exit"];
    assert lines[1..] == answers;
    SelfTargetRoute(me, time, fs);
    SelfTargetOffer(me);
    SessionStep([me], me, lines, 0, time, fs);
    assert Resume([me], me, lines, time, fs, 0) == 4;
  }

  /** `/file a f` is routed to the file offer to "a" of the file at path "f". */
  lemma SelfTargetRoute(me: Handler, time: string, fs: string -> FileStat)
    ensures Route([me], me, "/file a f", time, fs, ["Y", "Y", "/exit"])
         == FileOffer([me], me, "a", fs("f"), ["Y", "Y", "/exit"])
  {
    var line := "/file a f";
    assert line == "/file" + [' '] + "a" + [' '] + "f";
    assert "/file" <= line && line[1] == 'f';
    SplitLimitThreeOfJoin("/file", "a", "f", ' ');
    RouteByPrefix([me], me, line, time, fs, ["Y", "Y", "/exit"]);
  }

  /** Answer lines are read exactly when the file exists and the non-empty target is
      registered and there is a line to read; the offer ends the session exactly when
      the lines run out while an answer is due, which for a requester that is its own
      target means every remaining line said "Y"/"y". */
  lemma {:induction false} FileOfferReadsAnswer(clients: seq<Handler>, sender: Handler, target: string,
                                                stat: FileStat, answers: seq<string>)
    ensures var step := FileOffer(clients, sender, target, stat, answers);
      var offered := stat.Regular? && target != "" && HasIp(clients, target);
      && (step.read > 0 <==> offered && |answers| > 0)
      && (step.outcome != Continue <==>
            offered && (|answers| == 0
                        || (clients[FirstWithIp(clients, target).value] == sender
                            && forall k :: 0 <= k < |answers| ==> Accepts(answers[k]))))
      && (step.read == 0 ==> |step.out| >= 1 || Others(clients, sender) == [])
    decreases |answers|
  {
    if stat.Regular? && target != "" && HasIp(clients, target) && |answers| > 0 {
      var i := FirstWithIp(clients, target).value;
      if clients[i] == sender && Accepts(answers[0]) {
        FileOfferReadsAnswer(clients, sender, target, stat, answers[1..]);
        assert (forall k :: 0 <= k < |answers| ==> Accepts(answers[k]))
           <==> (forall k :: 0 <= k < |answers[1..]| ==> Accepts(answers[1..][k])) by {
          assert forall k :: 1 <= k < |answers| ==> answers[k] == answers[1..][k - 1];
        }
      }
    }
  }

  /** Every message of a file offer goes to a registered client or to the requester. */
  lemma {:induction false} FileOfferRecipients(clients: seq<Handler>, sender: Handler, target: string,
                                               stat: FileStat, answers: seq<string>)
    ensures AddressedWithin(FileOffer(clients, sender, target, stat, answers).out, clients, sender)
    decreases |answers|
  {
    if stat.Regular? && target == "" {
      OthersSubset(clients, sender);
    } else if stat.Regular? && HasIp(clients, target) && |answers| > 0 {
      var i := FirstWithIp(clients, target).value;
      if Accepts(answers[0]) && clients[i] == sender {
        var inner := FileOffer(clients, sender, target, stat, answers[1..]);
        FileOfferRecipients(clients, sender, target, stat, answers[1..]);
        var offer := Message(clients[i], OfferText(sender, stat.name));
        assert AddressedWithin([offer], clients, sender);
        AddressedAppend([offer], inner.out, clients, sender);
        AddressedAppend([offer] + inner.out, [Message(sender, TRANSFER_DONE)], clients, sender);
      }
    }
  }

  // ---------------------------------------------------------------- commands

  /** A command line as `handleCommand` reads it: the first matching prefix decides,
      and `/dm` and `/file` take their target and payload from `split(" ", 3)`. */
  datatype Command =
    | Chat(text: string)
    | ChatTooShort
    | Help
    | Quit
    | ListClients
    | Direct(target: string, text: string)
    | DirectMalformed
    | Offer(target: string, path: string)
    | OfferMalformed
    | Unknown

  function CountSpaces(s: string): nat {
    multiset(s)[' ']
  }

  /** `line.split(" ", 3)` has three parts exactly when the line holds at least two
      spaces; then the first two parts hold no space and, with single spaces between
      them, the three parts spell the line. */
  lemma SplitThree(line: string)
    ensures var parts := SplitLimit(line, ' ', 3);
      && (|parts| == 3 <==> CountSpaces(line) >= 2)
      && (|parts| == 3 ==>
            ' ' !in parts[0] && ' ' !in parts[1] && line == parts[0] + " " + parts[1] + " " + parts[2])
  {
    var parts := SplitLimit(line, ' ', 3);
    SplitLimitJoin(line, ' ', 3);
    SplitLimitFields(line, ' ', 3);
    assert Join(parts, ' ') == line;
    if |parts| == 1 {
      NoSpaceCount(parts[0]);
    } else if |parts| == 2 {
      assert parts[..1] == [parts[0]];
      JoinTwo(parts, ' ');
      TwoFieldsCount(parts[0], parts[1]);
    } else {
      assert parts[..2] == [parts[0], parts[1]];
      JoinThree(parts, ' ');
      ThreeFieldsCount(parts[0], parts[1], parts[2]);
    }
  }

  lemma JoinTwo(parts: seq<string>, sep: char)
    requires |parts| == 2
    ensures Join(parts, sep) == parts[0] + [sep] + parts[1]
  {
    assert parts[1..] == [parts[1]];
  }

  lemma JoinThree(parts: seq<string>, sep: char)
    requires |parts| == 3
    ensures Join(parts, sep) == parts[0] + [sep] + parts[1] + [sep] + parts[2]
  {
    JoinTwo(parts[1..], sep);
  }

  lemma NoSpaceCount(s: string)
    requires ' ' !in s
    ensures CountSpaces(s) == 0
  {
    assert ' ' !in multiset(s);
  }

  lemma TwoFieldsCount(a: string, b: string)
    requires ' ' !in a && ' ' !in b
    ensures CountSpaces(a + [' '] + b) == 1
  {
    NoSpaceCount(a);
    NoSpaceCount(b);
    assert multiset(a + [' '] + b) == multiset(a) + multiset([' ']) + multiset(b);
  }

  lemma ThreeFieldsCount(a: string, b: string, c: string)
    ensures CountSpaces(a + [' '] + b + [' '] + c) >= 2
  {
    assert multiset(a + [' '] + b + [' '] + c) == multiset(a) + multiset([' ']) + multiset(b) + multiset([' ']) + multiset(c);
  }

  /** `handleCommand`'s prefix dispatch. The six prefixes exclude one another, so the
      order of the tests decides nothing: each command is chosen exactly by its prefix. */
  function ParseCommand(line: string): (c: Command)
    ensures (c.Chat? || c.ChatTooShort?) <==> "/chat" <= line
    ensures c.ChatTooShort? <==> line == "/chat"
    ensures c.Chat? ==> line == "/chat" + [line[5]] + c.text
    ensures c.Help? <==> "/help" <= line
    ensures c.Quit? <==> "/exit" <= line
    ensures c.ListClients? <==> "/list" <= line
    ensures (c.Direct? || c.DirectMalformed?) <==> "/dm" <= line
    ensures c.DirectMalformed? <==> "/dm" <= line && CountSpaces(line) < 2
    ensures (c.Offer? || c.OfferMalformed?) <==> "/file" <= line
    ensures c.OfferMalformed? <==> "/file" <= line && CountSpaces(line) < 2
    ensures c.Unknown? <==> !("/chat" <= line || "/help" <= line || "/exit" <= line
                              || "/list" <= line || "/dm" <= line || "/file" <= line)
  {
    PrefixesExclusive(line);
    SplitThree(line);
    if "/chat" <= line then
      if |line| >= 6 then
        assert line == line[..6] + line[6..];
        assert line[..6] == "/chat" + [line[5]];
        Chat(line[6..])
      else ChatTooShort
    else if "/help" <= line then Help
    else if "/exit" <= line then Quit
    else if "/list" <= line then ListClients
    else if "/dm" <= line then
      var parts := SplitLimit(line, ' ', 3);
      if |parts| == 3 then Direct(parts[1], parts[2]) else DirectMalformed
    else if "/file" <= line then
      var parts := SplitLimit(line, ' ', 3);
      if |parts| == 3 then Offer(parts[1], parts[2]) else OfferMalformed
    else Unknown
  }

  /** No line starts with two of the six command words. */
  lemma PrefixesExclusive(line: string)
    ensures "/chat" <= line ==> !("/help" <= line || "/exit" <= line || "/list" <= line || "/dm" <= line || "/file" <= line)
    ensures "/help" <= line ==> !("/exit" <= line || "/list" <= line || "/dm" <= line || "/file" <= line)
    ensures "/exit" <= line ==> !("/list" <= line || "/dm" <= line || "/file" <= line)
    ensures "/list" <= line ==> !("/dm" <= line || "/file" <= line)
    ensures "/dm" <= line ==> !("/file" <= line)
  {
    if |line| >= 2 {
      assert "/chat"[1] == 'c' && "/help"[1] == 'h' && "/exit"[1] == 'e';
      assert "/list"[1] == 'l' && "/dm"[1] == 'd' && "/file"[1] == 'f';
    }
  }

  const HELP_TEXT: string :=
    "사용 가능한 명령어:\n" +
    "/chat [메시지] - 모든 클라이언트에게 메시지 전송\n" +
    "/help - 명령어 목록과 형식 확인\n" +
    "/exit - 서버 연결 종료\n" +
    "/list - 현재 접속 중인 클라이언트 목록 출력\n" +
    "/dm [IP] [메시지] - 특정 클라이언트에게 메시지 전송\n" +
    "/file [IP] [파일경로] - 파일 전송"
  const GOODBYE: string := "서버와의 연결이 종료되었습니다."
  const DM_FORMAT_ERROR: string := "잘못된 명령어 형식입니다. /dm [IP] [메시지]"
  const FILE_FORMAT_ERROR: string := "잘못된 명령어 형식입니다. /file [IP] [파일경로]"
  const UNKNOWN_COMMAND: string := "알 수 없는 명령어입니다. /help를 입력하여 명령어 목록을 확인하세요."

  /** `handleCommand(line)` from `sender`, given the time, the file system's view of a
      path, and the sender's input lines after this one (ending at end of stream). */
  function Route(clients: seq<Handler>, sender: Handler, line: string, time: string,
                 fs: string -> FileStat, answers: seq<string>): (r: Step)
    ensures r.outcome == Closed <==> "/exit" <= line
    ensures r.outcome == Crashed(SubstringOutOfRange) <==> line == "/chat"
    ensures r.outcome == Crashed(NullAnswer) ==> "/file" <= line && CountSpaces(line) >= 2 && r.read == |answers|
    ensures r.read > 0 ==> "/file" <= line && CountSpaces(line) >= 2
    ensures r.read <= |answers|
  {
    Execute(clients, sender, ParseCommand(line), time, fs, answers)
  }

  /** Parsing and then executing is the same as testing the six prefixes in turn, the
      first that matches deciding the action. */
  lemma RouteByPrefix(clients: seq<Handler>, sender: Handler, line: string, time: string,
                      fs: string -> FileStat, answers: seq<string>)
    ensures var step := Route(clients, sender, line, time, fs, answers);
      var parts := SplitLimit(line, ' ', 3);
      if "/chat" <= line then
        if |line| < 6 then step == Step(Crashed(SubstringOutOfRange), [], 0)
        else step == Step(Continue, Broadcast(clients, sender, time, line[6..]), 0)
      else if "/help" <= line then step == Step(Continue, [Message(sender, HELP_TEXT)], 0)
      else if "/exit" <= line then step == Step(Closed, [Message(sender, GOODBYE)], 0)
      else if "/list" <= line then step == Step(Continue, ListBroadcast(clients), 0)
      else if "/dm" <= line then
        if |parts| == 3 then step == Step(Continue, DirectMessage(clients, sender, parts[1], parts[2]), 0)
        else step == Step(Continue, [Message(sender, DM_FORMAT_ERROR)], 0)
      else if "/file" <= line then
        if |parts| == 3 then step == FileOffer(clients, sender, parts[1], fs(parts[2]), answers)
        else step == Step(Continue, [Message(sender, FILE_FORMAT_ERROR)], 0)
      else step == Step(Continue, [Message(sender, UNKNOWN_COMMAND)], 0)
  {
    var c := ParseCommand(line);
    var parts := SplitLimit(line, ' ', 3);
    if "/chat" <= line && |line| >= 6 {
      assert c == Chat(line[6..]);
    } else if !("/chat" <= line || "/help" <= line || "/exit" <= line || "/list" <= line) && |parts| == 3 {
      if "/dm" <= line {
        assert c == Direct(parts[1], parts[2]);
      } else if "/file" <= line {
        assert c == Offer(parts[1], parts[2]);
      }
    }
  }

  /** The action `handleCommand` takes for a command it has recognised. */
  function Execute(clients: seq<Handler>, sender: Handler, c: Command, time: string,
                   fs: string -> FileStat, answers: seq<string>): (r: Step)
    ensures r.outcome == Closed <==> c.Quit?
    ensures r.outcome == Crashed(SubstringOutOfRange) <==> c.ChatTooShort?
    ensures r.outcome == Crashed(NullAnswer) ==> c.Offer? && r.read == |answers|
    ensures r.read > 0 ==> c.Offer?
    ensures r.read <= |answers|
  {
    match c
    case Chat(text) => Step(Continue, Broadcast(clients, sender, time, text), 0)
    case ChatTooShort => Step(Crashed(SubstringOutOfRange), [], 0)
    case Help => Step(Continue, [Message(sender, HELP_TEXT)], 0)
    case Quit => Step(Closed, [Message(sender, GOODBYE)], 0)
    case ListClients => Step(Continue, ListBroadcast(clients), 0)
    case Direct(target, text) => Step(Continue, DirectMessage(clients, sender, target, text), 0)
    case DirectMalformed => Step(Continue, [Message(sender, DM_FORMAT_ERROR)], 0)
    case Offer(target, path) => FileOffer(clients, sender, target, fs(path), answers)
    case OfferMalformed => Step(Continue, [Message(sender, FILE_FORMAT_ERROR)], 0)
    case Unknown => Step(Continue, [Message(sender, UNKNOWN_COMMAND)], 0)
  }

  /** A line that matches none of the six prefixes gets exactly one "unknown command"
      reply, to the sender only; so do `/help` (the command list) and the two
      malformed forms (their format hints), and none of them reads an answer line. */
  lemma SenderOnlyReplies(clients: seq<Handler>, sender: Handler, line: string, time: string,
                          fs: string -> FileStat, answers: seq<string>)
    ensures var step := Route(clients, sender, line, time, fs, answers);
      && (!("/chat" <= line || "/help" <= line || "/exit" <= line || "/list" <= line
            || "/dm" <= line || "/file" <= line)
          ==> step == Step(Continue, [Message(sender, UNKNOWN_COMMAND)], 0))
      && ("/help" <= line ==> step == Step(Continue, [Message(sender, HELP_TEXT)], 0))
      && ("/dm" <= line && CountSpaces(line) < 2
          ==> step == Step(Continue, [Message(sender, DM_FORMAT_ERROR)], 0))
      && ("/file" <= line && CountSpaces(line) < 2
          ==> step == Step(Continue, [Message(sender, FILE_FORMAT_ERROR)], 0))
  {
    var c := ParseCommand(line);
  }

  /** `/chat` with at least one character after the word broadcasts the rest of the line
      from its seventh character on; exactly "/chat" throws before anything is sent. */
  lemma ChatRoute(clients: seq<Handler>, sender: Handler, line: string, time: string,
                  fs: string -> FileStat, answers: seq<string>, h: Handler)
    requires Distinct(clients) && "/chat" <= line
    ensures var step := Route(clients, sender, line, time, fs, answers);
      && (line == "/chat" ==> step == Step(Crashed(SubstringOutOfRange), [], 0))
      && (line != "/chat" ==>
            && step.outcome == Continue && step.read == 0
            && Inbox(step.out, h) == if h in clients then [Stamp(sender, time) + line[6..]] else [])
  {
    if line != "/chat" {
      var c := ParseCommand(line);
      assert c.Chat? && c.text == line[6..];
      BroadcastReachesEachOnce(clients, sender, time, line[6..], h);
    }
  }

  /** A `/dm` with target and text sends exactly one message: to the first client with
      that address and nobody else, or else one not-found reply to the sender. */
  lemma DirectRoute(clients: seq<Handler>, sender: Handler, line: string, time: string,
                    fs: string -> FileStat, answers: seq<string>)
    requires "/dm" <= line && CountSpaces(line) >= 2
    ensures var step := Route(clients, sender, line, time, fs, answers);
      var parts := SplitLimit(line, ' ', 3);
      && step.outcome == Continue && step.read == 0 && |step.out| == 1
      && (HasIp(clients, parts[1]) ==>
            exists i :: IsFirstWithIp(clients, parts[1], i) && step.out == [Message(clients[i], DmText(sender, parts[2]))])
      && (!HasIp(clients, parts[1]) ==> step.out == [Message(sender, PEER_NOT_FOUND)])
  {
    SplitThree(line);
    PrefixesExclusive(line);
    RouteByPrefix(clients, sender, line, time, fs, answers);
  }

  /** Every message in `out` goes to a registered client or to `sender`. */
  predicate AddressedWithin(out: seq<Message>, clients: seq<Handler>, sender: Handler) {
    forall k :: 0 <= k < |out| ==> out[k].to in clients || out[k].to == sender
  }

  lemma AddressedAppend(a: seq<Message>, b: seq<Message>, clients: seq<Handler>, sender: Handler)
    requires AddressedWithin(a, clients, sender) && AddressedWithin(b, clients, sender)
    ensures AddressedWithin(a + b, clients, sender)
  {
    forall k | 0 <= k < |a + b| ensures (a + b)[k].to in clients || (a + b)[k].to == sender {
      if k >= |a| { assert (a + b)[k] == b[k - |a|]; }
    }
  }

  /** Every message a command sends goes to a registered client or to the sender. */
  lemma RouteRecipientsRegistered(clients: seq<Handler>, sender: Handler, line: string, time: string,
                                  fs: string -> FileStat, answers: seq<string>)
    ensures AddressedWithin(Route(clients, sender, line, time, fs, answers).out, clients, sender)
  {
    ExecuteRecipientsRegistered(clients, sender, ParseCommand(line), time, fs, answers);
  }

  lemma ExecuteRecipientsRegistered(clients: seq<Handler>, sender: Handler, c: Command, time: string,
                                    fs: string -> FileStat, answers: seq<string>)
    ensures AddressedWithin(Execute(clients, sender, c, time, fs, answers).out, clients, sender)
  {
    match c
    case Offer(target, path) =>
      FileOfferRecipients(clients, sender, target, fs(path), answers);
    case _ =>
  }

  lemma {:induction false} OthersSubset(clients: seq<Handler>, me: Handler)
    ensures forall h :: h in Others(clients, me) ==> h in clients
    decreases |clients|
  {
    if |clients| > 0 {
      OthersSubset(clients[..|clients| - 1], me);
    }
  }

  // ---------------------------------------------------------------- arrival and departure

  const CONNECT_LOG: string := "클라이언트가 서버에 접속했습니다."

  function JoinNotice(h: Handler): string {
    "Client " + h.ip + " 접속 성공"
  }

  function LeaveNotice(h: Handler): string {
    "Client " + h.ip + " 접속 종료"
  }

  /** What the accept loop sends once `h` is in the registry `clients`: the join notice,
      then the client list, each to every registered client. */
  function Arrival(clients: seq<Handler>, h: Handler, time: string): (r: seq<Message>)
    ensures Recipients(r) == clients + clients
    ensures forall k :: 0 <= k < |clients| ==> r[k].text == Stamp(h, time) + JoinNotice(h)
    ensures forall k :: |clients| <= k < |r| ==> r[k].text == ListText(clients)
  {
    var notices, lists := Broadcast(clients, h, time, JoinNotice(h)), ListBroadcast(clients);
    RecipientsAppend(notices, lists);
    notices + lists
  }

  /** What the session cleanup sends once `h` has left, leaving `remaining`. */
  function Departure(remaining: seq<Handler>, h: Handler, time: string): (r: seq<Message>)
    ensures Recipients(r) == remaining + remaining
    ensures forall k :: 0 <= k < |remaining| ==> r[k].text == Stamp(h, time) + LeaveNotice(h)
    ensures forall k :: |remaining| <= k < |r| ==> r[k].text == ListText(remaining)
  {
    var notices, lists := Broadcast(remaining, h, time, LeaveNotice(h)), ListBroadcast(remaining);
    RecipientsAppend(notices, lists);
    notices + lists
  }

  /** Because the newcomer is registered before the broadcasts, it receives its own join
      notice; it and every client already there get the notice and then the list, once. */
  lemma ArrivalReachesNewcomer(clients: seq<Handler>, h: Handler, time: string, x: Handler)
    requires Distinct(clients) && h !in clients
    ensures Distinct(clients + [h])
    ensures Inbox(Arrival(clients + [h], h, time), x)
         == if x in clients || x == h then [Stamp(h, time) + JoinNotice(h), ListText(clients + [h])] else []
  {
    var now := clients + [h];
    DistinctSnoc(clients, h);
    var notices, lists := Broadcast(now, h, time, JoinNotice(h)), ListBroadcast(now);
    InboxSendAll(now, Stamp(h, time) + JoinNotice(h), x);
    InboxSendAll(now, ListText(now), x);
    InboxAppend(notices, lists, x);
    assert Arrival(now, h, time) == notices + lists;
    assert x in now <==> x in clients || x == h;
  }

  /** Registering a handler that is not there yet keeps the registry free of repeats. */
  lemma DistinctSnoc(clients: seq<Handler>, h: Handler)
    requires Distinct(clients) && h !in clients
    ensures Distinct(clients + [h])
  {
    var now := clients + [h];
    forall i, j | 0 <= i < j < |now| ensures now[i] != now[j] {
      if j < |clients| {
        assert now[i] == clients[i] && now[j] == clients[j];
      } else {
        assert now[i] == clients[i];
      }
    }
  }

  /** `ArrayList.remove(Object)`: drop the first occurrence of `h`, if any. */
  function RemoveFirst(clients: seq<Handler>, h: Handler): (r: seq<Handler>)
    ensures |r| == if h in clients then |clients| - 1 else |clients|
  {
    if |clients| == 0 then []
    else if clients[0] == h then clients[1..]
    else [clients[0]] + RemoveFirst(clients[1..], h)
  }

  /** Removing a handler keeps exactly the other clients. */
  lemma {:induction false} RemoveFirstMembers(clients: seq<Handler>, h: Handler)
    requires Distinct(clients)
    ensures forall x :: x in RemoveFirst(clients, h) <==> x in clients && x != h
    decreases |clients|
  {
    if |clients| > 0 {
      var tail := clients[1..];
      DistinctTail(clients);
      RemoveFirstMembers(tail, h);
      assert forall x :: x in clients <==> x == clients[0] || x in tail;
      if clients[0] == h {
        assert h !in tail;
      }
    }
  }

  lemma DistinctTail(clients: seq<Handler>)
    requires Distinct(clients) && |clients| > 0
    ensures Distinct(clients[1..]) && clients[0] !in clients[1..]
  {
    var tail := clients[1..];
    forall i, j | 0 <= i < j < |tail| ensures tail[i] != tail[j] {
      assert tail[i] == clients[i + 1] && tail[j] == clients[j + 1];
    }
  }

  /** Removing a handler leaves each remaining client once. */
  lemma {:induction false} RemoveFirstDistinct(clients: seq<Handler>, h: Handler)
    requires Distinct(clients)
    ensures Distinct(RemoveFirst(clients, h))
    decreases |clients|
  {
    if |clients| > 0 && clients[0] != h {
      var tail := clients[1..];
      DistinctTail(clients);
      RemoveFirstDistinct(tail, h);
      RemoveFirstMembers(tail, h);
      var rest := RemoveFirst(tail, h);
      var r := [clients[0]] + rest;
      assert r == RemoveFirst(clients, h);
      forall i, j | 0 <= i < j < |r| ensures r[i] != r[j] {
        assert r[j] == rest[j - 1];
        if i > 0 { assert r[i] == rest[i - 1]; }
      }
    } else if |clients| > 0 {
      DistinctTail(clients);
    }
  }

  /** `RemoveFirst` changes nothing when `h` is absent. */
  lemma {:induction false} RemoveFirstAbsent(clients: seq<Handler>, h: Handler)
    requires h !in clients
    ensures RemoveFirst(clients, h) == clients
    decreases |clients|
  {
    if |clients| > 0 {
      assert clients[0] != h && h !in clients[1..];
      RemoveFirstAbsent(clients[1..], h);
      assert clients == [clients[0]] + clients[1..];
    }
  }

  /** `RemoveFirst` deletes the first position holding `h`, keeping the order of the rest. */
  lemma {:induction false} RemoveFirstAt(clients: seq<Handler>, h: Handler, i: nat)
    requires i < |clients| && clients[i] == h && h !in clients[..i]
    ensures RemoveFirst(clients, h) == clients[..i] + clients[i + 1..]
    decreases i
  {
    if i == 0 {
      assert RemoveFirst(clients, h) == clients[1..];
    } else {
      var tail := clients[1..];
      assert clients[0] in clients[..i];
      assert clients[..i] == [clients[0]] + tail[..i - 1];
      RemoveFirstAt(tail, h, i - 1);
      assert RemoveFirst(clients, h) == [clients[0]] + RemoveFirst(tail, h);
      assert clients[i + 1..] == tail[i..];
    }
  }

  /** After `h` leaves, the departure notice and the list reach each remaining client
      exactly once and never `h` itself. */
  lemma DepartureSkipsLeaver(clients: seq<Handler>, h: Handler, time: string, x: Handler)
    requires Distinct(clients)
    ensures var remaining := RemoveFirst(clients, h);
      Inbox(Departure(remaining, h, time), x)
        == if x in clients && x != h then [Stamp(h, time) + LeaveNotice(h), ListText(remaining)] else []
  {
    var remaining := RemoveFirst(clients, h);
    RemoveFirstMembers(clients, h);
    RemoveFirstDistinct(clients, h);
    var notices, lists := Broadcast(remaining, h, time, LeaveNotice(h)), ListBroadcast(remaining);
    InboxSendAll(remaining, Stamp(h, time) + LeaveNotice(h), x);
    InboxSendAll(remaining, ListText(remaining), x);
    InboxAppend(notices, lists, x);
    assert Departure(remaining, h, time) == notices + lists;
    assert x in remaining <==> x in clients && x != h;
  }

  // ---------------------------------------------------------------- one session

  /** What a session sends and which lines it dispatches as commands. */
  datatype Trace = Trace(out: seq<Message>, handled: seq<string>)

  /** The position of the line `run` reads after line `p` and the handshake answers
      that line took. */
  function Resume(clients: seq<Handler>, me: Handler, lines: seq<string>, time: string,
                  fs: string -> FileStat, p: nat): (r: nat)
    requires p < |lines|
    ensures p < r <= |lines|
  {
    p + 1 + Route(clients, me, lines[p], time, fs, lines[p + 1..]).read
  }

  /** `run`'s read loop over the lines the client sends, from line `from` up to end
      of stream, `/exit` or an exception: each line is dispatched with the lines after
      it as the answers a `/file` handshake may read, and the lines a handshake takes
      as answers are not dispatched themselves. */
  function Session(clients: seq<Handler>, me: Handler, lines: seq<string>, from: nat, time: string,
                   fs: string -> FileStat): (r: Trace)
    requires from <= |lines|
    ensures |r.handled| <= |lines| - from
    ensures from < |lines| ==> |r.handled| > 0 && r.handled[0] == lines[from]
    decreases |lines| - from
  {
    if from == |lines| then Trace([], [])
    else
      var step := Route(clients, me, lines[from], time, fs, lines[from + 1..]);
      if step.outcome != Continue then Trace(step.out, [lines[from]])
      else
        var rest := Session(clients, me, lines, Resume(clients, me, lines, time, fs, from), time, fs);
        Trace(step.out + rest.out, [lines[from]] + rest.handled)
  }

  /** One step of `Session`, unfolded at line `from`. */
  lemma SessionStep(clients: seq<Handler>, me: Handler, lines: seq<string>, from: nat, time: string,
                    fs: string -> FileStat)
    requires from < |lines|
    ensures var step := Route(clients, me, lines[from], time, fs, lines[from + 1..]);
      var t := Session(clients, me, lines, from, time, fs);
      && (step.outcome != Continue ==> t == Trace(step.out, [lines[from]]))
      && (step.outcome == Continue ==>
            var rest := Session(clients, me, lines, Resume(clients, me, lines, time, fs, from), time, fs);
            t == Trace(step.out + rest.out, [lines[from]] + rest.handled))
  {
  }

  /** A line that is not `/exit`, not a `/file` and not bare `/chat` keeps the session
      going and reads no answer. */
  lemma PlainLineContinues(clients: seq<Handler>, me: Handler, line: string, time: string,
                           fs: string -> FileStat, answers: seq<string>)
    requires !("/exit" <= line) && !("/file" <= line) && line != "/chat"
    ensures var step := Route(clients, me, line, time, fs, answers);
      step.outcome == Continue && step.read == 0
  {
  }

  /** A session sends only to registered clients and to its own client. */
  lemma {:induction false} SessionRecipients(clients: seq<Handler>, me: Handler, lines: seq<string>,
                                             from: nat, time: string, fs: string -> FileStat)
    requires from <= |lines|
    ensures AddressedWithin(Session(clients, me, lines, from, time, fs).out, clients, me)
    decreases |lines| - from
  {
    if from < |lines| {
      var step := Route(clients, me, lines[from], time, fs, lines[from + 1..]);
      RouteRecipientsRegistered(clients, me, lines[from], time, fs, lines[from + 1..]);
      SessionStep(clients, me, lines, from, time, fs);
      if step.outcome == Continue {
        var next := Resume(clients, me, lines, time, fs, from);
        SessionRecipients(clients, me, lines, next, time, fs);
        AddressedAppend(step.out, Session(clients, me, lines, next, time, fs).out, clients, me);
      }
    }
  }

  /** A session whose lines include no `/exit`, no `/file` and no bare `/chat` reads no
      handshake answers and never stops early: it dispatches every line, in order. */
  lemma {:induction false} SessionDispatchesAll(clients: seq<Handler>, me: Handler, lines: seq<string>,
                                                from: nat, time: string, fs: string -> FileStat)
    requires from <= |lines|
    requires forall k :: from <= k < |lines| ==> !("/exit" <= lines[k]) && !("/file" <= lines[k]) && lines[k] != "/chat"
    ensures Session(clients, me, lines, from, time, fs).handled == lines[from..]
    decreases |lines| - from
  {
    if from < |lines| {
      PlainLineContinues(clients, me, lines[from], time, fs, lines[from + 1..]);
      SessionStep(clients, me, lines, from, time, fs);
      assert Resume(clients, me, lines, time, fs, from) == from + 1;
      SessionDispatchesAll(clients, me, lines, from + 1, time, fs);
      assert [lines[from]] + lines[from + 1..] == lines[from..];
    }
  }

  /** Line `p` is dispatched, does not end the session, and the next line dispatched is
      `q`: the one after the answers line `p` took. */
  ghost predicate ContinuesTo(clients: seq<Handler>, me: Handler, lines: seq<string>, time: string,
                              fs: string -> FileStat, p: nat, q: nat)
  {
    p < q < |lines| &&
    var step := Route(clients, me, lines[p], time, fs, lines[p + 1..]);
    step.outcome == Continue && q == Resume(clients, me, lines, time, fs, p)
  }

  /** Line `p` is the last one dispatched: it closes or crashes the session, or it and
      the answers it took use up the input. */
  ghost predicate EndsAt(clients: seq<Handler>, me: Handler, lines: seq<string>, time: string,
                         fs: string -> FileStat, p: nat)
  {
    p < |lines| &&
    var step := Route(clients, me, lines[p], time, fs, lines[p + 1..]);
    step.outcome != Continue || Resume(clients, me, lines, time, fs, p) == |lines|
  }

  /** `at` lists the positions of the lines dispatched from position `start` on: line
      `start`, then each next one after the previous one's answers, up to the line that
      ends the session. */
  ghost predicate ScheduleFrom(clients: seq<Handler>, me: Handler, lines: seq<string>, time: string,
                               fs: string -> FileStat, start: nat, at: seq<nat>)
  {
    Chain(Link(clients, me, lines, time, fs), Ends(clients, me, lines, time, fs), start, |lines|, at)
  }

  /** The relation "line `p` goes on to line `q`" of one session. */
  ghost function Link(clients: seq<Handler>, me: Handler, lines: seq<string>, time: string,
                      fs: string -> FileStat): (r: (nat, nat) -> bool)
    ensures forall p: nat, q: nat :: r(p, q) == ContinuesTo(clients, me, lines, time, fs, p, q)
  {
    (p: nat, q: nat) => ContinuesTo(clients, me, lines, time, fs, p, q)
  }

  /** The property "line `p` is the last one dispatched" of one session. */
  ghost function Ends(clients: seq<Handler>, me: Handler, lines: seq<string>, time: string,
                      fs: string -> FileStat): (r: nat -> bool)
    ensures forall p: nat :: r(p) == EndsAt(clients, me, lines, time, fs, p)
  {
    (p: nat) => EndsAt(clients, me, lines, time, fs, p)
  }

  /** `at` starts at `start` (and is empty exactly when `start` is past `bound`), each
      position is linked to the next one, and the last one is an end. */
  ghost predicate Chain(link: (nat, nat) -> bool, ends: nat -> bool, start: nat, bound: nat, at: seq<nat>)
  {
    && (|at| == 0 <==> start >= bound)
    && (|at| > 0 ==> at[0] == start && ends(at[|at| - 1]))
    && forall k :: 0 <= k < |at| - 1 ==> link(at[k], at[k + 1])
  }

  /** `handled` is the list of the lines at positions `at`. */
  predicate Positions(lines: seq<string>, at: seq<nat>, handled: seq<string>) {
    |at| == |handled| && forall k :: 0 <= k < |at| ==> at[k] < |lines| && handled[k] == lines[at[k]]
  }

  /** From position `start` on, the session dispatches exactly the lines at the
      positions of the schedule `at`. */
  lemma {:induction false} SessionScheduleFrom(clients: seq<Handler>, me: Handler, lines: seq<string>,
                                               time: string, fs: string -> FileStat, start: nat)
    returns (at: seq<nat>)
    requires start <= |lines|
    ensures ScheduleFrom(clients, me, lines, time, fs, start, at)
    ensures Positions(lines, at, Session(clients, me, lines, start, time, fs).handled)
    decreases |lines| - start
  {
    if start == |lines| {
      at := [];
    } else if EndsAt(clients, me, lines, time, fs, start) {
      SessionEnds(clients, me, lines, time, fs, start);
      at := [start];
      assert Positions(lines, at, [lines[start]]);
    } else {
      var next := Resume(clients, me, lines, time, fs, start);
      SessionContinues(clients, me, lines, time, fs, start);
      var rest := SessionScheduleFrom(clients, me, lines, time, fs, next);
      ScheduleCons(clients, me, lines, time, fs, start, next, rest);
      PositionsCons(lines, start, rest, Session(clients, me, lines, next, time, fs).handled);
      at := [start] + rest;
    }
  }

  /** A line that ends the session is the last one it dispatches. */
  lemma SessionEnds(clients: seq<Handler>, me: Handler, lines: seq<string>, time: string,
                    fs: string -> FileStat, start: nat)
    requires EndsAt(clients, me, lines, time, fs, start)
    ensures Session(clients, me, lines, start, time, fs).handled == [lines[start]]
  {
    SessionStep(clients, me, lines, start, time, fs);
  }

  /** A line that does not end the session is followed by the session from the line
      after its answers. */
  lemma SessionContinues(clients: seq<Handler>, me: Handler, lines: seq<string>, time: string,
                         fs: string -> FileStat, start: nat)
    requires start < |lines| && !EndsAt(clients, me, lines, time, fs, start)
    ensures var next := Resume(clients, me, lines, time, fs, start);
      && ContinuesTo(clients, me, lines, time, fs, start, next)
      && Session(clients, me, lines, start, time, fs).handled
           == [lines[start]] + Session(clients, me, lines, next, time, fs).handled
  {
    SessionStep(clients, me, lines, start, time, fs);
  }

  /** Dispatching line `start` and going on to `next` extends a schedule from `next`. */
  lemma ScheduleCons(clients: seq<Handler>, me: Handler, lines: seq<string>, time: string,
                     fs: string -> FileStat, start: nat, next: nat, at: seq<nat>)
    requires ContinuesTo(clients, me, lines, time, fs, start, next)
    requires ScheduleFrom(clients, me, lines, time, fs, next, at)
    ensures ScheduleFrom(clients, me, lines, time, fs, start, [start] + at)
  {
    var link := Link(clients, me, lines, time, fs);
    assert link(start, next);
    ChainCons(link, Ends(clients, me, lines, time, fs), start, next, |lines|, at);
  }

  /** A position linked to the start of a chain extends it. */
  lemma ChainCons(link: (nat, nat) -> bool, ends: nat -> bool, start: nat, next: nat, bound: nat, at: seq<nat>)
    requires start < bound && next < bound && link(start, next)
    requires Chain(link, ends, next, bound, at)
    ensures Chain(link, ends, start, bound, [start] + at)
  {
    var all := [start] + at;
    forall k | 0 <= k < |all| - 1 ensures link(all[k], all[k + 1]) {
      if k > 0 {
        assert all[k] == at[k - 1] && all[k + 1] == at[k];
      }
    }
  }

  /** Line `start` followed by the lines at positions `at` is the line list at
      positions `[start] + at`. */
  lemma PositionsCons(lines: seq<string>, start: nat, at: seq<nat>, handled: seq<string>)
    requires start < |lines| && Positions(lines, at, handled)
    ensures Positions(lines, [start] + at, [lines[start]] + handled)
  {
    var all := [start] + at;
    forall k | 0 <= k < |all| ensures all[k] < |lines| && ([lines[start]] + handled)[k] == lines[all[k]] {
      if k > 0 {
        assert all[k] == at[k - 1] && ([lines[start]] + handled)[k] == handled[k - 1];
      }
    }
  }

  /** The lines a session dispatches are exactly those at the positions of its
      schedule: the first line, then every dispatched line but the last lets the
      session go on to the line after its answers, and the last one ends it or leaves
      no input. */
  lemma SessionSchedule(clients: seq<Handler>, me: Handler, lines: seq<string>, time: string,
                        fs: string -> FileStat)
    ensures var t := Session(clients, me, lines, 0, time, fs);
      exists at: seq<nat> :: ScheduleFrom(clients, me, lines, time, fs, 0, at) && |at| == |t.handled|
        && Positions(lines, at, t.handled)
  {
    var at := SessionScheduleFrom(clients, me, lines, time, fs, 0);
    assert Positions(lines, at, Session(clients, me, lines, 0, time, fs).handled);
  }
}
