/** The client's handling of one line from the server: `handleServerCommand` splits it on
    single spaces, echoes it unless its first token is exactly "/file", and
    `handleFileTransferRequest` validates a file request, prints a notice and runs the
    counted receive loop. */
module ChatClientModel {
  import opened JavaText
  import opened FileReceive

  const FILE_COMMAND := "/file"
  const REQUEST_FORMAT_ERROR := "[Server] 파일 전송 요청 형식이 올바르지 않습니다."

  /** The notice printed before a file is received. */
  function ReceivingNotice(senderIp: string, fileName: string, fileSize: int): string {
    "[Server] " + senderIp + "로부터 파일을 전송받습니다. 파일명: " + fileName
      + " (크기: " + IntToDecimal(fileSize) + " bytes)"
  }

  /** The exceptions that escape the handler: `commandArgs[0]` on an empty token array, a
      size `Long.parseLong` rejects, and `fos.write` past the end of the buffer. */
  datatype ClientFault = NoFirstToken | SizeNotNumber | WriteOverrun

  /** What handling one server line does: the console lines it prints, in order, the
      receive loop's result if the file was opened and the loop ran, and the exception
      that ended the handler, if any. */
  datatype Reaction = Reaction(printed: seq<string>, receipt: Option<Receipt>, fault: Option<ClientFault>)

  /** `handleFileTransferRequest` on the tokens of a "/file" line. `stream` is what the
      connection's reader will yield; `opens` says whether `new FileOutputStream` succeeds
      (if not, `receiveFile` catches the IOException and returns at once). */
  function HandleFileTransferRequest(tokens: seq<string>, stream: seq<int>, opens: bool): (r: Reaction)
    requires IsStream(stream)
    ensures |tokens| < 4 ==> r == Reaction([REQUEST_FORMAT_ERROR], None, None)
    ensures r.receipt.Some? ==> opens && |tokens| >= 4 && ParseLong(tokens[3]).Some?
  {
    if |tokens| < 4 then Reaction([REQUEST_FORMAT_ERROR], None, None)
    else
      match ParseLong(tokens[3])
      case None => Reaction([], None, Some(SizeNotNumber))
      case Some(fileSize) =>
        var notice := ReceivingNotice(tokens[1], tokens[2], fileSize);
        if !opens then Reaction([notice, RECEIVED_NOTICE], None, None)
        else
          var receipt := Receive(stream, fileSize);
          if receipt.stop == BufferOverrun then Reaction([notice], Some(receipt), Some(WriteOverrun))
          else Reaction([notice, RECEIVED_NOTICE], Some(receipt), None)
  }

  /** `handleServerCommand`. */
  function HandleServerCommand(line: string, stream: seq<int>, opens: bool): (r: Reaction)
    requires IsStream(stream)
    ensures |r.printed| <= 2
    ensures r.receipt.Some? ==> opens
    ensures r.fault == Some(WriteOverrun) <==> r.receipt.Some? && r.receipt.value.stop == BufferOverrun
  {
    var tokens := Split(line, ' ');
    if |tokens| == 0 then Reaction([], None, Some(NoFirstToken))
    else if tokens[0] == FILE_COMMAND then HandleFileTransferRequest(tokens, stream, opens)
    else Reaction([line], None, None)
  }

  /** The text before the first space, or the whole line when it has none. */
  function FirstWord(line: string): (w: string)
    ensures w <= line && ' ' !in w
    ensures |w| < |line| ==> line[|w|] == ' '
  {
    match IndexOf(line, ' ')
    case None => line
    case Some(i) => line[..i]
  }

  /** The first token of the split is the text before the first space, and it is there
      whenever that text is not empty. */
  lemma SplitFirstToken(line: string)
    ensures |Split(line, ' ')| > 0 ==> Split(line, ' ')[0] == FirstWord(line)
    ensures FirstWord(line) != "" ==> |Split(line, ' ')| > 0
  {
    if ' ' in line {
      var fs := Fields(line, ' ');
      var i := IndexOf(line, ' ').value;
      assert fs[0] == line[..i];
      var r := DropTrailingEmpty(fs);
      if |r| > 0 {
        assert r[0] == fs[0];
      }
    }
  }

  /** Which lines take the file path: exactly those that begin with "/file" followed by a
      space or by nothing ("/files x" and " /file x" are echoed). */
  lemma FileCommandIff(line: string)
    ensures (|Split(line, ' ')| > 0 && Split(line, ' ')[0] == FILE_COMMAND)
      <==> (FILE_COMMAND <= line && (|line| == 5 || line[5] == ' '))
  {
    SplitFirstToken(line);
    var w := FirstWord(line);
    if FILE_COMMAND <= line && (|line| == 5 || line[5] == ' ') {
      assert line[..5] == FILE_COMMAND;
      if |line| == 5 {
        assert line == FILE_COMMAND;
        assert ' ' !in line;
      } else {
        assert line == FILE_COMMAND + [' '] + line[6..];
        IndexOfAfterFree(FILE_COMMAND, ' ', line[6..]);
      }
      assert w == FILE_COMMAND;
    }
    if w == FILE_COMMAND {
      assert line[..5] == FILE_COMMAND;
    }
  }

  /** Routing of a server line: a line that splits to no tokens (a non-empty line of
      spaces only) makes `commandArgs[0]` throw; a line whose first token is "/file"
      goes to the file handler; every other line is printed unchanged and nothing is
      received. */
  lemma ServerLineRouting(line: string, stream: seq<int>, opens: bool)
    requires IsStream(stream)
    ensures var r := HandleServerCommand(line, stream, opens);
      && (r.fault == Some(NoFirstToken) <==> (|line| > 0 && forall k :: 0 <= k < |line| ==> line[k] == ' '))
      && (var fileLine := FILE_COMMAND <= line && (|line| == 5 || line[5] == ' ');
          && (!fileLine && r.fault != Some(NoFirstToken) ==> r == Reaction([line], None, None))
          && (fileLine ==> r == HandleFileTransferRequest(Split(line, ' '), stream, opens)))
  {
    SplitEmptyIff(line, ' ');
    FileCommandIff(line);
    var r := HandleServerCommand(line, stream, opens);
    var tokens := Split(line, ' ');
    if |tokens| > 0 && tokens[0] == FILE_COMMAND {
      var h := HandleFileTransferRequest(tokens, stream, opens);
      assert h.fault != Some(NoFirstToken);
    }
  }

  /** A request with at least four tokens: the size is `tokens[3]` read as a `long`, a
      size that is not one raises the number-format error before anything is printed,
      the notice names `tokens[1]` and `tokens[2]`, and any further tokens are ignored. */
  lemma RequestFields(tokens: seq<string>, extra: seq<string>, stream: seq<int>, opens: bool)
    requires IsStream(stream) && |tokens| >= 4
    ensures var r := HandleFileTransferRequest(tokens, stream, opens);
      && HandleFileTransferRequest(tokens + extra, stream, opens) == r
      && (r.fault == Some(SizeNotNumber) <==> ParseLong(tokens[3]).None?)
      && (r.fault == Some(SizeNotNumber) ==> r.printed == [] && r.receipt.None?)
      && (ParseLong(tokens[3]).Some? ==>
            |r.printed| > 0 && r.printed[0] == ReceivingNotice(tokens[1], tokens[2], ParseLong(tokens[3]).value))
  {
    var all := tokens + extra;
    assert all[1] == tokens[1] && all[2] == tokens[2] && all[3] == tokens[3];
  }

  /** After a well-formed request the completion notice follows the receiving notice
      whatever the receive did (stopped at the size, hit the end of the stream, or never
      opened the file), and only the uncaught write past the buffer suppresses it; the
      loop's result is exactly the receive loop on the declared size. */
  lemma CompletionNotice(tokens: seq<string>, stream: seq<int>, opens: bool)
    requires IsStream(stream) && |tokens| >= 4 && ParseLong(tokens[3]).Some?
    ensures var size := ParseLong(tokens[3]).value;
      var r := HandleFileTransferRequest(tokens, stream, opens);
      && (r.receipt.Some? <==> opens)
      && (opens ==> r.receipt == Some(Receive(stream, size)))
      && (var overrun := opens && Receive(stream, size).stop == BufferOverrun;
          && (r.fault.None? <==> !overrun)
          && r.printed == [ReceivingNotice(tokens[1], tokens[2], size)] + (if overrun then [] else [RECEIVED_NOTICE]))
  {
  }

  /** The request line a sender would build, "/file <ip> <name> <size>", is read back by
      the client as that sender, that name and that size, for any ip and name without
      spaces (even empty ones) and any `long` size; the loop then runs on that size. */
  lemma RequestRoundTrip(ip: string, name: string, size: int, stream: seq<int>, opens: bool)
    requires IsStream(stream) && IsLong(size)
    requires ' ' !in ip && ' ' !in name
    ensures var line := FILE_COMMAND + " " + ip + " " + name + " " + IntToDecimal(size);
      var r := HandleServerCommand(line, stream, opens);
      && |r.printed| > 0
      && r.printed[0] == ReceivingNotice(ip, name, size)
      && (opens ==> r.receipt == Some(Receive(stream, size)))
  {
    var digits := IntToDecimal(size);
    var line := FILE_COMMAND + " " + ip + " " + name + " " + digits;
    ParseLongOfDecimal(size);
    DecimalHasNoSpace(size);
    assert digits != "" by {
      assert ParseLong(digits).Some?;
    }
    RequestLineSplits(ip, name, digits);
    var tokens := Split(line, ' ');
    assert tokens[0] == FILE_COMMAND && |tokens| == 4;
    assert ParseLong(tokens[3]) == Some(size);
  }

  /** A request line built from four space-free fields, the last one non-empty, splits
      back into exactly those fields. */
  lemma RequestLineSplits(ip: string, name: string, digits: string)
    requires ' ' !in ip && ' ' !in name && ' ' !in digits && digits != ""
    ensures Split(FILE_COMMAND + " " + ip + " " + name + " " + digits, ' ') == [FILE_COMMAND, ip, name, digits]
  {
    var fs := [FILE_COMMAND, ip, name, digits];
    var line := FILE_COMMAND + " " + ip + " " + name + " " + digits;
    assert Join(fs, ' ') == line by {
      JoinCons(name, [digits], ' ');
      JoinCons(ip, [name, digits], ' ');
      JoinCons(FILE_COMMAND, [ip, name, digits], ' ');
      assert [FILE_COMMAND] + [ip, name, digits] == fs;
      assert [ip] + [name, digits] == [ip, name, digits];
      assert [name] + [digits] == [name, digits];
    }
    FieldsOfJoin(fs, ' ');
    assert line[5] == ' ';
    assert ' ' in line;
    assert DropTrailingEmpty(fs) == fs;
  }

  /** Decimal text has no spaces in it. */
  lemma DecimalHasNoSpace(n: int)
    ensures ' ' !in IntToDecimal(n)
  {
    if n < 0 {
      var d := NatToDecimal(-n);
      assert IntToDecimal(n) == "-" + d;
      assert forall k :: 0 <= k < |d| ==> d[k] != ' ';
    }
  }
}
