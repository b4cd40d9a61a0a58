/** The counted receive loop of `receiveFile`, which ChatClient.java and ChatServer.java
    both contain: take one value at a time from the connection's character reader,
    write that many bytes of a never-filled 4096-byte buffer to the file, and add the
    value to a `long` running total, until the total reaches the declared size or the
    stream ends. The total grows by each character's code, not by one per character. */
module FileReceive {
  import opened JavaText

  const BUFFER_SIZE: int := 4096
  const RECEIVED_NOTICE := "[Server] 파일 수신이 완료되었습니다."
  const RECEIVE_ERROR := "[Server] 파일 수신 중 오류가 발생했습니다."
  const END_OF_STREAM: int := -1

  /** A value `BufferedReader.read()` can return: a UTF-16 code unit, or -1 at end of stream. */
  predicate IsReadResult(v: int) {
    -1 <= v <= 0xFFFF
  }

  /** The values the reader will return from now on, up to and including the -1 that
      marks the end of the stream. */
  predicate IsStream(stream: seq<int>) {
    && |stream| > 0
    && stream[|stream| - 1] == END_OF_STREAM
    && forall k :: 0 <= k < |stream| ==> IsReadResult(stream[k])
  }

  /** Why the loop stopped: the total reached the declared size, `read()` returned -1,
      or `fos.write(buffer, 0, n)` threw IndexOutOfBoundsException because `n` was larger
      than the buffer (an exception `receiveFile` does not catch). */
  datatype Stop = Reached | EndOfStream | BufferOverrun

  /** The loop's result: the final `totalBytesRead`, how many values it took from the
      reader, how many (zero) bytes it wrote to the file, and why it stopped. */
  datatype Receipt = Receipt(total: int, consumed: nat, written: nat, stop: Stop)

  /** The value at `k` explains a stop other than reaching the size: -1 for the end of
      the stream, more than the buffer holds for an overrun. */
  predicate CausedBy(stream: seq<int>, k: nat, stop: Stop)
    requires k < |stream|
  {
    match stop
    case EndOfStream => stream[k] == END_OF_STREAM
    case BufferOverrun => stream[k] > BUFFER_SIZE
    case Reached => false
  }

  /** The loop from the `i`th read on, with the running total and the bytes written so far. */
  function ReceiveFrom(stream: seq<int>, i: nat, total: int, written: nat, fileSize: int): (r: Receipt)
    requires IsStream(stream) && i < |stream|
    ensures i <= r.consumed <= |stream| && written <= r.written
    ensures r.stop == Reached <==> r.total >= fileSize
    ensures r.stop != Reached ==> r.consumed > i && CausedBy(stream, r.consumed - 1, r.stop)
    decreases |stream| - i
  {
    if !(total < fileSize) then Receipt(total, i, written, Reached)
    else if stream[i] == END_OF_STREAM then Receipt(total, i + 1, written, EndOfStream)
    else if stream[i] > BUFFER_SIZE then Receipt(total, i + 1, written, BufferOverrun)
    else ReceiveFrom(stream, i + 1, WrapLong(total + stream[i]), written + stream[i], fileSize)
  }

  /** `receiveFile`'s loop on a fresh total of 0. */
  function Receive(stream: seq<int>, fileSize: int): (r: Receipt)
    requires IsStream(stream)
    ensures r.consumed <= |stream|
    ensures r.stop == Reached <==> r.total >= fileSize
    ensures r.stop != Reached ==> r.consumed > 0
  {
    ReceiveFrom(stream, 0, 0, 0, fileSize)
  }

  /** The loop as the source writes it. */
  method ReceiveFile(stream: seq<int>, fileSize: int) returns (r: Receipt)
    requires IsStream(stream) && IsLong(fileSize)
    ensures r == Receive(stream, fileSize)
  {
    var totalBytesRead := 0;
    var written: nat := 0;
    var i := 0;
    while totalBytesRead < fileSize
      invariant 0 <= i < |stream|
      invariant ReceiveFrom(stream, i, totalBytesRead, written, fileSize) == Receive(stream, fileSize)
      decreases |stream| - i
    {
      var bytesRead := stream[i];
      i := i + 1;
      if bytesRead == END_OF_STREAM {
        return Receipt(totalBytesRead, i, written, EndOfStream);
      }
      if bytesRead > BUFFER_SIZE {
        return Receipt(totalBytesRead, i, written, BufferOverrun);
      }
      assert IsReadResult(stream[i - 1]);
      written := written + bytesRead;
      totalBytesRead := WrapLong(totalBytesRead + bytesRead);
    }
    return Receipt(totalBytesRead, i, written, Reached);
  }

  /** The sum of a sequence of values, as the loop accumulates it. */
  function Sum(s: seq<int>): int {
    if |s| == 0 then 0 else Sum(s[..|s| - 1]) + s[|s| - 1]
  }

  const LONG_SPAN: int := 0x1_0000_0000_0000_0000

  /** Wrapping after every addition is the same as wrapping once at the end. */
  lemma WrapLongAdd(a: int, b: int)
    ensures WrapLong(WrapLong(a) + b) == WrapLong(a + b)
  {
    var q := (a - LONG_MIN) / LONG_SPAN;
    assert WrapLong(a) + b - LONG_MIN == (a + b - LONG_MIN) - q * LONG_SPAN;
    ModShift(a + b - LONG_MIN, q);
  }

  /** Taking away whole multiples of 2^64 leaves the remainder unchanged. */
  lemma ModShift(x: int, q: int)
    ensures (x - q * LONG_SPAN) % LONG_SPAN == x % LONG_SPAN
  {
    var y := x - q * LONG_SPAN;
    var d, d' := x / LONG_SPAN, y / LONG_SPAN;
    var r, r' := x % LONG_SPAN, y % LONG_SPAN;
    assert (d' - d + q) * LONG_SPAN == r - r';
  }

  /** Every one of the first `n` values is a byte count the buffer can hold. */
  predicate FitsBuffer(stream: seq<int>, n: nat)
    requires n <= |stream|
  {
    forall k :: 0 <= k < n ==> 0 <= stream[k] <= BUFFER_SIZE
  }

  /** Before each of the reads `lo` up to `hi`, the wrapped running total was below the size. */
  predicate BelowSizeBefore(stream: seq<int>, lo: nat, hi: nat, fileSize: int)
    requires hi <= |stream|
  {
    forall k :: lo <= k < hi ==> WrapLong(Sum(stream[..k])) < fileSize
  }

  /** One more value in the buffer's range extends the sum, its wrapped total and the
      prefix of values that fit. */
  lemma AccumulateOne(stream: seq<int>, i: nat, written: int)
    requires i < |stream| && 0 <= stream[i] <= BUFFER_SIZE
    requires written == Sum(stream[..i]) && FitsBuffer(stream, i)
    ensures Sum(stream[..i + 1]) == written + stream[i]
    ensures WrapLong(WrapLong(written) + stream[i]) == WrapLong(written + stream[i])
    ensures FitsBuffer(stream, i + 1)
  {
    assert stream[..i + 1][..i] == stream[..i];
    WrapLongAdd(written, stream[i]);
  }

  /** Where the loop stops, from any point `i` it can reach: at the first value that is
      -1 or larger than the buffer, or once the total is at least the size; every value
      it added on the way fits the buffer. */
  lemma {:induction false} ReceiveFromStops(stream: seq<int>, i: nat, total: int, written: nat, fileSize: int)
    requires IsStream(stream) && i < |stream| && FitsBuffer(stream, i)
    ensures var r := ReceiveFrom(stream, i, total, written, fileSize);
      var added := if r.stop == Reached then r.consumed else r.consumed - 1;
      && i <= added <= r.consumed <= |stream|
      && FitsBuffer(stream, added)
      && (r.stop == Reached ==> r.total >= fileSize)
      && (r.stop == EndOfStream ==> r.consumed > i && stream[r.consumed - 1] == END_OF_STREAM)
      && (r.stop == BufferOverrun ==> r.consumed > i && stream[r.consumed - 1] > BUFFER_SIZE)
    decreases |stream| - i
  {
    if total < fileSize && stream[i] != END_OF_STREAM && stream[i] <= BUFFER_SIZE {
      assert IsReadResult(stream[i]);
      assert FitsBuffer(stream, i + 1);
      ReceiveFromStops(stream, i + 1, WrapLong(total + stream[i]), written + stream[i], fileSize);
    }
  }

  /** `w` is the sum of the first `k` values of the stream. */
  predicate SumsTo(stream: seq<int>, k: int, w: int) {
    0 <= k <= |stream| && w == Sum(stream[..k])
  }

  /** Each value the loop adds counts as itself, not as one: the bytes written are the
      sum of the values added. */
  lemma {:induction false} ReceiveFromSums(stream: seq<int>, i: nat, total: int, written: nat, fileSize: int)
    requires IsStream(stream) && i < |stream| && FitsBuffer(stream, i) && SumsTo(stream, i, written)
    ensures var r := ReceiveFrom(stream, i, total, written, fileSize);
      var added := if r.stop == Reached then r.consumed else r.consumed - 1;
      i <= added && SumsTo(stream, added, r.written)
    decreases |stream| - i
  {
    if total < fileSize && stream[i] != END_OF_STREAM && stream[i] <= BUFFER_SIZE {
      assert IsReadResult(stream[i]);
      AccumulateOne(stream, i, written);
      ReceiveFromSums(stream, i + 1, WrapLong(total + stream[i]), written + stream[i], fileSize);
    }
  }

  /** A total that is the wrapped byte count stays so to the end of the loop. */
  lemma {:induction false} ReceiveFromWraps(stream: seq<int>, i: nat, total: int, written: nat, fileSize: int)
    requires IsStream(stream) && i < |stream| && total == WrapLong(written)
    ensures var r := ReceiveFrom(stream, i, total, written, fileSize);
      r.total == WrapLong(r.written)
    decreases |stream| - i
  {
    if total < fileSize && stream[i] != END_OF_STREAM && stream[i] <= BUFFER_SIZE {
      assert IsReadResult(stream[i]);
      WrapLongAdd(written, stream[i]);
      ReceiveFromWraps(stream, i + 1, WrapLong(total + stream[i]), written + stream[i], fileSize);
    }
  }

  /** The loop only reads while the running total is below the size. */
  lemma {:induction false} ReceiveFromBelow(stream: seq<int>, i: nat, total: int, written: nat, fileSize: int)
    requires IsStream(stream) && i < |stream| && FitsBuffer(stream, i)
    requires written == Sum(stream[..i]) && total == WrapLong(written)
    ensures var r := ReceiveFrom(stream, i, total, written, fileSize);
      r.consumed <= |stream| && BelowSizeBefore(stream, i, r.consumed, fileSize)
    decreases |stream| - i
  {
    var r := ReceiveFrom(stream, i, total, written, fileSize);
    if total < fileSize && stream[i] != END_OF_STREAM && stream[i] <= BUFFER_SIZE {
      assert IsReadResult(stream[i]);
      AccumulateOne(stream, i, written);
      ReceiveFromBelow(stream, i + 1, WrapLong(total + stream[i]), written + stream[i], fileSize);
      assert BelowSizeBefore(stream, i + 1, r.consumed, fileSize);
    } else if total < fileSize {
      assert r.consumed == i + 1;
    }
  }

  /** The whole loop: it reads exactly one value per iteration and never past the end of
      the stream; it runs not at all when the size is at most 0 and at least once
      otherwise; and it stops exactly at the first point where the total has reached the
      size, a value is -1, or a value overruns the buffer. */
  lemma ReceiveMeaning(stream: seq<int>, fileSize: int)
    requires IsStream(stream)
    ensures var r := Receive(stream, fileSize);
      var added := if r.stop == Reached then r.consumed else r.consumed - 1;
      && 0 <= added <= r.consumed <= |stream|
      && (r.consumed == 0 <==> fileSize <= 0)
      && r.written == Sum(stream[..added]) && r.total == WrapLong(r.written)
      && FitsBuffer(stream, added)
      && BelowSizeBefore(stream, 0, r.consumed, fileSize)
      && (r.stop == Reached ==> r.total >= fileSize)
      && (r.stop == EndOfStream ==> r.consumed > 0 && stream[r.consumed - 1] == END_OF_STREAM)
      && (r.stop == BufferOverrun ==> r.consumed > 0 && stream[r.consumed - 1] > BUFFER_SIZE)
  {
    assert stream[..0] == [];
    ReceiveFromStops(stream, 0, 0, 0, fileSize);
    ReceiveFromSums(stream, 0, 0, 0, fileSize);
    ReceiveFromWraps(stream, 0, 0, 0, fileSize);
    var r := Receive(stream, fileSize);
    assert SumsTo(stream, if r.stop == Reached then r.consumed else r.consumed - 1, r.written);
    ReceiveFromBelow(stream, 0, 0, 0, fileSize);
  }

  /** A sum of values in 0..4096 whose every proper prefix stayed below a size that
      leaves room for one more buffer's worth never leaves the `long` range. */
  lemma {:induction false} PrefixSumsFit(stream: seq<int>, n: nat, fileSize: int)
    requires n <= |stream|
    requires fileSize <= LONG_MAX - BUFFER_SIZE + 1
    requires FitsBuffer(stream, n)
    requires BelowSizeBefore(stream, 0, n, fileSize)
    ensures 0 <= Sum(stream[..n]) <= LONG_MAX
    decreases n
  {
    if n > 0 {
      PrefixSumsFit(stream, n - 1, fileSize);
      assert stream[..n][..n - 1] == stream[..n - 1];
      assert Sum(stream[..n]) == Sum(stream[..n - 1]) + stream[n - 1];
    }
  }

  /** Unless the declared size is within one buffer of the largest `long`, the total
      never wraps: it equals the number of bytes written, starts at 0 and only grows,
      by each value read. */
  lemma ReceiveNoWrap(stream: seq<int>, fileSize: int)
    requires IsStream(stream) && fileSize <= LONG_MAX - BUFFER_SIZE + 1
    ensures var r := Receive(stream, fileSize);
      var added := if r.stop == Reached then r.consumed else r.consumed - 1;
      && r.total == r.written
      && added <= |stream|
      && forall j, k :: 0 <= j <= k <= added ==> 0 <= Sum(stream[..j]) <= Sum(stream[..k]) == WrapLong(Sum(stream[..k]))
  {
    var r := Receive(stream, fileSize);
    var added := if r.stop == Reached then r.consumed else r.consumed - 1;
    ReceiveMeaning(stream, fileSize);
    PrefixSumsFit(stream, added, fileSize);
    forall j, k | 0 <= j <= k <= added
      ensures 0 <= Sum(stream[..j]) <= Sum(stream[..k]) == WrapLong(Sum(stream[..k]))
    {
      PrefixSumsFit(stream, k, fileSize);
      SumGrows(stream, j, k);
    }
  }

  lemma {:induction false} SumGrows(stream: seq<int>, j: nat, k: nat)
    requires j <= k <= |stream|
    requires forall x :: 0 <= x < k ==> stream[x] >= 0
    ensures 0 <= Sum(stream[..j]) <= Sum(stream[..k])
    decreases k
  {
    if k > 0 {
      assert stream[..k][..k - 1] == stream[..k - 1];
      if j < k {
        SumGrows(stream, j, k - 1);
      } else {
        SumGrows(stream, j - 1, k - 1);
        assert stream[..j][..j - 1] == stream[..j - 1];
      }
    }
  }

  /** One character read can satisfy a many-byte size: 'A' (code 65) alone makes the
      total 65, so a declared size of 65 ends the loop after a single read. */
  lemma OneCharacterCountsAsItsCode()
    ensures Receive([65, END_OF_STREAM], 65) == Receipt(65, 1, 65, Reached)
  {
    assert WrapLong(0 + 65) == 65;
    assert ReceiveFrom([65, END_OF_STREAM], 1, 65, 65, 65) == Receipt(65, 1, 65, Reached);
  }

  /** The server's twin of the loop, which also answers its own client: the completion
      notice after the loop, the error notice when the file cannot be opened (the
      IOException is caught), and nothing when the write past the buffer escapes. */
  function ServerReceive(stream: seq<int>, fileSize: int, opens: bool): (replies: seq<string>)
    requires IsStream(stream)
    ensures |replies| <= 1
    ensures !opens ==> replies == [RECEIVE_ERROR]
    ensures opens ==> replies == [] || replies == [RECEIVED_NOTICE]
  {
    if !opens then [RECEIVE_ERROR]
    else if Receive(stream, fileSize).stop == BufferOverrun then []
    else [RECEIVED_NOTICE]
  }

  /** The server's twin replies exactly once unless the loop meets a value above 4096
      while every earlier value fitted and the total was still below the size, and the
      reply is the completion notice exactly when the file opened. */
  lemma ServerReceiveReplies(stream: seq<int>, fileSize: int, opens: bool)
    requires IsStream(stream)
    ensures var replies := ServerReceive(stream, fileSize, opens);
      && |replies| <= 1
      && (|replies| == 0 <==> opens && exists k :: 0 <= k < |stream| && stream[k] > BUFFER_SIZE && FitsBuffer(stream, k) && BelowSizeBefore(stream, 0, k + 1, fileSize))
      && (replies == [RECEIVED_NOTICE] <==> opens && |replies| == 1)
  {
    var r := Receive(stream, fileSize);
    ReceiveMeaning(stream, fileSize);
    if opens && r.stop == BufferOverrun {
      var k := r.consumed - 1;
      assert stream[k] > BUFFER_SIZE && FitsBuffer(stream, k) && BelowSizeBefore(stream, 0, k + 1, fileSize);
    } else if opens {
      if k :| 0 <= k < |stream| && stream[k] > BUFFER_SIZE && FitsBuffer(stream, k) && BelowSizeBefore(stream, 0, k + 1, fileSize) {
        assert false;
      }
    }
  }
}
