/** The frames a worker process writes and its parent reads, over a pipe that delivers them in
    chunks of any size. */
module ReplyFraming {
  import opened CliValues
  import opened Subsequences

  type Byte = b: int | 0 <= b < 256

  const NEWLINE: Byte := 10
  const SPACE: Byte := 32
  const ZERO := 48
  const HEADER_LIMIT := 50

  datatype Status = Return | Exception

  datatype Frame = Frame(status: Status, payload: seq<Byte>)

  // ---------------------------------------------------------------- the writer

  function StatusBytes(s: Status): seq<Byte> {
    match s
    case Return => [82, 69, 84, 85, 82, 78]
    case Exception => [69, 88, 67, 69, 80, 84, 73, 79, 78]
  }

  function Digits(n: nat): (r: seq<Byte>)
    ensures r != []
  {
    if n < 10 then [ZERO + n] else Digits(n / 10) + [ZERO + n % 10]
  }

  function Header(f: Frame): seq<Byte> {
    StatusBytes(f.status) + [SPACE] + Digits(|f.payload|)
  }

  function Encode(f: Frame): seq<Byte> {
    Header(f) + [NEWLINE] + f.payload
  }

  function EncodeAll(frames: seq<Frame>): seq<Byte> {
    if frames == [] then [] else Encode(frames[0]) + EncodeAll(frames[1..])
  }

  lemma {:induction false} EncodeAllSnoc(frames: seq<Frame>, f: Frame)
    ensures EncodeAll(frames + [f]) == EncodeAll(frames) + Encode(f)
  {
    if frames == [] {
      assert [] + [f] == [f] && [f][1..] == [];
      assert EncodeAll([f]) == Encode(f) + [];
    } else {
      EncodeAllSnoc(frames[1..], f);
      ConcatTail(frames, [f]);
      ConcatAssoc(Encode(frames[0]), EncodeAll(frames[1..]), Encode(f));
    }
  }

  // The writing half of `process_worker`'s loop.
  method WriteReplies(frames: seq<Frame>) returns (out: seq<Byte>)
    ensures out == EncodeAll(frames)
  {
    out := [];
    for i := 0 to |frames|
      invariant out == EncodeAll(frames[..i])
    {
      EncodeAllSnoc(frames[..i], frames[i]);
      assert frames[..i] + [frames[i]] == frames[..i + 1];
      ConcatAssoc(out, Header(frames[i]) + [NEWLINE], frames[i].payload);
      out := out + (StatusBytes(frames[i].status) + [SPACE] + Digits(|frames[i].payload|) + [NEWLINE]);
      out := out + frames[i].payload;
    }
    assert frames[..|frames|] == frames;
  }

  // ---------------------------------------------------------------- the reader

  function IndexOf(s: seq<Byte>, b: Byte): (i: nat)
    ensures i <= |s|
    ensures i < |s| ==> s[i] == b
  {
    if s == [] || s[0] == b then 0 else 1 + IndexOf(s[1..], b)
  }

  function ParseDigits(s: seq<Byte>): Option<nat> {
    if s == [] then None
    else
      var n, d := |s| - 1, s[|s| - 1] - ZERO;
      if !(0 <= d < 10) then None
      else if n == 0 then Some(d)
      else
        match ParseDigits(s[..n])
        case None => None
        case Some(k) => Some(10 * k + d)
  }

  // `status, length = header.split(b" ")`, the check of the status, and `int(length)`.
  function ParseHeader(h: seq<Byte>): Option<(Status, nat)> {
    var i := IndexOf(h, SPACE);
    if i == |h| || IndexOf(h[i + 1..], SPACE) < |h| - i - 1 then None
    else
      var n := ParseDigits(h[i + 1..]);
      if n.None? then None
      else if h[..i] == StatusBytes(Return) then Some((Return, n.value))
      else if h[..i] == StatusBytes(Exception) then Some((Exception, n.value))
      else None
  }

  // The frame at the front of a stream, and what follows it.
  function Decode(s: seq<Byte>): Option<(Frame, seq<Byte>)> {
    var i := IndexOf(s, NEWLINE);
    if i == |s| then None
    else
      var h, rest := ParseHeader(s[..i]), s[i + 1..];
      if h.None? || h.value.1 > |rest| then None
      else Some((Frame(h.value.0, rest[..h.value.1]), rest[h.value.1..]))
  }

  // ---------------------------------------------------------------- round trip

  lemma {:induction false} ParseWritten(n: nat)
    ensures ParseDigits(Digits(n)) == Some(n)
    ensures SPACE !in Digits(n) && NEWLINE !in Digits(n)
    decreases n
  {
    if n >= 10 {
      ParseWritten(n / 10);
      assert Digits(n)[..|Digits(n)| - 1] == Digits(n / 10);
    }
  }

  lemma {:induction false} IndexOfAfter(a: seq<Byte>, b: Byte, rest: seq<Byte>)
    requires b !in a
    ensures IndexOf(a + [b] + rest, b) == |a|
  {
    if a != [] {
      assert a[0] in a;
      IndexOfAfter(a[1..], b, rest);
      assert (a + [b] + rest)[1..] == a[1..] + [b] + rest;
    }
  }

  lemma HeaderParses(f: Frame)
    ensures ParseHeader(Header(f)) == Some((f.status, |f.payload|))
    ensures NEWLINE !in Header(f)
  {
    var s, d := StatusBytes(f.status), Digits(|f.payload|);
    ParseWritten(|f.payload|);
    IndexOfAfter(s, SPACE, d);
    assert Header(f)[|s| + 1..] == d && Header(f)[..|s|] == s;
    assert |StatusBytes(Return)| != |StatusBytes(Exception)|;
  }

  lemma DecodeEncoded(f: Frame, rest: seq<Byte>)
    ensures Decode(Encode(f) + rest) == Some((f, rest))
    ensures IndexOf(Encode(f) + rest, NEWLINE) == |Header(f)|
  {
    var h, s := Header(f), Encode(f) + rest;
    HeaderParses(f);
    assert s == h + [NEWLINE] + (f.payload + rest);
    IndexOfAfter(h, NEWLINE, f.payload + rest);
    assert s[..|h|] == h && s[|h| + 1..] == f.payload + rest;
    assert (f.payload + rest)[..|f.payload|] == f.payload && (f.payload + rest)[|f.payload|..] == rest;
  }

  // ---------------------------------------------------------------- what the reader accepts

  predicate IsNumber(d: seq<Byte>) {
    d != [] && forall i :: 0 <= i < |d| ==> ZERO <= d[i] < ZERO + 10
  }

  function NumberOf(d: seq<Byte>): int {
    if d == [] then 0 else 10 * NumberOf(d[..|d| - 1]) + (d[|d| - 1] - ZERO)
  }

  lemma {:induction false} DigitsExactly(d: seq<Byte>)
    ensures ParseDigits(d).Some? <==> IsNumber(d)
    ensures ParseDigits(d).Some? ==> ParseDigits(d).value == NumberOf(d)
  {
    if |d| > 1 {
      DigitsExactly(d[..|d| - 1]);
      assert d == d[..|d| - 1] + [d[|d| - 1]];
    } else if |d| == 1 {
      assert d[..0] == [];
    }
  }

  lemma {:induction false} IndexOfNone(s: seq<Byte>, b: Byte)
    ensures IndexOf(s, b) == |s| <==> b !in s
    ensures b !in s[..IndexOf(s, b)]
  {
    if s != [] && s[0] != b {
      IndexOfNone(s[1..], b);
      assert s[..IndexOf(s, b)] == [s[0]] + s[1..][..IndexOf(s[1..], b)];
    }
  }

  // The header the reader takes for this status and length.
  ghost predicate IsHeader(h: seq<Byte>, status: Status, n: int) {
    exists d :: h == StatusBytes(status) + [SPACE] + d && IsNumber(d) && NumberOf(d) == n
  }

  lemma HeaderFormed(h: seq<Byte>, status: Status, n: nat, d: seq<Byte>)
    requires h == StatusBytes(status) + [SPACE] + d && IsNumber(d) && NumberOf(d) == n
    ensures ParseHeader(h) == Some((status, n))
  {
    var s := StatusBytes(status);
    IndexOfAfter(s, SPACE, d);
    assert h[|s| + 1..] == d && h[..|s|] == s;
    DigitsExactly(d);
    IndexOfNone(d, SPACE);
    assert |StatusBytes(Return)| != |StatusBytes(Exception)|;
  }

  // Main result: the reader accepts exactly the headers of a known status, one space and a decimal
  // number, and takes them for that status and that number.
  lemma HeaderExactly(h: seq<Byte>, status: Status, n: nat)
    ensures ParseHeader(h) == Some((status, n)) <==> IsHeader(h, status, n)
  {
    if ParseHeader(h) == Some((status, n)) {
      var i := IndexOf(h, SPACE);
      var d := h[i + 1..];
      DigitsExactly(d);
      assert h == h[..i] + [SPACE] + d;
    }
    if IsHeader(h, status, n) {
      var d :| h == StatusBytes(status) + [SPACE] + d && IsNumber(d) && NumberOf(d) == n;
      HeaderFormed(h, status, n, d);
    }
  }

  // Main result: and a frame is read exactly where such a header, a newline and as many bytes as the
  // header says stand in front.
  lemma DecodeExactly(s: seq<Byte>, f: Frame, rest: seq<Byte>)
    ensures Decode(s) == Some((f, rest))
            <==> exists h :: IsHeader(h, f.status, |f.payload|) && s == h + [NEWLINE] + f.payload + rest
  {
    hide ParseHeader, IsHeader;
    if Decode(s) == Some((f, rest)) {
      var i := IndexOf(s, NEWLINE);
      var h := s[..i];
      HeaderExactly(h, f.status, |f.payload|);
      assert s == h + [NEWLINE] + s[i + 1..];
      assert s[i + 1..] == f.payload + rest;
      ConcatAssoc(h + [NEWLINE], f.payload, rest);
    }
    if h :| IsHeader(h, f.status, |f.payload|) && s == h + [NEWLINE] + f.payload + rest {
      HeaderExactly(h, f.status, |f.payload|);
      HeaderPlain(h, f.status, |f.payload|);
      ConcatAssoc(h + [NEWLINE], f.payload, rest);
      IndexOfAfter(h, NEWLINE, f.payload + rest);
      assert s[..|h|] == h && s[|h| + 1..] == f.payload + rest;
      assert (f.payload + rest)[..|f.payload|] == f.payload && (f.payload + rest)[|f.payload|..] == rest;
    }
  }

  lemma HeaderPlain(h: seq<Byte>, status: Status, n: int)
    requires IsHeader(h, status, n)
    ensures NEWLINE !in h
  {
  }

  // ---------------------------------------------------------------- the buffered stream

  ghost predicate OccursAt(s: seq<Byte>, d: seq<Byte>, k: nat) {
    k + |d| <= |s| && s[k..k + |d|] == d
  }

  // d first occurs in s at k.
  ghost predicate FirstAt(s: seq<Byte>, d: seq<Byte>, k: nat) {
    OccursAt(s, d, k) && forall j: nat :: j < k ==> !OccursAt(s, d, j)
  }

  datatype Received = Bytes(value: seq<Byte>) | IncompleteRead | DelimiterNotFound

  /** The pipe from a worker: the bytes it has sent, or is yet to send, and nobody has read. */
  class Pipe {
    var bytes: seq<Byte>

    constructor ()
      ensures bytes == []
    {
      bytes := [];
    }

    // The two writes of one reply.
    method Reply(f: Frame)
      modifies this
      ensures bytes == old(bytes) + Encode(f)
    {
      ConcatAssoc(bytes, Header(f) + [NEWLINE], f.payload);
      bytes := bytes + (Header(f) + [NEWLINE]);
      bytes := bytes + f.payload;
    }

    // The transport hands over some bytes, as many as it likes up to a maximum.
    method Receive(max: nat) returns (chunk: seq<Byte>)
      requires bytes != [] && max > 0
      modifies this
      ensures chunk != [] && |chunk| <= max && chunk + bytes == old(bytes)
    {
      var n: nat :| 1 <= n <= |bytes| && n <= max;
      chunk := bytes[..n];
      bytes := bytes[n..];
    }
  }

  /** `BufferedByteReceiveStream`. */
  class BufferedReceiveStream {
    var buffer: seq<Byte>
    const pipe: Pipe

    constructor (pipe: Pipe)
      ensures buffer == [] && this.pipe == pipe
    {
      buffer, this.pipe := [], pipe;
    }

    function Stream(): seq<Byte>
      reads this, pipe
    {
      buffer + pipe.bytes
    }

    method ReceiveExactly(nbytes: nat) returns (r: Received)
      modifies this, pipe
      ensures nbytes <= |old(Stream())| ==> r == Bytes(old(Stream())[..nbytes]) && Stream() == old(Stream())[nbytes..]
      ensures nbytes > |old(Stream())| ==> r == IncompleteRead && Stream() == old(Stream())
    {
      ghost var all := Stream();
      while |buffer| < nbytes
        invariant Stream() == all
        decreases |pipe.bytes|
      {
        if pipe.bytes == [] {
          return IncompleteRead;
        }
        var chunk := pipe.Receive(nbytes - |buffer|);
        buffer := buffer + chunk;
      }
      r := Bytes(buffer[..nbytes]);
      assert buffer[..nbytes] == all[..nbytes];
      buffer := buffer[nbytes..];
    }

    // `buffer.find(delimiter, offset)`
    method Find(delimiter: seq<Byte>, offset: nat) returns (index: int)
      ensures index >= 0 ==> offset <= index && OccursAt(buffer, delimiter, index)
      ensures forall j: nat :: offset <= j && (index < 0 || j < index) ==> !OccursAt(buffer, delimiter, j)
    {
      index := offset;
      while index + |delimiter| <= |buffer|
        invariant index >= offset
        invariant forall j: nat :: offset <= j < index ==> !OccursAt(buffer, delimiter, j)
      {
        if buffer[index..index + |delimiter|] == delimiter {
          return;
        }
        index := index + 1;
      }
      index := -1;
    }

    // The search resumes where an occurrence could have been cut off by the end of the buffer.
    method ReceiveUntil(delimiter: seq<Byte>, max: nat) returns (r: Received)
      requires delimiter != []
      modifies this, pipe
      ensures r.Bytes? ==>
                var k := |r.value|;
                && FirstAt(old(Stream()), delimiter, k) && r.value == old(Stream())[..k]
                && Stream() == old(Stream())[k + |delimiter|..]
      ensures !r.Bytes? ==> Stream() == old(Stream())
      ensures r.IncompleteRead? ==> forall k: nat :: !OccursAt(old(Stream()), delimiter, k)
      ensures r.DelimiterNotFound? ==> forall k: nat :: OccursAt(old(Stream()), delimiter, k) ==> k + |delimiter| > max
    {
      ghost var all := Stream();
      var offset: nat := 0;
      while true
        invariant Stream() == all && offset <= |buffer|
        invariant forall j: nat :: j < offset ==> !OccursAt(all, delimiter, j)
        decreases |pipe.bytes|
      {
        var index := Find(delimiter, offset);
        forall j: nat | j + |delimiter| <= |buffer| ensures OccursAt(buffer, delimiter, j) <==> OccursAt(all, delimiter, j) {
          assert buffer[j..j + |delimiter|] == all[j..j + |delimiter|];
        }
        if index >= 0 {
          r := Bytes(buffer[..index]);
          assert buffer[..index] == all[..index];
          buffer := buffer[index + |delimiter|..];
          return;
        }
        if |buffer| >= max {
          return DelimiterNotFound;
        }
        if pipe.bytes == [] {
          assert buffer == all;
          return IncompleteRead;
        }
        offset := if |buffer| >= |delimiter| then |buffer| - |delimiter| + 1 else 0;
        var chunk := pipe.Receive(65536);
        buffer := buffer + chunk;
      }
    }

    // The reading half of `send_raw_command`: None stands for a broken worker.
    method ReceiveReply() returns (r: Option<Frame>)
      modifies this, pipe
      ensures r.Some? ==> Decode(old(Stream())) == Some((r.value, Stream()))
      ensures Decode(old(Stream())).Some? && IndexOf(old(Stream()), NEWLINE) < HEADER_LIMIT ==> r.Some?
    {
      ghost var all := Stream();
      var line := ReceiveUntil([NEWLINE], HEADER_LIMIT);
      NewlineOccurs(all);
      if !line.Bytes? {
        return None;
      }
      FirstNewline(all, |line.value|);
      var h := ParseHeader(line.value);
      if h.None? {
        return None;
      }
      var payload := ReceiveExactly(h.value.1);
      if !payload.Bytes? {
        return None;
      }
      return Some(Frame(h.value.0, payload.value));
    }

    // One reader for everything: whatever the worker wrote, and however the pipe cuts it up, exactly the
    // frames written are read, and nothing is left over.
    method ReceiveReplies(ghost written: seq<Frame>, count: nat) returns (frames: seq<Frame>)
      requires count == |written| && Stream() == EncodeAll(written)
      requires forall i :: 0 <= i < |written| ==> |Header(written[i])| < HEADER_LIMIT
      modifies this, pipe
      ensures frames == written && Stream() == []
    {
      hide Encode, Decode, Header, IndexOf;
      frames := [];
      while |frames| < count
        invariant |frames| <= count && frames == written[..|frames|]
        invariant Stream() == EncodeAll(written[|frames|..])
      {
        ghost var k := |frames|;
        assert written[k..][1..] == written[k + 1..];
        DecodeEncoded(written[k], EncodeAll(written[k + 1..]));
        var r := ReceiveReply();
        frames := frames + [r.value];
      }
      assert written[count..] == [];
    }
  }

  const READY: seq<Byte> := [82, 69, 65, 68, 89, NEWLINE]

  // The first call of a worker: one reader takes the greeting, the reply to the initialisation and the
  // reply to the call itself.  None: the worker is given up, since its greeting came in pieces or its
  // initialisation failed.
  method FirstCall(init: Frame, reply: Frame, pipe: Pipe) returns (greeting: seq<Byte>, r: Option<Frame>)
    requires pipe.bytes == READY && |Header(init)| < HEADER_LIMIT && |Header(reply)| < HEADER_LIMIT
    modifies pipe
    ensures greeting != [] && greeting <= READY
    ensures r.Some? <==> greeting == READY && init.status.Return?
    ensures r.Some? ==> r.value == reply && pipe.bytes == []
  {
    hide Encode, Decode, Header, IndexOf;
    r := None;
    var reader := new BufferedReceiveStream(pipe);
    greeting := pipe.Receive(6);
    if greeting != READY {
      return;
    }
    assert pipe.bytes == [];
    pipe.Reply(init);
    var started := ReadOne(init, reader);
    if started.status.Exception? {
      return;
    }
    pipe.Reply(reply);
    var got := ReadOne(reply, reader);
    r := Some(got);
  }

  // One reply, alone in the pipe.
  method ReadOne(ghost f: Frame, reader: BufferedReceiveStream) returns (r: Frame)
    requires reader.buffer == [] && reader.pipe.bytes == Encode(f) && |Header(f)| < HEADER_LIMIT
    modifies reader, reader.pipe
    ensures r == f && reader.buffer == [] && reader.pipe.bytes == []
  {
    hide Encode, Decode, Header, IndexOf;
    assert reader.Stream() == Encode(f) + [];
    DecodeEncoded(f, []);
    var got := reader.ReceiveReply();
    assert reader.Stream() == [];
    r := got.value;
  }

  // Main result, for a worker's life: the first call reads with the reader that has seen the start-up,
  // and each later one with a new reader.  However the pipe cuts the replies up, every call of a worker
  // that is not given up gets its own, and no byte is left in the pipe or in a reader that is dropped.
  method Calls(init: Frame, replies: seq<Frame>, pipe: Pipe) returns (greeting: seq<Byte>, got: Option<seq<Frame>>)
    requires pipe.bytes == READY && replies != [] && |Header(init)| < HEADER_LIMIT
    requires forall i :: 0 <= i < |replies| ==> |Header(replies[i])| < HEADER_LIMIT
    modifies pipe
    ensures greeting != [] && greeting <= READY
    ensures got.Some? <==> greeting == READY && init.status.Return?
    ensures got.Some? ==> got.value == replies && pipe.bytes == []
  {
    hide Encode, Header;
    var first;
    greeting, first := FirstCall(init, replies[0], pipe);
    if first.None? {
      return greeting, None;
    }
    var frames := [first.value];
    while |frames| < |replies|
      invariant 0 < |frames| <= |replies| && frames == replies[..|frames|] && pipe.bytes == []
    {
      var f := replies[|frames|];
      var reader := new BufferedReceiveStream(pipe);
      pipe.Reply(f);
      var reply := ReadOne(f, reader);
      frames := frames + [reply];
    }
    got := Some(frames);
  }

  lemma {:induction false} NewlineOccurs(s: seq<Byte>)
    ensures IndexOf(s, NEWLINE) < |s| ==> OccursAt(s, [NEWLINE], IndexOf(s, NEWLINE))
  {
  }

  lemma FirstNewline(s: seq<Byte>, k: nat)
    requires FirstAt(s, [NEWLINE], k)
    ensures IndexOf(s, NEWLINE) == k && k < |s|
  {
    assert s[k] == s[k..k + 1][0];
    NewlineNotBefore(s, k);
    if IndexOf(s, NEWLINE) < k {
      assert OccursAt(s, [NEWLINE], IndexOf(s, NEWLINE));
    }
  }

  lemma {:induction false} NewlineNotBefore(s: seq<Byte>, k: nat)
    requires k < |s| && s[k] == NEWLINE
    ensures IndexOf(s, NEWLINE) <= k
  {
    if k > 0 {
      NewlineNotBefore(s[1..], k - 1);
    }
  }

  lemma {:induction false} DigitCount(n: nat, k: nat)
    requires k > 0 && n < Power10(k)
    ensures |Digits(n)| <= k
  {
    if n >= 10 {
      DigitCount(n / 10, k - 1);
    }
  }

  function Power10(k: nat): nat {
    if k == 0 then 1 else 10 * Power10(k - 1)
  }

  // The header limit only excludes payloads of 10 to the 39 bytes and more.
  lemma HeadersFit(f: Frame)
    requires |f.payload| < Power10(39)
    ensures |Header(f)| < HEADER_LIMIT
  {
    DigitCount(|f.payload|, 39);
  }
}
