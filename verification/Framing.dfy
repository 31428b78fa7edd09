/**
 Length-prefixed frames over a byte stream (crates/proto/src/lib.rs). The JSON
 text inside a frame is left abstract: payloads are byte sequences.
 */
module Framing {
  import opened Common

  type Byte = x: int | 0 <= x < 256
  type Bytes = seq<Byte>

  const MAX_FRAME_BYTES: nat := 0x10_0000
  const HEADER_BYTES: nat := 4

  datatype FrameError = Io | FrameTooLarge(size: nat) | Closed

  /** `u32::to_be_bytes`. */
  function BigEndian(n: U32): (b: Bytes)
    ensures |b| == HEADER_BYTES
  {
    [n / 0x100_0000, n / 0x1_0000 % 0x100, n / 0x100 % 0x100, n % 0x100]
  }

  /** `u32::from_be_bytes`. */
  function FromBigEndian(b: Bytes): U32
    requires |b| == HEADER_BYTES
  {
    var b0: int, b1: int, b2: int, b3: int := b[0], b[1], b[2], b[3];
    b0 * 0x100_0000 + b1 * 0x1_0000 + b2 * 0x100 + b3
  }

  lemma BigEndianRoundTrip(n: U32)
    ensures FromBigEndian(BigEndian(n)) == n
  {
    assert n / 0x1_0000 == n / 0x100_0000 * 0x100 + n / 0x1_0000 % 0x100;
    assert n / 0x100 == n / 0x1_0000 * 0x100 + n / 0x100 % 0x100;
    assert n == n / 0x100 * 0x100 + n % 0x100;
  }

  /** At the first byte where they differ, `a` has the smaller one. */
  predicate ByteBefore(a: Bytes, b: Bytes) {
    exists i :: 0 <= i < |a| && i < |b| && a[i] < b[i] && a[..i] == b[..i]
  }

  /** Network order: headers compare byte by byte from the left as their numbers do. */
  lemma HeadersCompareAsNumbers(n: U32, m: U32)
    ensures n < m <==> ByteBefore(BigEndian(n), BigEndian(m))
  {
    if n < m {
      SmallerComesFirst(n, m);
    } else if m < n {
      SmallerComesFirst(m, n);
      NotBothBefore(BigEndian(n), BigEndian(m));
    } else {
      assert !ByteBefore(BigEndian(n), BigEndian(m));
    }
  }

  lemma NotBothBefore(a: Bytes, b: Bytes)
    requires |a| == |b| && ByteBefore(b, a)
    ensures !ByteBefore(a, b)
  {
    var j :| 0 <= j < |b| && b[j] < a[j] && b[..j] == a[..j];
    assert forall n :: 0 <= n < j ==> b[..j][n] == b[n] && a[..j][n] == a[n];
    forall i | 0 <= i < |a| && a[i] < b[i]
      ensures a[..i] != b[..i]
    {
      assert j < i ==> a[..i][j] == a[j] && b[..i][j] == b[j];
    }
  }

  lemma SmallerComesFirst(n: U32, m: U32)
    requires n < m
    ensures ByteBefore(BigEndian(n), BigEndian(m))
  {
    var a, b := BigEndian(n), BigEndian(m);
    var i := if a[0] != b[0] then 0 else if a[1] != b[1] then 1 else if a[2] != b[2] then 2 else 3;
    BigEndianRoundTrip(n);
    BigEndianRoundTrip(m);
    assert a[i] < b[i];
    assert a[..i] == b[..i];
  }

  /** One frame on the wire. */
  function Frame(payload: Bytes): Bytes
    requires |payload| <= MAX_FRAME_BYTES
  {
    BigEndian(|payload|) + payload
  }

  predicate Sendable(payloads: seq<Bytes>) {
    forall i :: 0 <= i < |payloads| ==> |payloads[i]| <= MAX_FRAME_BYTES
  }

  /** Several frames, one after the other. */
  function Frames(payloads: seq<Bytes>): Bytes
    requires Sendable(payloads)
  {
    if payloads == [] then [] else Frame(payloads[0]) + Frames(payloads[1..])
  }

  // ---- Reading and writing --------------------------------------------------------

  /** The receiving end: the bytes that will ever arrive, and how many were taken. */
  class Reader {
    const data: Bytes
    var taken: nat

    ghost predicate Valid()
      reads this
    {
      taken <= |data|
    }

    ghost function Rest(): Bytes
      reads this
      requires Valid()
    {
      data[taken..]
    }

    constructor (data: Bytes)
      ensures Valid() && Rest() == data && taken == 0 && this.data == data
    {
      this.data := data;
      this.taken := 0;
    }

    /** `read_exact`: fills the whole buffer, or takes what is left and fails. */
    method ReadExact(n: nat) returns (r: Option<Bytes>)
      requires Valid()
      modifies this
      ensures Valid()
      ensures |old(Rest())| >= n ==> r == Some(old(Rest())[..n]) && Rest() == old(Rest())[n..]
      ensures |old(Rest())| < n ==> r == None && Rest() == []
    {
      if n <= |data| - taken {
        assert data[taken..taken + n] == Rest()[..n];
        r := Some(data[taken..taken + n]);
        taken := taken + n;
      } else {
        r := None;
        taken := |data|;
      }
    }
  }

  class Writer {
    var written: Bytes

    constructor ()
      ensures written == []
    {
      written := [];
    }

    method WriteAll(bytes: Bytes)
      modifies this
      ensures written == old(written) + bytes
    {
      written := written + bytes;
    }
  }

  /** What one read makes of the remaining bytes, and what it leaves. */
  function Parse(rest: Bytes): (Result<Bytes, FrameError>, Bytes) {
    if |rest| < HEADER_BYTES then (Err(Closed), [])
    else
      var n, body := FromBigEndian(rest[..HEADER_BYTES]), rest[HEADER_BYTES..];
      if n > MAX_FRAME_BYTES then (Err(FrameTooLarge(n)), body)
      else if |body| < n then (Err(Io), [])
      else (Ok(body[..n]), body[n..])
  }

  method ReadFrame(reader: Reader) returns (r: Result<Bytes, FrameError>)
    requires reader.Valid()
    modifies reader
    ensures reader.Valid()
    ensures (r, reader.Rest()) == Parse(old(reader.Rest()))
  {
    var header := reader.ReadExact(HEADER_BYTES);
    match header {
      case None =>
        return Err(Closed);
      case Some(lenBuf) =>
        var len := FromBigEndian(lenBuf);
        if len > MAX_FRAME_BYTES {
          return Err(FrameTooLarge(len));
        }
        var body := reader.ReadExact(len);
        match body {
          case None =>
            return Err(Io);
          case Some(payload) =>
            return Ok(payload);
        }
    }
  }

  /** An oversized payload is refused before any byte is written. */
  method WriteFrame(writer: Writer, payload: Bytes) returns (r: Option<FrameError>)
    modifies writer
    ensures |payload| <= MAX_FRAME_BYTES ==> r == None && writer.written == old(writer.written) + Frame(payload)
    ensures |payload| > MAX_FRAME_BYTES ==>
              r == Some(FrameTooLarge(|payload|)) && writer.written == old(writer.written)
  {
    if |payload| > MAX_FRAME_BYTES {
      return Some(FrameTooLarge(|payload|));
    }
    writer.WriteAll(BigEndian(|payload|));
    writer.WriteAll(payload);
    assert old(writer.written) + BigEndian(|payload|) + payload == old(writer.written) + Frame(payload);
    r := None;
  }

  // ---- Whole streams ----------------------------------------------------------------

  /** Reads until the first error: the payloads, and that error. */
  function ParseAll(rest: Bytes): (seq<Bytes>, FrameError)
    decreases |rest|
  {
    var (r, left) := Parse(rest);
    match r
    case Err(e) => ([], e)
    case Ok(payload) =>
      var (payloads, e) := ParseAll(left);
      ([payload] + payloads, e)
  }

  lemma ParseFrame(payload: Bytes, more: Bytes)
    requires |payload| <= MAX_FRAME_BYTES
    ensures Parse(Frame(payload) + more) == (Ok(payload), more)
  {
    var rest := Frame(payload) + more;
    BigEndianRoundTrip(|payload|);
    assert rest[..HEADER_BYTES] == BigEndian(|payload|);
    assert rest[HEADER_BYTES..] == payload + more;
    assert (payload + more)[..|payload|] == payload;
    assert (payload + more)[|payload|..] == more;
  }

  /** A header is refused exactly when it announces more than the limit. */
  lemma OversizedHeaderIsRefused(n: U32, body: Bytes)
    ensures Parse(BigEndian(n) + body) == (Err(FrameTooLarge(n)), body) <==> n > 1024 * 1024
  {
    BigEndianRoundTrip(n);
    var rest := BigEndian(n) + body;
    assert rest[..HEADER_BYTES] == BigEndian(n) && rest[HEADER_BYTES..] == body;
  }

  /** How many whole frames fit in the first `n` bytes. */
  function WholeFrames(payloads: seq<Bytes>, n: nat): (k: nat)
    requires Sendable(payloads)
    ensures k <= |payloads|
  {
    if payloads == [] || n < HEADER_BYTES + |payloads[0]| then 0
    else 1 + WholeFrames(payloads[1..], n - HEADER_BYTES - |payloads[0]|)
  }

  /** How many bytes of the first `n` lie beyond the whole frames. */
  function Leftover(payloads: seq<Bytes>, n: nat): nat
    requires Sendable(payloads)
  {
    if payloads == [] || n < HEADER_BYTES + |payloads[0]| then n
    else Leftover(payloads[1..], n - HEADER_BYTES - |payloads[0]|)
  }

  /** `WholeFrames` and `Leftover` say where the cut falls. */
  lemma {:induction false} CutPosition(payloads: seq<Bytes>, n: nat)
    requires Sendable(payloads) && n <= |Frames(payloads)|
    ensures var k := WholeFrames(payloads, n);
            && |Frames(payloads[..k])| + Leftover(payloads, n) == n
            && (k < |payloads| ==> Leftover(payloads, n) < HEADER_BYTES + |payloads[k]|)
            && (k == |payloads| ==> Leftover(payloads, n) == 0)
    decreases |payloads|
  {
    if payloads != [] && n >= HEADER_BYTES + |payloads[0]| {
      var k := WholeFrames(payloads, n);
      CutPosition(payloads[1..], n - HEADER_BYTES - |payloads[0]|);
      assert payloads[..k][0] == payloads[0] && payloads[..k][1..] == payloads[1..][..k - 1];
    } else {
      assert payloads[..0] == [];
    }
  }

  /** What reading the first `n` bytes of the stream must give. */
  function CutResult(payloads: seq<Bytes>, n: nat): (seq<Bytes>, FrameError)
    requires Sendable(payloads)
  {
    (payloads[..WholeFrames(payloads, n)], if Leftover(payloads, n) < HEADER_BYTES then Closed else Io)
  }

  /**
   Cut a stream of frames anywhere: the reader gets exactly the frames that are
   whole, then `Closed` if the cut left no more than a partial header, and an I/O
   error if it fell inside a payload.
   */
  lemma {:induction false} TruncatedStream(payloads: seq<Bytes>, n: nat)
    requires Sendable(payloads) && n <= |Frames(payloads)|
    ensures ParseAll(Frames(payloads)[..n]) == CutResult(payloads, n)
    decreases |payloads|
  {
    if payloads == [] {
      assert Frames(payloads)[..n] == [];
    } else if n < HEADER_BYTES + |payloads[0]| {
      CutWithinFirst(payloads, n);
    } else {
      TruncatedStream(payloads[1..], n - HEADER_BYTES - |payloads[0]|);
      CutBeyondFirst(payloads, n);
    }
  }

  lemma CutBeyondFirst(payloads: seq<Bytes>, n: nat)
    requires Sendable(payloads) && payloads != [] && HEADER_BYTES + |payloads[0]| <= n <= |Frames(payloads)|
    requires var m := n - HEADER_BYTES - |payloads[0]|;
             ParseAll(Frames(payloads[1..])[..m]) == CutResult(payloads[1..], m)
    ensures ParseAll(Frames(payloads)[..n]) == CutResult(payloads, n)
  {
    CutOfFrames(payloads, n);
    CutAfterFirst(payloads, n, Frames(payloads[1..])[..n - HEADER_BYTES - |payloads[0]|]);
  }

  lemma CutOfFrames(payloads: seq<Bytes>, n: nat)
    requires Sendable(payloads) && payloads != [] && HEADER_BYTES + |payloads[0]| <= n <= |Frames(payloads)|
    ensures Frames(payloads)[..n] == Frame(payloads[0]) + Frames(payloads[1..])[..n - HEADER_BYTES - |payloads[0]|]
  {
  }

  lemma CutAfterFirst(payloads: seq<Bytes>, n: nat, cut: Bytes)
    requires Sendable(payloads) && payloads != [] && HEADER_BYTES + |payloads[0]| <= n
    requires ParseAll(cut) == CutResult(payloads[1..], n - HEADER_BYTES - |payloads[0]|)
    ensures ParseAll(Frame(payloads[0]) + cut) == CutResult(payloads, n)
  {
    ParseFrameFirst(payloads[0], cut);
    CutResultOfCons(payloads, n);
  }

  lemma CutResultOfCons(payloads: seq<Bytes>, n: nat)
    requires Sendable(payloads) && payloads != [] && HEADER_BYTES + |payloads[0]| <= n
    ensures var r := CutResult(payloads[1..], n - HEADER_BYTES - |payloads[0]|);
            CutResult(payloads, n) == ([payloads[0]] + r.0, r.1)
  {
    var k := WholeFrames(payloads[1..], n - HEADER_BYTES - |payloads[0]|);
    assert [payloads[0]] + payloads[1..][..k] == payloads[..k + 1];
  }

  lemma ParseFrameFirst(first: Bytes, more: Bytes)
    requires |first| <= MAX_FRAME_BYTES
    ensures ParseAll(Frame(first) + more) == ([first] + ParseAll(more).0, ParseAll(more).1)
  {
    ParseFrame(first, more);
  }

  lemma CutWithinFirst(payloads: seq<Bytes>, n: nat)
    requires Sendable(payloads) && n <= |Frames(payloads)|
    requires payloads != [] && n < HEADER_BYTES + |payloads[0]|
    ensures ParseAll(Frames(payloads)[..n]) == CutResult(payloads, n)
  {
    assert payloads[..0] == [];
    if n >= HEADER_BYTES {
      CutInsidePayload(payloads[0], Frames(payloads[1..]), n);
    }
  }

  lemma CutInsidePayload(first: Bytes, more: Bytes, n: nat)
    requires |first| <= MAX_FRAME_BYTES && HEADER_BYTES <= n < HEADER_BYTES + |first|
    ensures Parse((Frame(first) + more)[..n]) == (Err(Io), [])
  {
    var cut := (Frame(first) + more)[..n];
    BigEndianRoundTrip(|first|);
    assert cut[..HEADER_BYTES] == BigEndian(|first|);
  }

  /** An uncut stream gives back exactly the payloads, then `Closed`. */
  lemma StreamRoundTrip(payloads: seq<Bytes>)
    requires Sendable(payloads)
    ensures ParseAll(Frames(payloads)) == (payloads, Closed)
  {
    var wire := Frames(payloads);
    assert wire[..|wire|] == wire;
    TruncatedStream(payloads, |wire|);
    CutPosition(payloads, |wire|);
    AllFramesWhole(payloads);
    assert payloads[..|payloads|] == payloads;
  }

  lemma {:induction false} AllFramesWhole(payloads: seq<Bytes>)
    requires Sendable(payloads)
    ensures WholeFrames(payloads, |Frames(payloads)|) == |payloads|
  {
    if payloads != [] {
      AllFramesWhole(payloads[1..]);
    }
  }

  /** The server's read loop: takes frames until one fails. */
  method ReadAll(reader: Reader) returns (payloads: seq<Bytes>, last: FrameError)
    requires reader.Valid()
    modifies reader
    ensures (payloads, last) == ParseAll(old(reader.Rest()))
  {
    payloads := [];
    assert [] + ParseAll(reader.Rest()).0 == ParseAll(reader.Rest()).0;
    while true
      invariant reader.Valid()
      invariant ParseAll(old(reader.Rest()))
                == (payloads + ParseAll(reader.Rest()).0, ParseAll(reader.Rest()).1)
      decreases |reader.Rest()|
    {
      ghost var before := payloads;
      var r := ReadFrame(reader);
      match r {
        case Err(e) =>
          assert before + [] == payloads;
          return payloads, e;
        case Ok(payload) =>
          payloads := payloads + [payload];
          assert forall more: seq<Bytes> :: before + ([payload] + more) == payloads + more;
      }
    }
  }
}
