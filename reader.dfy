/**
 * The lexer's byte cursor: single-byte reads over a byte source, with one
 * byte of pushback, and the multi-byte read the keyword match uses.
 */
module ByteReader {
  import opened Wrappers
  import opened Bytes
  import opened LexErrors

  /** What the underlying `io.Reader` answers once its bytes are used up. */
  datatype SourceEnd =
    | EndOfFile         // zero bytes and io.EOF
    | Fails(code: int)  // zero bytes and another error
    | Stalls            // zero bytes and no error

  /** The error a read gets from an exhausted source; none from a stalling one. */
  function ExhaustedError(e: SourceEnd): Option<LexError> {
    match e
    case EndOfFile => Some(Eof)
    case Fails(c) => Some(IoFailure(c))
    case Stalls => None
  }

  /** The error `ReadByte` reports at the end of the source: a stalling source gives ErrNoRead. */
  function EndError(e: SourceEnd): LexError {
    match e
    case EndOfFile => Eof
    case Fails(c) => IoFailure(c)
    case Stalls => NoRead
  }

  /** Go's `byte(x)` on the int16 `lastByte`: a byte is itself, and -1 becomes 255. */
  function LowByte(x: int): (b: byte)
    requires -1 <= x < 256
    ensures 0 <= x ==> b as int == x
  {
    if x < 0 then 255 else x as byte
  }

  /** A multi-byte read: the buffer, the number of source bytes in it, and the error. */
  datatype ReadResult = ReadResult(buf: seq<byte>, n: nat, err: Option<LexError>)

  /**
   * What a read of `k` bytes at `offset` delivers: the next `k` source bytes, or, when
   * fewer remain, those bytes followed by zeros together with the exhausted source's error.
   */
  function ReadFull(data: seq<byte>, offset: nat, k: nat, e: SourceEnd): (r: ReadResult)
    requires offset <= |data|
    ensures |r.buf| == k
    ensures r.n == (if offset + k <= |data| then k else |data| - offset)
    ensures r.buf[..r.n] == data[offset..offset + r.n]
    ensures forall i :: r.n <= i < k ==> r.buf[i] == 0
    ensures r.err.None? <==> r.n == k || e.Stalls?
  {
    if offset + k <= |data| then ReadResult(data[offset..offset + k], k, None)
    else ReadResult(data[offset..] + Zeros(offset + k - |data|), |data| - offset, ExhaustedError(e))
  }

  /** `lexer.Reader`: a byte source, the last byte read and the pushback flag. */
  class Reader {
    const data: seq<byte>
    const end: SourceEnd
    var offset: nat
    var lastByte: int  // an int16 holding a byte, or -1 after a multi-byte read
    var lastByteAsNext: bool

    ghost predicate Valid()
      reads this
    {
      offset <= |data| && -1 <= lastByte < 256
    }

    /** The bytes the next single-byte reads deliver: the pushed-back byte, if any, then the unread source. */
    ghost function Pending(): seq<byte>
      reads this
      requires Valid()
    {
      if lastByteAsNext then [LowByte(lastByte)] + data[offset..] else data[offset..]
    }

    /** A reader over a fresh source; Go's zero value leaves `lastByte` at 0. */
    constructor (data: seq<byte>, end: SourceEnd)
      ensures Valid() && this.data == data && this.end == end
      ensures offset == 0 && lastByte == 0 && !lastByteAsNext
    {
      this.data := data;
      this.end := end;
      offset := 0;
      lastByte := 0;
      lastByteAsNext := false;
    }

    /** `Read` (readBytes): fill a buffer of `k` bytes from the source, bypassing the pushback slot. */
    method Read(k: nat) returns (buf: seq<byte>, n: nat, err: Option<LexError>)
      requires Valid()
      modifies this
      ensures Valid()
      ensures ReadResult(buf, n, err) == ReadFull(data, old(offset), k, end)
      ensures offset == old(offset) + n
      ensures lastByte == -1 && lastByteAsNext == old(lastByteAsNext)
    {
      if offset + k <= |data| {
        buf, n, err := data[offset..offset + k], k, None;
      } else {
        buf, n, err := data[offset..] + Zeros(offset + k - |data|), |data| - offset, ExhaustedError(end);
      }
      offset := offset + n;
      lastByte := -1;
    }

    /** `ReadByte`: the pushed-back byte if there is one, otherwise the next source byte. */
    method ReadByte() returns (b: byte, err: Option<LexError>)
      requires Valid()
      modifies this
      ensures Valid() && !lastByteAsNext
      ensures old(lastByteAsNext) ==>
        b == LowByte(old(lastByte)) && err.None? && offset == old(offset) && lastByte == old(lastByte)
      ensures !old(lastByteAsNext) && old(offset) < |data| ==>
        b == data[old(offset)] && err.None? && offset == old(offset) + 1 && lastByte == b as int
      ensures !old(lastByteAsNext) && old(offset) == |data| ==>
        b == 0 && err == Some(EndError(end)) && offset == old(offset)
        && lastByte == (if end.Stalls? then -1 else 0)
      ensures err.None? ==> old(Pending()) == [b] + Pending()
      ensures err.Some? ==> old(Pending()) == [] && Pending() == []
      ensures err.None? && (old(lastByteAsNext) ==> old(lastByte) >= 0) ==> lastByte == b as int
    {
      if lastByteAsNext {
        lastByteAsNext := false;
        return LowByte(lastByte), None;
      }
      var buf, n, e := Read(1);
      if n != 1 && e.None? {
        return 0, Some(NoRead);
      }
      lastByte := buf[0] as int;
      b, err := buf[0], e;
    }

    /** `UnreadByte`: push the last byte back; fails only when a multi-byte read came last. */
    method UnreadByte() returns (err: Option<LexError>)
      requires Valid()
      modifies this
      ensures Valid() && offset == old(offset) && lastByte == old(lastByte)
      ensures err.Some? <==> old(lastByte) == -1
      ensures err.Some? ==> err.value == UnknownIdentifier && lastByteAsNext == old(lastByteAsNext)
      ensures err.None? ==> lastByteAsNext
      ensures err.None? && !old(lastByteAsNext) ==> Pending() == [LowByte(lastByte)] + old(Pending())
    {
      if lastByte == -1 {
        return Some(UnknownIdentifier);
      }
      lastByteAsNext := true;
      err := None;
    }
  }

  /**
   * ReadByte, UnreadByte, ReadByte: a successful read is replayed once, and the
   * source advances by at most one byte over the three calls.
   */
  method ReplayLastByte(r: Reader) returns (b1: byte, b2: byte, err: Option<LexError>, e2: Option<LexError>)
    requires r.Valid() && (r.lastByteAsNext ==> r.lastByte >= 0)
    modifies r
    ensures r.Valid()
    ensures err.None? ==> e2.None? && b1 == b2 && |old(r.Pending())| > 0 && b1 == old(r.Pending())[0]
    ensures err.None? ==> r.Pending() == old(r.Pending())[1..]
    ensures err.None? ==> r.offset == old(r.offset) + (if old(r.lastByteAsNext) then 0 else 1)
  {
    var e1;
    b1, err := r.ReadByte();
    if err.Some? {
      b2, e2 := b1, err;
      return;
    }
    e1 := r.UnreadByte();
    assert e1.None?;
    b2, e2 := r.ReadByte();
  }

  /** Two UnreadByte calls in a row both succeed, and the pushback holds one byte only. */
  method UnreadTwice(r: Reader) returns (e1: Option<LexError>, e2: Option<LexError>)
    requires r.Valid() && r.lastByte != -1
    modifies r
    ensures e1.None? && e2.None?
    ensures r.Valid() && r.lastByteAsNext && r.offset == old(r.offset)
    ensures r.Pending() == [LowByte(old(r.lastByte))] + r.data[r.offset..]
  {
    e1 := r.UnreadByte();
    e2 := r.UnreadByte();
  }

  /** Before any read `lastByte` is 0, so UnreadByte then ReadByte yields the byte 0. */
  method UnreadBeforeRead(data: seq<byte>, end: SourceEnd) returns (b: byte, err: Option<LexError>)
    ensures err.None? && b == 0
  {
    var r := new Reader(data, end);
    var e := r.UnreadByte();
    b, err := r.ReadByte();
  }
}
