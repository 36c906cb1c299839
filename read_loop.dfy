/**
 * The short-read loop inside the multi-byte read of the byte cursor, over a
 * source that delivers at most `chunk` bytes per call: the loop as written,
 * and the corrected loop whose result the byte cursor's `Read` returns.
 */
module ReadLoop {
  import opened Wrappers
  import opened Bytes
  import opened ByteReader

  /** The loop's variables: the buffer, the last call's count `n`, the running total `read`, the source offset. */
  datatype LoopState = LoopState(buf: seq<byte>, n: nat, read: nat, offset: nat)

  function Min3(a: nat, b: nat, c: nat): nat {
    if a <= b && a <= c then a else if b <= c then b else c
  }

  /** One call of the source's Read into `buf[from..]`: up to `chunk` bytes, fewer when fewer remain. */
  function Deliver(data: seq<byte>, offset: nat, buf: seq<byte>, from: nat, chunk: nat): (r: (seq<byte>, nat))
    requires offset <= |data| && from <= |buf|
    ensures |r.0| == |buf| && r.1 <= |buf| - from && offset + r.1 <= |data|
    ensures r.1 == 0 <==> from == |buf| || chunk == 0 || offset == |data|
  {
    var m := Min3(|buf| - from, chunk, |data| - offset);
    (seq(|buf|, i requires 0 <= i < |buf| => if from <= i < from + m then data[offset + i - from] else buf[i]), m)
  }

  /** The loop as written: it retries into `b[n:]`, `n` being the last call's count, until `read` reaches `len(b)`; None when `fuel` runs out. */
  function LoopAsWritten(data: seq<byte>, s: LoopState, k: nat, chunk: nat, fuel: nat): (r: Option<LoopState>)
    requires s.offset <= |data| && s.n <= k && |s.buf| == k
    ensures r.Some? ==> s.read <= r.value.read && k <= r.value.read && |r.value.buf| == k && s.offset <= r.value.offset <= |data|
    decreases fuel
  {
    if s.read >= k then Some(s)
    else if fuel == 0 then None
    else
      var d := Deliver(data, s.offset, s.buf, s.n, chunk);
      LoopAsWritten(data, LoopState(d.0, d.1, s.read + d.1, s.offset + d.1), k, chunk, fuel - 1)
  }

  /** `readBytes` as written: one call into the whole buffer, then the loop. */
  function ReadBytesAsWritten(data: seq<byte>, offset: nat, k: nat, chunk: nat, fuel: nat): (r: Option<LoopState>)
    requires offset <= |data|
    ensures r.Some? ==> k <= r.value.read && |r.value.buf| == k && offset <= r.value.offset <= |data|
  {
    var d := Deliver(data, offset, Zeros(k), 0, chunk);
    LoopAsWritten(data, LoopState(d.0, d.1, d.1, offset + d.1), k, chunk, fuel)
  }

  lemma {:induction false} LoopAsWrittenSpins(data: seq<byte>, s: LoopState, k: nat, chunk: nat, fuel: nat)
    requires s.offset <= |data| && s.n <= k && |s.buf| == k
    requires s.read + (|data| - s.offset) < k
    ensures LoopAsWritten(data, s, k, chunk, fuel) == None
    decreases fuel
  {
    if fuel > 0 {
      var d := Deliver(data, s.offset, s.buf, s.n, chunk);
      LoopAsWrittenSpins(data, LoopState(d.0, d.1, s.read + d.1, s.offset + d.1), k, chunk, fuel - 1);
    }
  }

  /**
   * When fewer than `k` bytes remain, the loop as written never finishes: every
   * further call delivers nothing and `read` never reaches `k`, however much fuel.
   */
  lemma ExhaustedReadNeverReturns(data: seq<byte>, offset: nat, k: nat, chunk: nat, fuel: nat)
    requires offset <= |data| && |data| - offset < k
    ensures ReadBytesAsWritten(data, offset, k, chunk, fuel) == None
  {
    var d := Deliver(data, offset, Zeros(k), 0, chunk);
    LoopAsWrittenSpins(data, LoopState(d.0, d.1, d.1, offset + d.1), k, chunk, fuel);
  }

  /**
   * Retrying into `b[n:]` instead of `b[read:]` overwrites: "rue" delivered one
   * byte per call fills the buffer with 'r', 'e', 0, so `true` would be rejected.
   */
  lemma ShortReadsOverwrite()
    ensures ReadBytesAsWritten(Ascii("rue"), 0, 3, 1, 3)
         == Some(LoopState(['r' as byte, 'e' as byte, 0], 1, 3, 3))
  {
    var d := Ascii("rue");
    assert d == ['r' as byte, 'u' as byte, 'e' as byte];
    assert Zeros(3) == [0, 0, 0];
    assert Min3(3, 1, 3) == Min3(2, 1, 2) == Min3(2, 1, 1) == 1;
    var s0 := LoopState(['r' as byte, 0, 0], 1, 1, 1);
    var s1 := LoopState(['r' as byte, 'u' as byte, 0], 1, 2, 2);
    var s2 := LoopState(['r' as byte, 'e' as byte, 0], 1, 3, 3);
    assert Deliver(d, 0, Zeros(3), 0, 1).0 == s0.buf;
    assert Deliver(d, 1, s0.buf, 1, 1).0 == s1.buf;
    assert Deliver(d, 2, s1.buf, 1, 1).0 == s2.buf;
    assert LoopAsWritten(d, s2, 3, 1, 1) == Some(s2);
    assert LoopAsWritten(d, s1, 3, 1, 2) == Some(s2);
    assert LoopAsWritten(d, s0, 3, 1, 3) == Some(s2);
  }

  /** The corrected loop: it retries into `b[read:]` and stops when the source has nothing left. */
  function LoopCorrected(data: seq<byte>, s: LoopState, k: nat, chunk: nat, fuel: nat): Option<LoopState>
    requires s.offset <= |data| && s.read <= k && |s.buf| == k
    decreases fuel
  {
    if s.read >= k then Some(s)
    else if fuel == 0 then None
    else
      var d := Deliver(data, s.offset, s.buf, s.read, chunk);
      if d.1 == 0 then Some(s)
      else LoopCorrected(data, LoopState(d.0, d.1, s.read + d.1, s.offset + d.1), k, chunk, fuel - 1)
  }

  function ReadBytesCorrected(data: seq<byte>, offset: nat, k: nat, chunk: nat, fuel: nat): (r: Option<LoopState>)
    requires offset <= |data|
    ensures r.Some? ==> r.value.read <= k && |r.value.buf| == k && offset <= r.value.offset <= |data|
    ensures r.Some? ==> r.value.read == k || chunk == 0 || r.value.offset == |data|
  {
    LoopCorrectedBounds(data, LoopState(Zeros(k), 0, 0, offset), k, chunk, fuel);
    LoopCorrected(data, LoopState(Zeros(k), 0, 0, offset), k, chunk, fuel)
  }

  /** The corrected loop never overfills, and it stops only when the buffer is full or the source has nothing left. */
  lemma {:induction false} LoopCorrectedBounds(data: seq<byte>, s: LoopState, k: nat, chunk: nat, fuel: nat)
    requires s.offset <= |data| && s.read <= k && |s.buf| == k
    ensures var r := LoopCorrected(data, s, k, chunk, fuel);
      r.Some? ==> s.read <= r.value.read <= k && |r.value.buf| == k && s.offset <= r.value.offset <= |data|
    ensures var r := LoopCorrected(data, s, k, chunk, fuel);
      r.Some? ==> r.value.read == k || chunk == 0 || r.value.offset == |data|
    decreases fuel
  {
    if s.read < k && fuel > 0 {
      var d := Deliver(data, s.offset, s.buf, s.read, chunk);
      if d.1 > 0 {
        LoopCorrectedBounds(data, LoopState(d.0, d.1, s.read + d.1, s.offset + d.1), k, chunk, fuel - 1);
      }
    }
  }

  /** One call into `b[read:]` of a buffer holding the bytes read so far and zeros extends those bytes. */
  lemma DeliverAppends(data: seq<byte>, start: nat, offset: nat, read: nat, k: nat, chunk: nat)
    requires start + read == offset <= |data| && read <= k
    ensures var r := Deliver(data, offset, data[start..offset] + Zeros(k - read), read, chunk);
      r.0 == data[start..offset + r.1] + Zeros(k - read - r.1)
  {
    var buf := data[start..offset] + Zeros(k - read);
    var r := Deliver(data, offset, buf, read, chunk);
    var want := data[start..offset + r.1] + Zeros(k - read - r.1);
    forall i | 0 <= i < k ensures r.0[i] == want[i] {
      if i < read {
        assert buf[i] == data[start + i];
      } else if i >= read + r.1 {
        assert buf[i] == 0;
      }
    }
  }

  /** The corrected loop's invariant: the buffer holds the bytes read since `start`, then zeros. */
  predicate Filling(data: seq<byte>, start: nat, s: LoopState, k: nat) {
    && s.offset <= |data| && s.read <= k && |s.buf| == k && start + s.read == s.offset
    && s.buf == data[start..s.offset] + Zeros(k - s.read)
  }

  /** One round of the corrected loop keeps `Filling`, and reads nothing only at the end of the data. */
  lemma DeliverKeeps(data: seq<byte>, start: nat, s: LoopState, k: nat, chunk: nat)
    requires Filling(data, start, s, k) && s.read < k && chunk > 0
    ensures var d := Deliver(data, s.offset, s.buf, s.read, chunk);
      && Filling(data, start, LoopState(d.0, d.1, s.read + d.1, s.offset + d.1), k)
      && (d.1 == 0 ==> s.offset == |data|)
  {
    DeliverAppends(data, start, s.offset, s.read, k, chunk);
  }

  /** One round of the corrected loop, unfolded. */
  lemma LoopCorrectedStep(data: seq<byte>, s: LoopState, k: nat, chunk: nat, fuel: nat)
    requires s.offset <= |data| && s.read < k && |s.buf| == k && fuel > 0
    ensures var d := Deliver(data, s.offset, s.buf, s.read, chunk);
      LoopCorrected(data, s, k, chunk, fuel) ==
        if d.1 == 0 then Some(s)
        else LoopCorrected(data, LoopState(d.0, d.1, s.read + d.1, s.offset + d.1), k, chunk, fuel - 1)
  {
  }

  /** The corrected loop's outcome: it ends, filling, with the buffer full or the data used up. */
  predicate Filled(data: seq<byte>, start: nat, k: nat, r: Option<LoopState>) {
    r.Some? && Filling(data, start, r.value, k) && (r.value.read == k || r.value.offset == |data|)
  }

  lemma {:induction false} LoopCorrectedFills(data: seq<byte>, start: nat, s: LoopState, k: nat, chunk: nat, fuel: nat)
    requires Filling(data, start, s, k) && chunk > 0 && fuel >= k - s.read + 1
    ensures Filled(data, start, k, LoopCorrected(data, s, k, chunk, fuel))
    decreases fuel
  {
    if s.read < k {
      var d := Deliver(data, s.offset, s.buf, s.read, chunk);
      LoopCorrectedStep(data, s, k, chunk, fuel);
      if d.1 > 0 {
        DeliverKeeps(data, start, s, k, chunk);
        LoopCorrectedFills(data, start, LoopState(d.0, d.1, s.read + d.1, s.offset + d.1), k, chunk, fuel - 1);
      }
    }
  }

  /**
   * Whatever the chunk size, the corrected loop delivers exactly what the byte
   * cursor's `Read` is specified to deliver: the next `k` bytes, or all that remain.
   */
  lemma CorrectedReadMatchesReadFull(data: seq<byte>, offset: nat, k: nat, chunk: nat, fuel: nat, e: SourceEnd)
    requires offset <= |data| && chunk > 0 && fuel > k
    ensures var r := ReadBytesCorrected(data, offset, k, chunk, fuel);
      && r.Some? && r.value.buf == ReadFull(data, offset, k, e).buf
      && r.value.read == ReadFull(data, offset, k, e).n
      && r.value.offset == offset + ReadFull(data, offset, k, e).n
  {
    assert data[offset..offset] + Zeros(k) == Zeros(k);
    LoopCorrectedFills(data, offset, LoopState(Zeros(k), 0, 0, offset), k, chunk, fuel);
    var r := ReadBytesCorrected(data, offset, k, chunk, fuel).value;
    if r.read == k {
      assert Zeros(k - r.read) == [];
    }
  }
}
