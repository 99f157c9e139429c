/**
 * The loader's LZ4 decoder: cursors over a staged block, output appended to what earlier blocks left in `dst`.
 * `Run` is the decoder on values; `Lz4RoundTrip` shows which inputs it accepts and what it makes of them.
 */
module Lz4Decoder {
  import opened Words
  import opened Lz4Format

  const BLOB_ERR_LZ4 := -6
  const STAGE_CAPACITY := 8192

  // ---------- The decoder on values ----------

  /** Value and size of the bytes continuing a saturated nibble; `None` when the source ends first. */
  function ReadLengthBytes(src: seq<u8>): (r: Option<(nat, nat)>)
    ensures r.Some? ==> 1 <= r.value.1 <= |src| && r.value.0 <= 255 * r.value.1
  {
    if src == [] then None
    else if src[0] == 255 then
      match ReadLengthBytes(src[1..])
      case None => None
      case Some((n, used)) => Some((n + 255, used + 1))
    else Some((src[0], 1))
  }

  function ReadLength(src: seq<u8>, base: u8): (r: Option<(nat, nat)>)
    ensures r.Some? ==> r.value.1 <= |src| && r.value.0 <= base + 255 * r.value.1
  {
    if base != 15 then Some((base, 0))
    else
      match ReadLengthBytes(src)
      case None => None
      case Some((n, used)) => Some((n + 15, used))
  }

  datatype Outcome = Fail | Done(out: seq<u8>) | More(src: seq<u8>, out: seq<u8>, room: nat)

  /** The second half of a round: the match that follows the literals. */
  function MatchStep(token: u8, src: seq<u8>, out: seq<u8>, room: nat): (r: Outcome)
    ensures !r.Done?
    ensures r.More? ==> |r.src| < |src|
  {
    if |src| < 2 then Fail
    else
      var offset := Le16(src[0], src[1]);
      if offset == 0 || offset > |out| then Fail
      else
        match ReadLength(src[2..], token % 16)
        case None => Fail
        case Some((n, used)) =>
          if n + MIN_MATCH > room then Fail
          else More(src[2 + used..], out + Periodic(out, offset, n + MIN_MATCH), room - (n + MIN_MATCH))
  }

  /** One round of the decoder: a token, its literals and, unless the source ends there, its match. */
  function Step(src: seq<u8>, out: seq<u8>, room: nat): (r: Outcome)
    requires src != []
    ensures r.More? ==> |r.src| < |src|
  {
    match ReadLength(src[1..], src[0] / 16)
    case None => Fail
    case Some((n, used)) =>
      var rest := src[1 + used..];
      if n > |rest| || n > room then Fail
      else if n == |rest| then (if n == room then Done(out + rest) else Fail)
      else MatchStep(src[0], rest[n..], out + rest[..n], room - n)
  }

  /** Decodes `src` after `out`, with exactly `room` bytes still to produce. */
  function Run(src: seq<u8>, out: seq<u8>, room: nat): (r: Option<seq<u8>>)
    decreases |src|
  {
    if src == [] then (if room == 0 then Some(out) else None)
    else
      match Step(src, out, room)
      case Fail => None
      case Done(all) => Some(all)
      case More(src', out', room') => Run(src', out', room')
  }

  lemma RunEnd(src: seq<u8>, out: seq<u8>, room: nat)
    requires src == []
    ensures Run(src, out, room) == if room == 0 then Some(out) else None
  {
  }

  lemma RunRound(src: seq<u8>, out: seq<u8>, room: nat)
    requires src != []
    ensures Run(src, out, room) ==
            match Step(src, out, room)
            case Fail => None
            case Done(all) => Some(all)
            case More(src', out', room') => Run(src', out', room')
  {
  }

  // ---------- The decoder in place ----------

  method ReadLengthAt(src: array<u8>, srcLen: u32, start: u32, base: u8)
    returns (rc: int, ip: u32, len: u32)
    requires start <= srcLen <= src.Length && srcLen <= STAGE_CAPACITY
    ensures start <= ip <= srcLen
    ensures rc == 0 || rc == BLOB_ERR_LZ4
    ensures rc == 0 <==> ReadLength(src[start..srcLen], base).Some?
    ensures rc == 0 ==> ReadLength(src[start..srcLen], base) == Some((len, ip - start))
  {
    ip, len := start, base;
    if base != 15 {
      return 0, ip, len;
    }
    ghost var bytes := src[start..srcLen];
    ghost var all := ReadLengthBytes(bytes);
    while true
      invariant start <= ip <= srcLen
      invariant len == 15 + 255 * (ip - start)
      invariant all == match ReadLengthBytes(src[ip..srcLen])
                       case None => None
                       case Some((n, used)) => Some((n + 255 * (ip - start), used + (ip - start)))
      decreases srcLen - ip
    {
      if ip >= srcLen {
        return BLOB_ERR_LZ4, ip, len;
      }
      var value := src[ip];
      assert src[ip..srcLen][1..] == src[ip + 1..srcLen];
      ip := ip + 1;
      len := len + value;
      if value != 255 {
        return 0, ip, len;
      }
    }
  }

  lemma PeriodicStep(out: seq<u8>, offset: nat, n: nat)
    requires 1 <= offset <= |out|
    ensures var sofar := out + Periodic(out, offset, n);
            out + Periodic(out, offset, n + 1) == sofar + [sofar[|sofar| - offset]]
  {
    if n >= offset {
      DivModUnique(n - offset, offset, n / offset - 1, n % offset);
    }
  }

  method CopyLiterals(src: array<u8>, ip: u32, dst: array<u8>, op: u32, n: u32)
    requires src != dst && ip + n <= src.Length && op + n <= dst.Length < TWO32
    modifies dst
    ensures dst[..op + n] == old(dst[..op]) + src[ip..ip + n]
    ensures forall k :: 0 <= k < dst.Length && !(op <= k < op + n) ==> dst[k] == old(dst[k])
  {
    var i: u32 := 0;
    while i < n
      invariant i <= n
      invariant dst[..op + i] == old(dst[..op]) + src[ip..ip + i]
      invariant forall k :: 0 <= k < dst.Length && !(op <= k < op + i) ==> dst[k] == old(dst[k])
    {
      dst[op + i] := src[ip + i];
      i := i + 1;
    }
  }

  method CopyMatch(dst: array<u8>, op: u32, offset: u16, n: u32)
    requires 1 <= offset <= op && op + n <= dst.Length < TWO32
    modifies dst
    ensures dst[..op + n] == old(dst[..op]) + Periodic(old(dst[..op]), offset, n)
    ensures forall k :: 0 <= k < dst.Length && !(op <= k < op + n) ==> dst[k] == old(dst[k])
  {
    ghost var out := dst[..op];
    var i: u32 := 0;
    while i < n
      invariant i <= n
      invariant dst[..op + i] == out + Periodic(out, offset, i)
      invariant forall k :: 0 <= k < dst.Length && !(op <= k < op + i) ==> dst[k] == old(dst[k])
    {
      PeriodicStep(out, offset, i);
      assert dst[..op + i][op + i - offset] == dst[op + i - offset];
      dst[op + i] := dst[op + i - offset];
      i := i + 1;
    }
  }

  /** The literals of a round, from `start` on in the source. */
  method DecodeLiterals(src: array<u8>, srcLen: u32, start: u32, base: u8, dst: array<u8>, at: u32, end: u32)
    returns (rc: int, ip: u32, op: u32, ghost n: nat, ghost used: nat)
    requires src != dst && start <= srcLen <= src.Length && srcLen <= STAGE_CAPACITY
    requires at <= end <= dst.Length < TWO32
    modifies dst
    ensures rc == 0 || rc == BLOB_ERR_LZ4
    ensures forall k :: 0 <= k < dst.Length && !(at <= k < end) ==> dst[k] == old(dst[k])
    ensures rc == 0 <==> match ReadLength(src[start..srcLen], base)
                         case None => false
                         case Some((len, size)) => size + len <= srcLen - start && len <= end - at
    ensures rc == 0 ==> ReadLength(src[start..srcLen], base) == Some((n, used))
    ensures rc == 0 ==> ip == start + used + n && op == at + n
    ensures rc == 0 ==> dst[..op] == old(dst[..at]) + src[start..srcLen][used..used + n]
  {
    ghost var bytes := src[start..srcLen];
    var len;
    rc, ip, len := ReadLengthAt(src, srcLen, start, base);
    op, n, used := at, len, ip - start;
    if rc != 0 {
      return;
    }
    if len > srcLen - ip || len > end - op {
      rc := BLOB_ERR_LZ4;
      return;
    }
    CopyLiterals(src, ip, dst, op, len);
    assert bytes[used..used + n] == src[ip..ip + len];
    op, ip := op + len, ip + len;
  }

  /** The match of a round, from `start` on in the source. */
  method DecodeMatch(src: array<u8>, srcLen: u32, start: u32, token: u8, dst: array<u8>, at: u32, end: u32)
    returns (rc: int, ip: u32, op: u32)
    requires src != dst && start < srcLen <= src.Length && srcLen <= STAGE_CAPACITY
    requires at <= end <= dst.Length < TWO32
    modifies dst
    ensures rc == 0 || rc == BLOB_ERR_LZ4
    ensures forall k :: 0 <= k < dst.Length && !(at <= k < end) ==> dst[k] == old(dst[k])
    ensures rc == 0 <==> MatchStep(token, src[start..srcLen], old(dst[..at]), end - at).More?
    ensures rc == 0 ==> start < ip <= srcLen && at <= op <= end
    ensures rc == 0 ==> MatchStep(token, src[start..srcLen], old(dst[..at]), end - at)
                        == More(src[ip..srcLen], dst[..op], end - op)
  {
    ghost var bytes := src[start..srcLen];
    ip, op := start, at;
    if srcLen - ip < 2 {
      rc := BLOB_ERR_LZ4;
      return;
    }
    var offset := Le16(src[ip], src[ip + 1]);
    ip := ip + 2;
    if offset == 0 || offset > op {
      rc := BLOB_ERR_LZ4;
      return;
    }
    assert bytes[2..] == src[ip..srcLen];
    var extra;
    rc, ip, extra := ReadLengthAt(src, srcLen, ip, token % 16);
    if rc != 0 {
      return;
    }
    assert bytes[2 + (ip - start - 2)..] == src[ip..srcLen];
    var matchLen: u32 := extra + MIN_MATCH;
    if matchLen > end - op {
      rc := BLOB_ERR_LZ4;
      return;
    }
    CopyMatch(dst, op, offset, matchLen);
    op := op + matchLen;
  }

  /** One round: a token, its literals and, unless the source ends there, its match. */
  method DecodeRound(src: array<u8>, srcLen: u32, start: u32, dst: array<u8>, at: u32, end: u32)
    returns (rc: int, ip: u32, op: u32)
    requires src != dst && start < srcLen <= src.Length && srcLen <= STAGE_CAPACITY
    requires at <= end <= dst.Length < TWO32
    modifies dst
    ensures rc == 0 || rc == BLOB_ERR_LZ4
    ensures forall k :: 0 <= k < dst.Length && !(at <= k < end) ==> dst[k] == old(dst[k])
    ensures rc == 0 ==> start < ip <= srcLen && at <= op <= end
    ensures Run(src[start..srcLen], old(dst[..at]), end - at)
            == if rc == 0 then Run(src[ip..srcLen], dst[..op], end - op) else None
  {
    hide Run, ReadLength, MatchStep;
    ghost var round, out := src[start..srcLen], dst[..at];
    RunRound(round, out, end - at);
    var token := src[start];
    assert round[1..] == src[start + 1..srcLen];
    ghost var n, used;
    rc, ip, op, n, used := DecodeLiterals(src, srcLen, start + 1, token / 16, dst, at, end);
    if rc != 0 {
      assert Step(round, out, end - at).Fail?;
      return;
    }
    ghost var rest := round[1 + used..];
    assert rest[..n] == round[1..][used..used + n] && rest[n..] == src[ip..srcLen];
    if ip == srcLen {
      assert rest[..n] == rest;
      RunEnd(src[ip..srcLen], dst[..op], end - op);
      return;
    }
    ghost var mid := dst[..op];
    assert Step(round, out, end - at) == MatchStep(token, src[ip..srcLen], mid, end - op);
    rc, ip, op := DecodeMatch(src, srcLen, ip, token, dst, op, end);
  }

  /**
   * Decodes the block staged in `src[..srcLen]` to `dst[dstOff..dstOff + dstLen]`. The blocks before it are
   * its history. Nothing outside that range changes.
   */
  method DecodeChunk(src: array<u8>, srcLen: u32, dst: array<u8>, dstOff: u32, dstLen: u32) returns (rc: int)
    requires src != dst && srcLen <= src.Length && srcLen <= STAGE_CAPACITY
    requires dstOff + dstLen <= dst.Length < TWO32
    modifies dst
    ensures rc == 0 || rc == BLOB_ERR_LZ4
    ensures rc == 0 <==> Run(src[..srcLen], old(dst[..dstOff]), dstLen).Some?
    ensures rc == 0 ==> Run(src[..srcLen], old(dst[..dstOff]), dstLen) == Some(dst[..dstOff + dstLen])
    ensures forall k :: 0 <= k < dst.Length && !(dstOff <= k < dstOff + dstLen) ==> dst[k] == old(dst[k])
  {
    hide Run;
    assert src[..srcLen] == src[0..srcLen];
    ghost var result := Run(src[0..srcLen], dst[..dstOff], dstLen);
    var ip: u32, op: u32, end: u32 := 0, dstOff, dstOff + dstLen;
    while ip < srcLen
      invariant ip <= srcLen && dstOff <= op <= end
      invariant result == Run(src[ip..srcLen], dst[..op], end - op)
      invariant forall k :: 0 <= k < dst.Length && !(dstOff <= k < end) ==> dst[k] == old(dst[k])
    {
      var rc', ip', op' := DecodeRound(src, srcLen, ip, dst, op, end);
      if rc' != 0 {
        return rc';
      }
      ip, op := ip', op';
    }
    RunEnd(src[ip..srcLen], dst[..op], end - op);
    if ip != srcLen || op != end {
      return BLOB_ERR_LZ4;
    }
    return 0;
  }
}
