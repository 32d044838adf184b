/** One hunk of the compressed format (load_hunk in chowimg.py): a 4-byte
    little-endian payload length followed by subhunks. Each subhunk is a
    control byte, the literal count's escape bytes, the literal bytes, and,
    unless the payload is used up after the literals, a 2-byte little-endian
    rewind distance and the replay length's escape bytes. */
module Hunk {
  import opened Wire
  import Vll

  /** The decoder between two subhunks: the bytes decoded so far in this hunk,
      the input cursor and the payload bytes counted so far (bytes_read). */
  datatype HunkState = HunkState(out: seq<Byte>, pos: nat, bytesRead: nat)

  /** A decoded hunk: its bytes, the count load_hunk returns (payload bytes
      read plus the 4-byte length field), and the cursor after the hunk. */
  datatype DecodedHunk = DecodedHunk(data: seq<Byte>, bytesRead: nat, next: nat)

  /** The replay loop: appends n bytes one at a time, each copied from rewind
      bytes before the current end, so a copy may read bytes it appended itself. */
  function Replay(out: seq<Byte>, rewind: nat, n: nat): (r: seq<Byte>)
    requires 1 <= rewind <= |out|
    ensures |r| == |out| + n && out <= r
    decreases n
  {
    if n == 0 then out else Replay(out + [out[|out| - rewind]], rewind, n - 1)
  }

  /** A replay keeps what was decoded, appends exactly n bytes, and each
      appended byte equals the byte rewind positions before it. */
  lemma {:induction false} ReplayAppends(out: seq<Byte>, rewind: nat, n: nat)
    requires 1 <= rewind <= |out|
    ensures |Replay(out, rewind, n)| == |out| + n
    ensures Replay(out, rewind, n)[..|out|] == out
    ensures forall k :: |out| <= k < |out| + n ==>
              Replay(out, rewind, n)[k] == Replay(out, rewind, n)[k - rewind]
    decreases n
  {
    if n > 0 {
      var out' := out + [out[|out| - rewind]];
      ReplayAppends(out', rewind, n - 1);
      var r := Replay(out, rewind, n);
      assert r[..|out'|] == out';
      assert r[..|out|] == out'[..|out|];
      assert r[|out|] == out'[|out|];
    }
  }

  /** The replayed region repeats the rewind bytes that precede it: the copy is
      periodic with period rewind, even where it overlaps itself. */
  lemma ReplayPeriodic(out: seq<Byte>, rewind: nat, n: nat)
    requires 1 <= rewind <= |out|
    ensures |Replay(out, rewind, n)| == |out| + n
    ensures forall i :: 0 <= i < n ==>
              Replay(out, rewind, n)[|out| + i] == out[|out| - rewind + i % rewind]
  {
    ReplayAppends(out, rewind, n);
    forall i | 0 <= i < n
      ensures Replay(out, rewind, n)[|out| + i] == out[|out| - rewind + i % rewind]
    {
      ReplayPeriodicAt(out, rewind, n, i);
    }
  }

  lemma {:induction false} ReplayPeriodicAt(out: seq<Byte>, rewind: nat, n: nat, i: nat)
    requires 1 <= rewind <= |out| && i < n
    ensures |Replay(out, rewind, n)| == |out| + n
    ensures Replay(out, rewind, n)[|out| + i] == out[|out| - rewind + i % rewind]
    decreases i
  {
    ReplayAppends(out, rewind, n);
    var r := Replay(out, rewind, n);
    var k := |out| + i;
    assert r[k] == r[k - rewind];
    if i < rewind {
      ModUnique(i, rewind, 0, i);
      assert r[k - rewind] == r[..|out|][k - rewind];
    } else {
      ReplayPeriodicAt(out, rewind, n, i - rewind);
      ModShift(i, rewind);
      assert k - rewind == |out| + (i - rewind);
    }
  }

  lemma ModShift(i: int, m: int)
    requires 0 < m <= i
    ensures (i - m) % m == i % m
  {
    var q, r := i / m, i % m;
    MulDistributes(q, 1, m);
    ModUnique(i - m, m, q - 1, r);
  }

  lemma MulDistributes(q: int, q': int, m: int)
    ensures (q - q') * m == q * m - q' * m
  {
  }

  lemma MulAtLeast(x: int, m: int)
    requires x >= 1 && m > 0
    ensures x * m >= m
  {
  }

  /** Euclidean remainder is determined by any quotient-remainder split. */
  lemma ModUnique(a: int, m: int, q: int, r: int)
    requires 0 < m && 0 <= r < m && a == q * m + r
    ensures a % m == r
  {
    var q', r' := a / m, a % m;
    if q > q' {
      MulAtLeast(q - q', m);
      MulDistributes(q, q', m);
    } else if q < q' {
      MulAtLeast(q' - q, m);
      MulDistributes(q', q, m);
    }
  }

  /** The literal half of a subhunk (chowimg.py:46-52): the literal count is the
      VLL seeded by the control byte's high nibble, and that many input bytes
      are appended verbatim. The state s is the one just after the control byte. */
  function Literals(input: seq<Byte>, ctrl: Byte, s: HunkState): (r: Result<HunkState>)
    requires s.pos <= |input|
    ensures r.Ok? ==> r.value.pos - s.pos == r.value.bytesRead - s.bytesRead
    ensures r.Ok? ==> s.out <= r.value.out && r.value.pos <= |input|
  {
    var literal :- Vll.Decode(input, s.pos, ctrl / 16);
    var literalStart := s.pos + literal.count;
    var literalEnd := literalStart + literal.value;
    if literalEnd > |input| then Err(TruncatedInput)
    else Ok(HunkState(s.out + input[literalStart..literalEnd], literalEnd,
                      s.bytesRead + literal.count + literal.value))
  }

  /** The replay half of a subhunk (chowimg.py:58-66): a 2-byte rewind distance,
      then the VLL seeded by the control byte's low nibble, plus 4, is the
      number of bytes replayed from rewind bytes back. */
  function Window(input: seq<Byte>, ctrl: Byte, s: HunkState): (r: Result<HunkState>)
    ensures r.Ok? ==> r.value.pos - s.pos == r.value.bytesRead - s.bytesRead > 0
    ensures r.Ok? ==> s.out <= r.value.out && r.value.pos <= |input|
  {
    var rewind :- ReadU16(input, s.pos);
    var window :- Vll.Decode(input, s.pos + 2, ctrl % 16);
    if rewind.value == 0 then Err(WindowStartPastEnd)
    else if rewind.value > |s.out| then Err(NegativeWindowStart)
    else
      Ok(HunkState(Replay(s.out, rewind.value, window.value + 4),
                   s.pos + 2 + window.count, s.bytesRead + 2 + window.count))
  }

  /** One iteration of the hunk loop (chowimg.py:43-66): the control byte, the
      literals and, unless bytes_read has reached hunkLen after them, the replay. */
  function Subhunk(input: seq<Byte>, hunkLen: nat, s: HunkState): (r: Result<HunkState>)
    ensures r.Ok? ==> s.bytesRead < r.value.bytesRead
    ensures r.Ok? ==> r.value.pos - s.pos == r.value.bytesRead - s.bytesRead
    ensures r.Ok? ==> s.out <= r.value.out && r.value.pos <= |input|
  {
    if s.pos >= |input| then Err(TruncatedInput)
    else
      var ctrl := input[s.pos];
      var lit :- Literals(input, ctrl, HunkState(s.out, s.pos + 1, s.bytesRead + 1));
      if lit.bytesRead >= hunkLen then Ok(lit) else Window(input, ctrl, lit)
  }

  /** The hunk loop (chowimg.py:42-66): subhunks until bytes_read reaches the
      payload length. It never stops short of it and never counts backwards. */
  function HunkLoop(input: seq<Byte>, hunkLen: nat, s: HunkState): (r: Result<HunkState>)
    ensures r.Ok? ==> hunkLen <= r.value.bytesRead && s.bytesRead <= r.value.bytesRead
    decreases hunkLen - s.bytesRead, 1
  {
    if s.bytesRead >= hunkLen then Ok(s) else SubhunkThenLoop(input, hunkLen, s)
  }

  /** One subhunk from s, then the rest of the hunk loop. */
  function SubhunkThenLoop(input: seq<Byte>, hunkLen: nat, s: HunkState): (r: Result<HunkState>)
    requires s.bytesRead < hunkLen
    ensures r.Ok? ==> hunkLen <= r.value.bytesRead && s.bytesRead < r.value.bytesRead
    decreases hunkLen - s.bytesRead, 0
  {
    var s' :- Subhunk(input, hunkLen, s);
    HunkLoop(input, hunkLen, s')
  }

  /** load_hunk as a function of the input and the cursor at the hunk's length field. */
  function DecodeHunk(input: seq<Byte>, pos: nat): (r: Result<DecodedHunk>)
    ensures r.Ok? ==> r.value.bytesRead >= 4
  {
    var hunkLen :- ReadU32(input, pos);
    var s :- HunkLoop(input, hunkLen.value, HunkState([], pos + 4, 0));
    Ok(DecodedHunk(s.out, s.bytesRead + 4, s.pos))
  }

  /** A subhunk is its literal half followed, unless bytes_read has reached
      hunkLen, by its replay half. */
  lemma SubhunkParts(input: seq<Byte>, hunkLen: nat, s: HunkState)
    requires Subhunk(input, hunkLen, s).Ok?
    ensures s.pos < |input|
    ensures var lit := Literals(input, input[s.pos], HunkState(s.out, s.pos + 1, s.bytesRead + 1));
            lit.Ok?
            && Subhunk(input, hunkLen, s)
               == if lit.value.bytesRead >= hunkLen then lit else Window(input, input[s.pos], lit.value)
  {
  }

  /** What a successful literal half read and appended. */
  lemma LiteralsParts(input: seq<Byte>, ctrl: Byte, s: HunkState)
    requires s.pos <= |input| && Literals(input, ctrl, s).Ok?
    ensures Vll.Decode(input, s.pos, ctrl / 16).Ok?
    ensures var literal := Vll.Decode(input, s.pos, ctrl / 16).value;
            var start := s.pos + literal.count;
            start + literal.value <= |input|
            && Literals(input, ctrl, s).value
               == HunkState(s.out + input[start..start + literal.value], start + literal.value,
                            s.bytesRead + literal.count + literal.value)
  {
  }

  /** What a successful replay half read and appended. */
  lemma WindowParts(input: seq<Byte>, ctrl: Byte, s: HunkState)
    requires Window(input, ctrl, s).Ok?
    ensures s.pos + 2 <= |input| && Vll.Decode(input, s.pos + 2, ctrl % 16).Ok?
    ensures var rewind := input[s.pos] as int + 0x100 * input[s.pos + 1] as int;
            var window := Vll.Decode(input, s.pos + 2, ctrl % 16).value;
            1 <= rewind <= |s.out|
            && Window(input, ctrl, s).value
               == HunkState(Replay(s.out, rewind, window.value + 4),
                            s.pos + 2 + window.count, s.bytesRead + 2 + window.count)
  {
  }

  /** A subhunk leaves the bytes decoded before it alone and appends its
      literal bytes next, verbatim and in order, from just after the control
      byte and the literal count's escape bytes. */
  lemma SubhunkAppendsLiterals(input: seq<Byte>, hunkLen: nat, s: HunkState)
    requires Subhunk(input, hunkLen, s).Ok?
    ensures s.pos < |input| && Vll.Decode(input, s.pos + 1, input[s.pos] / 16).Ok?
    ensures var literal := Vll.Decode(input, s.pos + 1, input[s.pos] / 16).value;
            var start := s.pos + 1 + literal.count;
            var r := Subhunk(input, hunkLen, s).value;
            start + literal.value <= |input| && |s.out| + literal.value <= |r.out|
            && r.out[..|s.out| + literal.value] == s.out + input[start..start + literal.value]
  {
    SubhunkParts(input, hunkLen, s);
    var ctrl := input[s.pos];
    var s1 := HunkState(s.out, s.pos + 1, s.bytesRead + 1);
    LiteralsParts(input, ctrl, s1);
    var lit := Literals(input, ctrl, s1).value;
    var r := Subhunk(input, hunkLen, s).value;
    assert lit.out <= r.out;
  }

  /** Once the bytes counted after the literals reach hunkLen, the subhunk ends
      there: no rewind or replay-length bytes are read, nothing is replayed, and
      the hunk loop stops. */
  lemma SubhunkStopsAfterLiterals(input: seq<Byte>, hunkLen: nat, s: HunkState)
    requires s.pos < |input| && Vll.Decode(input, s.pos + 1, input[s.pos] / 16).Ok?
    requires var literal := Vll.Decode(input, s.pos + 1, input[s.pos] / 16).value;
             s.pos + 1 + literal.count + literal.value <= |input|
             && s.bytesRead + 1 + literal.count + literal.value >= hunkLen
    ensures var literal := Vll.Decode(input, s.pos + 1, input[s.pos] / 16).value;
            var start := s.pos + 1 + literal.count;
            var r := HunkState(s.out + input[start..start + literal.value], start + literal.value,
                               s.bytesRead + 1 + literal.count + literal.value);
            Subhunk(input, hunkLen, s) == Ok(r) && HunkLoop(input, hunkLen, r) == Ok(r)
  {
  }

  /** The replay half reads a little-endian 16-bit rewind distance and the
      replay-length VLL seeded by the control byte's low nibble, keeps the
      bytes decoded before it, and appends exactly that length plus 4 bytes
      (so at least 4), each equal to the byte rewind positions before it. */
  lemma WindowReplays(input: seq<Byte>, ctrl: Byte, s: HunkState)
    requires Window(input, ctrl, s).Ok?
    ensures s.pos + 2 <= |input| && Vll.Decode(input, s.pos + 2, ctrl % 16).Ok?
    ensures var rewind := input[s.pos] as int + 0x100 * input[s.pos + 1] as int;
            var window := Vll.Decode(input, s.pos + 2, ctrl % 16).value;
            var r := Window(input, ctrl, s).value;
            1 <= rewind <= |s.out| && |r.out| == |s.out| + window.value + 4
            && r.out[..|s.out|] == s.out
            && r.pos == s.pos + 2 + window.count && r.bytesRead == s.bytesRead + 2 + window.count
            && forall k :: |s.out| <= k < |r.out| ==> r.out[k] == r.out[k - rewind]
  {
    WindowParts(input, ctrl, s);
    var rewind := input[s.pos] as int + 0x100 * input[s.pos + 1] as int;
    var window := Vll.Decode(input, s.pos + 2, ctrl % 16).value;
    ReplayAppends(s.out, rewind, window.value + 4);
  }

  /** A replay whose source would start outside the bytes decoded so far in
      the hunk is rejected: a rewind of 0 with WindowStartPastEnd, a rewind
      beyond the output with NegativeWindowStart; any other rewind is accepted,
      once the rewind field and the replay length have been read. */
  lemma WindowRejectsBadRewind(input: seq<Byte>, ctrl: Byte, s: HunkState)
    requires s.pos + 2 <= |input| && Vll.Decode(input, s.pos + 2, ctrl % 16).Ok?
    ensures var rewind := input[s.pos] as int + 0x100 * input[s.pos + 1] as int;
            && (Window(input, ctrl, s) == Err(WindowStartPastEnd) <==> rewind == 0)
            && (Window(input, ctrl, s) == Err(NegativeWindowStart) <==> rewind > |s.out|)
            && (Window(input, ctrl, s).Ok? <==> 1 <= rewind <= |s.out|)
  {
  }

  /** Across the whole hunk loop the output only grows, the cursor advances by
      exactly the bytes counted, and the loop ends with bytes_read >= hunkLen. */
  lemma {:induction false} HunkLoopInvariant(input: seq<Byte>, hunkLen: nat, s: HunkState)
    requires HunkLoop(input, hunkLen, s).Ok?
    ensures var r := HunkLoop(input, hunkLen, s).value;
            r.bytesRead >= hunkLen && r.bytesRead >= s.bytesRead
            && r.pos - s.pos == r.bytesRead - s.bytesRead && s.out <= r.out
            && (s.pos <= |input| ==> r.pos <= |input|)
            && (s.bytesRead >= hunkLen ==> r == s)
    decreases hunkLen - s.bytesRead
  {
    if s.bytesRead < hunkLen {
      var s' := Subhunk(input, hunkLen, s).value;
      HunkLoopInvariant(input, hunkLen, s');
    }
  }

  /** load_hunk reads the payload length as a 4-byte little-endian number and
      returns bytes_read + 4, which is exactly how far it moved the cursor; the
      payload bytes it counted are at least the payload length. */
  lemma DecodeHunkAccounting(input: seq<Byte>, pos: nat)
    requires DecodeHunk(input, pos).Ok?
    ensures pos + 4 <= |input|
    ensures var h := DecodeHunk(input, pos).value;
            var hunkLen := input[pos] as int + 0x100 * input[pos + 1] as int
                           + 0x1_0000 * input[pos + 2] as int + 0x100_0000 * input[pos + 3] as int;
            h.next == pos + h.bytesRead <= |input| && h.bytesRead >= hunkLen + 4
            && (hunkLen == 0 ==> h == DecodedHunk([], 4, pos + 4))
  {
    var hunkLen := ReadU32(input, pos).value.value;
    HunkLoopInvariant(input, hunkLen, HunkState([], pos + 4, 0));
  }

  lemma LiteralsAgree(a: seq<Byte>, b: seq<Byte>, n: nat, ctrl: Byte, s: HunkState)
    requires s.pos <= |a| && Literals(a, ctrl, s).Ok? && Literals(a, ctrl, s).value.pos <= n
    requires SameUpTo(a, b, n)
    ensures Literals(b, ctrl, s) == Literals(a, ctrl, s)
  {
    var literal := Vll.Decode(a, s.pos, ctrl / 16).value;
    Vll.DecodeAgree(a, b, n, s.pos, ctrl / 16);
    SameSlice(a, b, n, s.pos + literal.count, s.pos + literal.count + literal.value);
  }

  lemma WindowAgree(a: seq<Byte>, b: seq<Byte>, n: nat, ctrl: Byte, s: HunkState)
    requires Window(a, ctrl, s).Ok? && Window(a, ctrl, s).value.pos <= n && SameUpTo(a, b, n)
    ensures Window(b, ctrl, s) == Window(a, ctrl, s)
  {
    ReadU16Agree(a, b, n, s.pos);
    Vll.DecodeAgree(a, b, n, s.pos + 2, ctrl % 16);
  }

  lemma SubhunkAgree(a: seq<Byte>, b: seq<Byte>, n: nat, hunkLen: nat, s: HunkState)
    requires Subhunk(a, hunkLen, s).Ok? && Subhunk(a, hunkLen, s).value.pos <= n && SameUpTo(a, b, n)
    ensures Subhunk(b, hunkLen, s) == Subhunk(a, hunkLen, s)
  {
    SubhunkParts(a, hunkLen, s);
    var ctrl := a[s.pos];
    assert ctrl == a[..n][s.pos] && b[s.pos] == b[..n][s.pos];
    var s1 := HunkState(s.out, s.pos + 1, s.bytesRead + 1);
    var lit := Literals(a, ctrl, s1).value;
    LiteralsAgree(a, b, n, ctrl, s1);
    if lit.bytesRead < hunkLen {
      WindowAgree(a, b, n, ctrl, lit);
    }
  }

  lemma {:induction false} HunkLoopAgree(a: seq<Byte>, b: seq<Byte>, n: nat, hunkLen: nat, s: HunkState)
    requires HunkLoop(a, hunkLen, s).Ok? && HunkLoop(a, hunkLen, s).value.pos <= n && SameUpTo(a, b, n)
    ensures HunkLoop(b, hunkLen, s) == HunkLoop(a, hunkLen, s)
    decreases hunkLen - s.bytesRead
  {
    if s.bytesRead < hunkLen {
      var s' := Subhunk(a, hunkLen, s).value;
      HunkLoopInvariant(a, hunkLen, s');
      SubhunkAgree(a, b, n, hunkLen, s);
      HunkLoopAgree(a, b, n, hunkLen, s');
    }
  }

  /** A hunk's decode depends on no input byte at or past the cursor it ends
      at: any input that agrees with this one up to there decodes the same. */
  lemma DecodeHunkAgree(a: seq<Byte>, b: seq<Byte>, n: nat, pos: nat)
    requires DecodeHunk(a, pos).Ok? && DecodeHunk(a, pos).value.next <= n && SameUpTo(a, b, n)
    ensures DecodeHunk(b, pos) == DecodeHunk(a, pos)
  {
    var hunkLen := ReadU32(a, pos).value.value;
    var s0 := HunkState([], pos + 4, 0);
    HunkLoopInvariant(a, hunkLen, s0);
    ReadU32Agree(a, b, n, pos);
    HunkLoopAgree(a, b, n, hunkLen, s0);
    assert ReadU32(b, pos) == ReadU32(a, pos);
    assert HunkLoop(b, hunkLen, s0) == HunkLoop(a, hunkLen, s0);
  }

  /** The literal copy (chowimg.py:50-52): count bytes taken one at a time
      from the input at cursor and appended to the hunk. */
  method AppendLiterals(input: seq<Byte>, cursor: nat, count: nat, hunk: seq<Byte>) returns (r: Result<seq<Byte>>)
    requires cursor <= |input|
    ensures cursor + count <= |input| ==> r == Ok(hunk + input[cursor..cursor + count])
    ensures cursor + count > |input| ==> r == Err(TruncatedInput)
  {
    var out := hunk;
    for index := 0 to count
      invariant cursor + index <= |input|
      invariant out == hunk + input[cursor..cursor + index]
    {
      if cursor + index >= |input| {
        return Err(TruncatedInput);
      }
      assert input[cursor..cursor + index + 1] == input[cursor..cursor + index] + [input[cursor + index]];
      out := out + [input[cursor + index]];
    }
    return Ok(out);
  }

  /** The replay copy (chowimg.py:65-66): count bytes appended one at a time,
      the index-th copied from windowStart + index of the growing hunk. */
  method AppendReplay(hunk: seq<Byte>, rewind: nat, count: nat) returns (out: seq<Byte>)
    requires 1 <= rewind <= |hunk|
    ensures out == Replay(hunk, rewind, count)
  {
    var windowStart := |hunk| - rewind;
    out := hunk;
    for index := 0 to count
      invariant |out| == |hunk| + index
      invariant Replay(hunk, rewind, count) == Replay(out, rewind, count - index)
    {
      out := out + [out[windowStart + index]];
    }
  }

  /** The literal half of load_hunk's loop body (chowimg.py:46-52). */
  method LoadLiterals(input: seq<Byte>, ctrlByte: Byte, hunk: seq<Byte>, cursor: nat, bytesRead: nat)
    returns (r: Result<HunkState>)
    requires cursor <= |input|
    ensures r == Literals(input, ctrlByte, HunkState(hunk, cursor, bytesRead))
  {
    var literal := Vll.LoadVll(input, cursor, ctrlByte / 16);
    if literal.Err? {
      return Err(literal.error);
    }
    var literalByteCount := literal.value.value;
    var pos, read := cursor + literal.value.count, bytesRead + literal.value.count;
    var out :- AppendLiterals(input, pos, literalByteCount, hunk);
    return Ok(HunkState(out, pos + literalByteCount, read + literalByteCount));
  }

  /** The replay half of load_hunk's loop body (chowimg.py:58-66). */
  method LoadWindow(input: seq<Byte>, ctrlByte: Byte, hunk: seq<Byte>, cursor: nat, bytesRead: nat)
    returns (r: Result<HunkState>)
    ensures r == Window(input, ctrlByte, HunkState(hunk, cursor, bytesRead))
  {
    var rewindField := ReadU16(input, cursor);
    if rewindField.Err? {
      return Err(rewindField.error);
    }
    var rewindDistance := rewindField.value.value;
    var pos, read := cursor + 2, bytesRead + 2;

    var window := Vll.LoadVll(input, pos, ctrlByte % 16);
    if window.Err? {
      return Err(window.error);
    }
    var windowByteCount := window.value.value + 4;
    pos, read := pos + window.value.count, read + window.value.count;

    if rewindDistance == 0 {
      return Err(WindowStartPastEnd);
    }
    if rewindDistance > |hunk| {
      return Err(NegativeWindowStart);
    }
    var out := AppendReplay(hunk, rewindDistance, windowByteCount);
    return Ok(HunkState(out, pos, read));
  }

  /** One pass of load_hunk's loop body (chowimg.py:43-66), from the control
      byte to the end of the replay, or to the break at line 55. */
  method LoadSubhunk(input: seq<Byte>, hunkLen: nat, hunk: seq<Byte>, cursor: nat, bytesRead: nat)
    returns (r: Result<HunkState>)
    ensures r == Subhunk(input, hunkLen, HunkState(hunk, cursor, bytesRead))
  {
    if cursor >= |input| {
      return Err(TruncatedInput);
    }
    var ctrlByte := input[cursor];
    var s :- LoadLiterals(input, ctrlByte, hunk, cursor + 1, bytesRead + 1);
    if s.bytesRead >= hunkLen {
      return Ok(s);
    }
    r := LoadWindow(input, ctrlByte, s.out, s.pos, s.bytesRead);
  }

  /** load_hunk (chowimg.py:35-71): the hunk's bytes and bytes_read + 4. */
  method LoadHunk(input: seq<Byte>, pos: nat) returns (r: Result<DecodedHunk>)
    ensures r == DecodeHunk(input, pos)
  {
    var lengthField := ReadU32(input, pos);
    if lengthField.Err? {
      return Err(lengthField.error);
    }
    var hunkLen := lengthField.value.value;
    var hunk: seq<Byte> := [];
    var cursor: nat := pos + 4;
    var bytesRead: nat := 0;
    while bytesRead < hunkLen
      invariant HunkLoop(input, hunkLen, HunkState([], pos + 4, 0))
             == HunkLoop(input, hunkLen, HunkState(hunk, cursor, bytesRead))
      decreases hunkLen - bytesRead
    {
      var s :- LoadSubhunk(input, hunkLen, hunk, cursor, bytesRead);
      hunk, cursor, bytesRead := s.out, s.pos, s.bytesRead;
    }
    return Ok(DecodedHunk(hunk, bytesRead + 4, cursor));
  }
}
