/** The format's variable-length unsigned integers (load_vll in chowimg.py).
    A value is seeded by a 4-bit nibble taken from a control byte; a seed of 15
    is an escape: the bytes that follow are added to it, one by one, for as
    long as the byte just added is 255. */
module Vll {
  import opened Wire

  type Nibble = n: nat | n < 16

  /** A decoded VLL: its value and the number of bytes it consumed after the nibble. */
  datatype VllRead = VllRead(value: nat, count: nat)

  /** Adds dv to the value and dc to the byte count of a successful read. */
  function Shift(r: Result<VllRead>, dv: nat, dc: nat): Result<VllRead>
  {
    match r
    case Ok(e) => Ok(VllRead(e.value + dv, e.count + dc))
    case Err(x) => Err(x)
  }

  /** The escape bytes at pos: their sum and how many there are. */
  function Escape(input: seq<Byte>, pos: nat): (r: Result<VllRead>)
    ensures r.Err? ==> r.error == TruncatedInput
    ensures r.Ok? ==> 1 <= r.value.count && pos + r.value.count <= |input|
    decreases |input| - pos
  {
    if pos >= |input| then Err(TruncatedInput)
    else if input[pos] != 255 then Ok(VllRead(input[pos], 1))
    else Shift(Escape(input, pos + 1), 255, 1)
  }

  /** The VLL seeded by firstNibble whose escape bytes, if any, start at pos. */
  function Decode(input: seq<Byte>, pos: nat, firstNibble: Nibble): (r: Result<VllRead>)
    ensures r.Err? ==> r.error == TruncatedInput
    ensures r.Ok? && firstNibble == 15 ==> pos + r.value.count <= |input|
  {
    if firstNibble != 15 then Ok(VllRead(firstNibble, 0)) else Shift(Escape(input, pos), 15, 0)
  }

  function Sum(s: seq<Byte>): nat
  {
    if s == [] then 0 else s[0] + Sum(s[1..])
  }

  /** A complete escape sequence: zero or more 255 bytes closed by one byte that is not 255. */
  predicate IsEscapeRun(run: seq<Byte>)
  {
    |run| >= 1 && run[|run| - 1] != 255 && forall i :: 0 <= i < |run| - 1 ==> run[i] == 255
  }

  lemma {:induction false} EscapeCharacterization(input: seq<Byte>, pos: nat)
    ensures Escape(input, pos).Ok? ==>
              var e := Escape(input, pos).value;
              IsEscapeRun(input[pos..pos + e.count]) && e.value == Sum(input[pos..pos + e.count])
    ensures Escape(input, pos).Err? ==> forall i :: pos <= i < |input| ==> input[i] == 255
    decreases |input| - pos
  {
    if pos < |input| {
      if input[pos] != 255 {
        assert input[pos..pos + 1][1..] == [];
      } else {
        EscapeCharacterization(input, pos + 1);
        var r := Escape(input, pos + 1);
        if r.Ok? {
          var k := r.value.count;
          var run := input[pos..pos + k + 1];
          assert run[1..] == input[pos + 1..pos + 1 + k];
          assert forall i :: 1 <= i < |run| ==> run[i] == run[1..][i - 1];
        }
      }
    }
  }

  /** A complete escape run of k bytes starts at pos. */
  predicate RunAt(input: seq<Byte>, pos: nat, k: nat)
  {
    pos + k <= |input| && IsEscapeRun(input[pos..pos + k])
  }

  /** The escape sequence at pos is determined by the bytes: any complete run
      there is the one Escape reads. */
  lemma {:induction false} EscapeRunUnique(input: seq<Byte>, pos: nat, k: nat)
    requires RunAt(input, pos, k)
    ensures Escape(input, pos) == Ok(VllRead(Sum(input[pos..pos + k]), k))
    decreases k
  {
    var run := input[pos..pos + k];
    assert input[pos] == run[0];
    if k == 1 {
      assert run[1..] == [];
    } else {
      assert run[1..] == input[pos + 1..pos + k];
      assert forall i :: 0 <= i < k - 2 ==> run[1..][i] == run[i + 1];
      EscapeRunUnique(input, pos + 1, k - 1);
    }
  }

  /** load_vll with a seed below 15: the value is the seed and nothing is read. */
  lemma DecodeSeedOnly(input: seq<Byte>, pos: nat, firstNibble: Nibble)
    requires firstNibble < 15
    ensures Decode(input, pos, firstNibble) == Ok(VllRead(firstNibble, 0))
  {
  }

  /** load_vll with the seed 15: it succeeds exactly when the remaining bytes
      hold a complete escape run, which it consumes whole (at least one byte,
      every byte but the last equal to 255, the last not), reporting their
      number as its count and 15 plus their sum as its value. */
  lemma DecodeEscaped(input: seq<Byte>, pos: nat)
    ensures Decode(input, pos, 15).Ok? <==> exists k :: RunAt(input, pos, k)
    ensures Decode(input, pos, 15).Ok? ==>
              var v := Decode(input, pos, 15).value;
              v.count >= 1 && RunAt(input, pos, v.count)
              && v.value == 15 + Sum(input[pos..pos + v.count])
    ensures forall k :: RunAt(input, pos, k) ==>
              Decode(input, pos, 15) == Ok(VllRead(15 + Sum(input[pos..pos + k]), k))
  {
    EscapeCharacterization(input, pos);
    var r := Decode(input, pos, 15);
    if r.Ok? {
      assert RunAt(input, pos, r.value.count);
    }
    forall k | RunAt(input, pos, k)
      ensures Decode(input, pos, 15) == Ok(VllRead(15 + Sum(input[pos..pos + k]), k))
    {
      EscapeRunUnique(input, pos, k);
    }
  }

  /** Decoding a VLL reads no byte past the ones it counts. */
  lemma {:induction false} EscapeAgree(a: seq<Byte>, b: seq<Byte>, n: nat, pos: nat)
    requires Escape(a, pos).Ok? && pos + Escape(a, pos).value.count <= n && SameUpTo(a, b, n)
    ensures Escape(b, pos) == Escape(a, pos)
    decreases |a| - pos
  {
    assert a[pos] == a[..n][pos] && b[pos] == b[..n][pos];
    if a[pos] == 255 {
      EscapeAgree(a, b, n, pos + 1);
    }
  }

  lemma DecodeAgree(a: seq<Byte>, b: seq<Byte>, n: nat, pos: nat, firstNibble: Nibble)
    requires Decode(a, pos, firstNibble).Ok? && pos + Decode(a, pos, firstNibble).value.count <= n
    requires SameUpTo(a, b, n)
    ensures Decode(b, pos, firstNibble) == Decode(a, pos, firstNibble)
  {
    if firstNibble == 15 {
      EscapeAgree(a, b, n, pos);
    }
  }

  /** load_vll (chowimg.py:23-32): starts from the seed and, when the seed is 15,
      keeps reading and adding bytes while the last byte read was 255. */
  method LoadVll(input: seq<Byte>, pos: nat, firstNibble: Nibble) returns (r: Result<VllRead>)
    ensures r == Decode(input, pos, firstNibble)
  {
    var bytesRead: nat := 0;
    var vll: nat := firstNibble;
    if firstNibble == 15 {
      var latestByte: Byte := 255;
      while latestByte == 255
        invariant latestByte == 255 ==>
                    Decode(input, pos, 15) == Shift(Escape(input, pos + bytesRead), vll, bytesRead)
        invariant latestByte != 255 ==> Decode(input, pos, 15) == Ok(VllRead(vll, bytesRead))
        decreases |input| - (pos + bytesRead)
      {
        if pos + bytesRead >= |input| {
          return Err(TruncatedInput);
        }
        latestByte := input[pos + bytesRead];
        bytesRead := bytesRead + 1;
        vll := vll + latestByte;
      }
    }
    return Ok(VllRead(vll, bytesRead));
  }
}
