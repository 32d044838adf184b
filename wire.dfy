/** Bytes, errors and the fixed-width little-endian fields of the compressed
    asset format (chowimg.py reads them with struct.unpack "B", "<H" and "<I"). */
module Wire {

  type Byte = b: int | 0 <= b < 256

  /** The ways a decode call can fail. A short read (struct.unpack on fewer
      bytes than the field needs) is TruncatedInput; the two window errors
      describe a replay whose source lies outside the output decoded so far. */
  datatype Error = TruncatedInput | NegativeWindowStart | WindowStartPastEnd

  datatype Result<+T> = Ok(value: T) | Err(error: Error) {
    predicate IsFailure() { Err? }

    function PropagateFailure<U>(): Result<U>
      requires Err?
    {
      Err(error)
    }

    function Extract(): T
      requires Ok?
    {
      value
    }
  }

  /** A fixed-width field read at some cursor: its value and the cursor after it. */
  datatype Field = Field(value: nat, next: nat)

  function Pow256(n: nat): (p: nat)
    ensures p >= 1
  {
    if n == 0 then 1 else 256 * Pow256(n - 1)
  }

  /** The n-byte little-endian representation of v, least significant byte first. */
  function LittleEndian(v: nat, n: nat): (s: seq<Byte>)
    ensures |s| == n
  {
    if n == 0 then [] else [v % 256] + LittleEndian(v / 256, n - 1)
  }

  /** The number a little-endian byte string stands for. */
  function FromLittleEndian(s: seq<Byte>): nat
  {
    if s == [] then 0 else s[0] + 256 * FromLittleEndian(s[1..])
  }

  lemma {:induction false} FromLittleEndianBound(s: seq<Byte>)
    ensures FromLittleEndian(s) < Pow256(|s|)
  {
    if s != [] {
      FromLittleEndianBound(s[1..]);
    }
  }

  /** Reading a byte string as a little-endian number and writing the number
      back in as many bytes gives the same string. */
  lemma {:induction false} LittleEndianOfFromLittleEndian(s: seq<Byte>)
    ensures LittleEndian(FromLittleEndian(s), |s|) == s
  {
    if s != [] {
      var v := FromLittleEndian(s);
      assert v % 256 == s[0] && v / 256 == FromLittleEndian(s[1..]);
      LittleEndianOfFromLittleEndian(s[1..]);
    }
  }

  /** struct.unpack("<H") at pos: fails with TruncatedInput exactly when fewer
      than 2 bytes remain, and otherwise moves the cursor past them. */
  function ReadU16(input: seq<Byte>, pos: nat): (r: Result<Field>)
    ensures r.Ok? <==> pos + 2 <= |input|
    ensures r.Err? ==> r.error == TruncatedInput
    ensures r.Ok? ==> r.value.next == pos + 2
  {
    if pos + 2 <= |input| then Ok(Field(input[pos] as int + 0x100 * input[pos + 1] as int, pos + 2))
    else Err(TruncatedInput)
  }

  /** struct.unpack("<I") at pos, likewise with 4 bytes. */
  function ReadU32(input: seq<Byte>, pos: nat): (r: Result<Field>)
    ensures r.Ok? <==> pos + 4 <= |input|
    ensures r.Err? ==> r.error == TruncatedInput
    ensures r.Ok? ==> r.value.next == pos + 4
  {
    if pos + 4 <= |input| then
      Ok(Field(input[pos] as int + 0x100 * input[pos + 1] as int
                 + 0x1_0000 * input[pos + 2] as int + 0x100_0000 * input[pos + 3] as int, pos + 4))
    else Err(TruncatedInput)
  }

  /** The 16-bit field is the little-endian number its 2 bytes stand for: the
      number below 256^2 whose 2-byte little-endian representation they are. */
  lemma ReadU16IsLittleEndian(input: seq<Byte>, pos: nat)
    requires pos + 2 <= |input|
    ensures ReadU16(input, pos).value.value == FromLittleEndian(input[pos..pos + 2])
    ensures ReadU16(input, pos).value.value < Pow256(2)
    ensures LittleEndian(ReadU16(input, pos).value.value, 2) == input[pos..pos + 2]
  {
    var s := input[pos..pos + 2];
    assert s[1..][1..] == [];
    assert FromLittleEndian(s[1..]) == s[1];
    FromLittleEndianBound(s);
    LittleEndianOfFromLittleEndian(s);
  }

  /** The 32-bit field likewise, with 4 bytes. */
  lemma ReadU32IsLittleEndian(input: seq<Byte>, pos: nat)
    requires pos + 4 <= |input|
    ensures ReadU32(input, pos).value.value == FromLittleEndian(input[pos..pos + 4])
    ensures ReadU32(input, pos).value.value < Pow256(4)
    ensures LittleEndian(ReadU32(input, pos).value.value, 4) == input[pos..pos + 4]
  {
    var s := input[pos..pos + 4];
    assert s[1..][1..][1..][1..] == [];
    assert FromLittleEndian(s[1..][1..][1..]) == s[3];
    assert FromLittleEndian(s[1..][1..]) == s[2] as int + 0x100 * s[3] as int;
    assert FromLittleEndian(s[1..]) == s[1] as int + 0x100 * s[2] as int + 0x1_0000 * s[3] as int;
    FromLittleEndianBound(s);
    LittleEndianOfFromLittleEndian(s);
  }

  /** Two inputs that hold the same first n bytes. */
  predicate SameUpTo(a: seq<Byte>, b: seq<Byte>, n: nat)
  {
    n <= |a| && n <= |b| && a[..n] == b[..n]
  }

  lemma SameUpToShorter(a: seq<Byte>, b: seq<Byte>, n: nat, m: nat)
    requires SameUpTo(a, b, n) && m <= n
    ensures SameUpTo(a, b, m)
  {
    assert a[..m] == a[..n][..m] && b[..m] == b[..n][..m];
  }

  lemma SameSlice(a: seq<Byte>, b: seq<Byte>, n: nat, i: nat, j: nat)
    requires SameUpTo(a, b, n) && i <= j <= n
    ensures a[i..j] == b[i..j]
  {
    assert a[i..j] == a[..n][i..j];
    assert b[i..j] == b[..n][i..j];
  }

  /** A field read only looks at its own bytes. */
  lemma ReadU16Agree(a: seq<Byte>, b: seq<Byte>, n: nat, pos: nat)
    requires SameUpTo(a, b, n) && pos + 2 <= n
    ensures ReadU16(b, pos) == ReadU16(a, pos)
  {
    SameSlice(a, b, n, pos, pos + 2);
    assert a[pos] == a[pos..pos + 2][0] && a[pos + 1] == a[pos..pos + 2][1];
    assert b[pos] == b[pos..pos + 2][0] && b[pos + 1] == b[pos..pos + 2][1];
  }

  lemma ReadU32Agree(a: seq<Byte>, b: seq<Byte>, n: nat, pos: nat)
    requires SameUpTo(a, b, n) && pos + 4 <= n
    ensures ReadU32(b, pos) == ReadU32(a, pos)
  {
    SameSlice(a, b, n, pos, pos + 4);
    assert a[pos] == a[pos..pos + 4][0] && a[pos + 1] == a[pos..pos + 4][1];
    assert a[pos + 2] == a[pos..pos + 4][2] && a[pos + 3] == a[pos..pos + 4][3];
    assert b[pos] == b[pos..pos + 4][0] && b[pos + 1] == b[pos..pos + 4][1];
    assert b[pos + 2] == b[pos..pos + 4][2] && b[pos + 3] == b[pos..pos + 4][3];
  }
}
