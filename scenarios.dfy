/** Two small compressed images decoded by hand, byte by byte. */
module Scenarios {
  import opened Wire
  import opened Hunk
  import opened Image
  import Vll

  /** One hunk whose single subhunk is a lone literal: the payload length 2
      covers the control byte 0x10 (one literal, replay nibble unused) and the
      literal 0x7F, so the loop stops after the literals without reading a
      rewind field. As an image of 6 compressed bytes it is that one byte. */
  lemma SingleLiteralImage()
    ensures DecodeHunk([2, 0, 0, 0, 0x10, 0x7F], 0) == Ok(DecodedHunk([0x7F], 6, 6))
    ensures DecodeImage([2, 0, 0, 0, 0x10, 0x7F], 0, 6, 0) == Ok(Decoded([0x7F], 6, 6))
  {
    var input: seq<Byte> := [2, 0, 0, 0, 0x10, 0x7F];
    var ctrl: Byte := 0x10;
    assert Vll.Decode(input, 5, ctrl / 16) == Ok(Vll.VllRead(1, 0));
    assert [] + input[5..6] == [0x7F];
    assert Literals(input, ctrl, HunkState([], 5, 1)) == Ok(HunkState([0x7F], 6, 2));
    assert Subhunk(input, 2, HunkState([], 4, 0)) == Ok(HunkState([0x7F], 6, 2));
    assert HunkLoop(input, 2, HunkState([], 4, 0)) == Ok(HunkState([0x7F], 6, 2));
    assert DecodeHunk(input, 0) == Ok(DecodedHunk([0x7F], 6, 6));
    assert DecodeImage(input, 6, 6, 6) == Ok(Decoded([], 6, 6));
    DecodeImageStep(input, 0, 6, 0);
    var one: seq<Byte> := [0x7F];
    assert one + [] == one;
  }

  /** The shortest replay: the literal 'A' (0x41) and then a replay of the
      minimum length 4 from one byte back, which copies the byte it has just
      written, giving five 'A's, both as a hunk and as an image of 8 compressed bytes. */
  lemma OverlappingReplayImage()
    ensures DecodeHunk([4, 0, 0, 0, 0x10, 0x41, 1, 0], 0) == Ok(DecodedHunk([0x41, 0x41, 0x41, 0x41, 0x41], 8, 8))
    ensures DecodeImage([4, 0, 0, 0, 0x10, 0x41, 1, 0], 0, 8, 0) == Ok(Decoded([0x41, 0x41, 0x41, 0x41, 0x41], 8, 8))
  {
    var input: seq<Byte> := [4, 0, 0, 0, 0x10, 0x41, 1, 0];
    var ctrl: Byte := 0x10;
    var five: seq<Byte> := [0x41, 0x41, 0x41, 0x41, 0x41];
    assert Vll.Decode(input, 5, ctrl / 16) == Ok(Vll.VllRead(1, 0));
    assert Vll.Decode(input, 8, ctrl % 16) == Ok(Vll.VllRead(0, 0));
    assert [] + input[5..6] == [0x41];
    assert Literals(input, ctrl, HunkState([], 5, 1)) == Ok(HunkState([0x41], 6, 2));
    assert ReadU16(input, 6) == Ok(Field(1, 8));
    assert Replay([0x41], 1, 4) == five;
    assert Window(input, ctrl, HunkState([0x41], 6, 2)) == Ok(HunkState(five, 8, 4));
    assert Subhunk(input, 4, HunkState([], 4, 0)) == Ok(HunkState(five, 8, 4));
    assert HunkLoop(input, 4, HunkState([], 4, 0)) == Ok(HunkState(five, 8, 4));
    assert DecodeHunk(input, 0) == Ok(DecodedHunk(five, 8, 8));
    assert DecodeImage(input, 8, 8, 8) == Ok(Decoded([], 8, 8));
    DecodeImageStep(input, 0, 8, 0);
    assert five + [] == five;
  }
}
