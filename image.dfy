/** A compressed image (load_img in chowimg.py): successive hunks, decoded
    and concatenated until the bytes consumed reach a length the caller knows;
    the format itself has no end marker. */
module Image {
  import opened Wire
  import opened Hunk

  /** A decoded image: its bytes, the running byte total when decoding stopped,
      and the cursor after the last hunk. */
  datatype Decoded = Decoded(data: seq<Byte>, bytesRead: nat, next: nat)

  /** Prefixes the bytes of a successful decode with prefix. */
  function Prepend(prefix: seq<Byte>, r: Result<Decoded>): (p: Result<Decoded>)
    ensures p.Ok? <==> r.Ok?
    ensures r.Ok? ==> p.value.bytesRead == r.value.bytesRead && p.value.next == r.value.next
  {
    match r
    case Ok(img) => Ok(Decoded(prefix + img.data, img.bytesRead, img.next))
    case Err(e) => Err(e)
  }

  lemma PrependNothing(r: Result<Decoded>)
    ensures Prepend([], r) == r
  {
    if r.Ok? {
      assert [] + r.value.data == r.value.data;
    }
  }

  lemma PrependTwice(a: seq<Byte>, b: seq<Byte>, r: Result<Decoded>)
    ensures Prepend(a, Prepend(b, r)) == Prepend(a + b, r)
  {
    if r.Ok? {
      assert a + (b + r.value.data) == (a + b) + r.value.data;
    }
  }

  /** The hunks from pos on, while the running total (starting at total) is
      below compressedLen, each hunk's bytes followed by those of the rest. */
  function DecodeImage(input: seq<Byte>, pos: nat, compressedLen: nat, total: nat): (r: Result<Decoded>)
    ensures r.Ok? ==> compressedLen <= r.value.bytesRead && total <= r.value.bytesRead
    decreases compressedLen - total
  {
    if total >= compressedLen then Ok(Decoded([], total, pos))
    else
      var h :- DecodeHunk(input, pos);
      Prepend(h.data, DecodeImage(input, h.next, compressedLen, total + h.bytesRead))
  }

  lemma DecodeImageStep(input: seq<Byte>, pos: nat, compressedLen: nat, total: nat)
    requires total < compressedLen && DecodeHunk(input, pos).Ok?
    ensures var h := DecodeHunk(input, pos).value;
            DecodeImage(input, pos, compressedLen, total)
            == Prepend(h.data, DecodeImage(input, h.next, compressedLen, total + h.bytesRead))
  {
  }

  /** load_img stops as soon as the running total reaches compressedLen; the
      total then counts exactly the bytes the cursor moved over, and with
      nothing left to consume nothing is read. */
  lemma {:induction false} DecodeImageAccounting(input: seq<Byte>, pos: nat, compressedLen: nat, total: nat)
    requires DecodeImage(input, pos, compressedLen, total).Ok?
    ensures var d := DecodeImage(input, pos, compressedLen, total).value;
            d.bytesRead >= compressedLen && d.bytesRead >= total
            && d.next - pos == d.bytesRead - total
            && (pos <= |input| ==> d.next <= |input|)
            && (compressedLen <= total ==> d == Decoded([], total, pos))
    decreases compressedLen - total
  {
    if total < compressedLen {
      var h := DecodeHunk(input, pos).value;
      DecodeHunkAccounting(input, pos);
      DecodeImageAccounting(input, h.next, compressedLen, total + h.bytesRead);
    }
  }

  /** Decoding is compositional along hunk boundaries: when the hunks that
      cover compressedLen bytes end exactly there, decoding a longer length
      yields their bytes followed by whatever the hunks after them decode to. */
  lemma {:induction false} DecodeImageSplits(input: seq<Byte>, pos: nat, compressedLen: nat, longerLen: nat, total: nat)
    requires compressedLen <= longerLen
    requires DecodeImage(input, pos, compressedLen, total).Ok?
    requires DecodeImage(input, pos, compressedLen, total).value.bytesRead == compressedLen
    ensures var d := DecodeImage(input, pos, compressedLen, total).value;
            DecodeImage(input, pos, longerLen, total)
            == Prepend(d.data, DecodeImage(input, d.next, longerLen, compressedLen))
    decreases compressedLen - total
  {
    var d := DecodeImage(input, pos, compressedLen, total).value;
    if total >= compressedLen {
      PrependNothing(DecodeImage(input, pos, longerLen, total));
    } else {
      var h := DecodeHunk(input, pos).value;
      DecodeImageSplits(input, h.next, compressedLen, longerLen, total + h.bytesRead);
      var d' := DecodeImage(input, h.next, compressedLen, total + h.bytesRead).value;
      PrependTwice(h.data, d'.data, DecodeImage(input, d.next, longerLen, compressedLen));
    }
  }

  /** An image's decode depends on no input byte at or past the cursor it ends
      at: whatever follows the compressed image in the input changes nothing. */
  lemma {:induction false} DecodeImageAgree(a: seq<Byte>, b: seq<Byte>, n: nat, pos: nat, compressedLen: nat, total: nat)
    requires DecodeImage(a, pos, compressedLen, total).Ok?
    requires DecodeImage(a, pos, compressedLen, total).value.next <= n && SameUpTo(a, b, n)
    ensures DecodeImage(b, pos, compressedLen, total) == DecodeImage(a, pos, compressedLen, total)
    decreases compressedLen - total
  {
    if total < compressedLen {
      var h := DecodeHunk(a, pos).value;
      DecodeImageStep(a, pos, compressedLen, total);
      DecodeImageAccounting(a, h.next, compressedLen, total + h.bytesRead);
      DecodeHunkAgree(a, b, n, pos);
      ghost var rest := DecodeImage(a, h.next, compressedLen, total + h.bytesRead);
      assert rest.Ok? && rest.value.next <= n;
      DecodeImageAgree(a, b, n, h.next, compressedLen, total + h.bytesRead);
      DecodeImageStep(b, pos, compressedLen, total);
    }
  }

  /** load_img (chowimg.py:73-86): decodes hunks from the cursor pos on and
      appends each to the image until compressedLen bytes have been consumed. */
  method LoadImg(input: seq<Byte>, pos: nat, compressedLen: nat) returns (r: Result<seq<Byte>>)
    ensures r.Ok? <==> DecodeImage(input, pos, compressedLen, 0).Ok?
    ensures r.Ok? ==> r.value == DecodeImage(input, pos, compressedLen, 0).value.data
    ensures r.Err? ==> r.error == DecodeImage(input, pos, compressedLen, 0).error
  {
    ghost var image := DecodeImage(input, pos, compressedLen, 0);
    var imgDat: seq<Byte> := [];
    var totalBytesRead: nat := 0;
    var cursor: nat := pos;
    PrependNothing(image);
    while totalBytesRead < compressedLen
      invariant image == Prepend(imgDat, DecodeImage(input, cursor, compressedLen, totalBytesRead))
      decreases compressedLen - totalBytesRead
    {
      var hunk := LoadHunk(input, cursor);
      if hunk.Err? {
        assert DecodeImage(input, cursor, compressedLen, totalBytesRead) == Err(hunk.error);
        return Err(hunk.error);
      }
      ghost var rest := DecodeImage(input, hunk.value.next, compressedLen, totalBytesRead + hunk.value.bytesRead);
      DecodeImageStep(input, cursor, compressedLen, totalBytesRead);
      PrependTwice(imgDat, hunk.value.data, rest);
      imgDat := imgDat + hunk.value.data;
      totalBytesRead := totalBytesRead + hunk.value.bytesRead;
      cursor := hunk.value.next;
    }
    assert imgDat + [] == imgDat;
    return Ok(imgDat);
  }
}
