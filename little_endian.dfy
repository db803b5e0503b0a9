/**
 * Little-endian serialisation of 32-bit words, as done by the reset-vector
 * builder before the words are handed to the ROM loader: byte 4*i+k of the
 * blob is bits [8k, 8k+8) of word i, whatever the host byte order.
 */
module LittleEndian {

  /** The four bytes of `w`, least significant first. */
  function Le32(w: bv32): (bs: seq<bv8>)
    ensures |bs| == 4
  {
    [(w & 0xff) as bv8, ((w >> 8) & 0xff) as bv8, ((w >> 16) & 0xff) as bv8, ((w >> 24) & 0xff) as bv8]
  }

  /** The word whose little-endian bytes are `bs`. */
  function Word32(bs: seq<bv8>): bv32
    requires |bs| == 4
  {
    Join(bs[0], bs[1], bs[2], bs[3])
  }

  function Join(b0: bv8, b1: bv8, b2: bv8, b3: bv8): bv32
  {
    (b0 as bv32) | ((b1 as bv32) << 8) | ((b2 as bv32) << 16) | ((b3 as bv32) << 24)
  }

  lemma Word32OfLe32(w: bv32)
    ensures Word32(Le32(w)) == w
  {
  }

  lemma JoinSplits(b0: bv8, b1: bv8, b2: bv8, b3: bv8)
    ensures (Join(b0, b1, b2, b3) & 0xff) as bv8 == b0
    ensures ((Join(b0, b1, b2, b3) >> 8) & 0xff) as bv8 == b1
    ensures ((Join(b0, b1, b2, b3) >> 16) & 0xff) as bv8 == b2
    ensures ((Join(b0, b1, b2, b3) >> 24) & 0xff) as bv8 == b3
  {
  }

  lemma Le32OfWord32(bs: seq<bv8>)
    requires |bs| == 4
    ensures Le32(Word32(bs)) == bs
  {
    JoinSplits(bs[0], bs[1], bs[2], bs[3]);
  }

  lemma Le32Bytes(w: bv32)
    ensures Le32(w)[0] == (w & 0xff) as bv8 && Le32(w)[1] == ((w >> 8) & 0xff) as bv8
    ensures Le32(w)[2] == ((w >> 16) & 0xff) as bv8 && Le32(w)[3] == ((w >> 24) & 0xff) as bv8
  {
  }

  /** A word sequence laid out little-endian, word after word. */
  function LeBytes(ws: seq<bv32>): (bs: seq<bv8>)
    ensures |bs| == 4 * |ws|
  {
    if ws == [] then [] else Le32(ws[0]) + LeBytes(ws[1..])
  }

  /** The inverse reading: every four bytes make one word. */
  function Words(bs: seq<bv8>): (ws: seq<bv32>)
    requires |bs| % 4 == 0
    ensures 4 * |ws| == |bs|
  {
    if bs == [] then [] else [Word32(bs[..4])] + Words(bs[4..])
  }

  /** The four bytes of word `i` sit at offsets 4*i .. 4*i+4 of the blob. */
  lemma {:induction false} LeBytesSlice(ws: seq<bv32>, i: nat)
    requires i < |ws|
    ensures LeBytes(ws)[4 * i .. 4 * i + 4] == Le32(ws[i])
  {
    if i > 0 {
      LeBytesSlice(ws[1..], i - 1);
      assert LeBytes(ws) == Le32(ws[0]) + LeBytes(ws[1..]);
      assert LeBytes(ws)[4 * i .. 4 * i + 4] == LeBytes(ws[1..])[4 * (i - 1) .. 4 * (i - 1) + 4];
    }
  }

  /** Byte 4*i+k of the blob is byte k of word i, that is (word_i >> 8k) & 0xff. */
  lemma {:induction false} LeBytesElem(ws: seq<bv32>, i: nat, k: nat)
    requires i < |ws| && k < 4
    ensures LeBytes(ws)[4 * i + k] == Le32(ws[i])[k]
  {
    if i > 0 {
      LeBytesElem(ws[1..], i - 1, k);
    }
  }

  /** Reading the four bytes of word `i` back gives word `i`. */
  lemma LeBytesWordAt(ws: seq<bv32>, i: nat)
    requires i < |ws|
    ensures Word32(LeBytes(ws)[4 * i .. 4 * i + 4]) == ws[i]
  {
    LeBytesSlice(ws, i);
    Word32OfLe32(ws[i]);
  }

  lemma {:induction false} LeBytesAppend(ws: seq<bv32>, w: bv32)
    ensures LeBytes(ws + [w]) == LeBytes(ws) + Le32(w)
  {
    if ws == [] {
      assert ws + [w] == [w];
    } else {
      assert (ws + [w])[1..] == ws[1..] + [w];
      LeBytesAppend(ws[1..], w);
    }
  }

  /** Decoding the serialised words returns the same words. */
  lemma {:induction false} WordsOfLeBytes(ws: seq<bv32>)
    ensures Words(LeBytes(ws)) == ws
  {
    if ws != [] {
      var bs := LeBytes(ws);
      assert bs[..4] == Le32(ws[0]);
      assert bs[4..] == LeBytes(ws[1..]);
      Word32OfLe32(ws[0]);
      WordsOfLeBytes(ws[1..]);
    }
  }

  /** Serialising decoded words returns the same bytes. */
  lemma {:induction false} LeBytesOfWords(bs: seq<bv8>)
    requires |bs| % 4 == 0
    ensures LeBytes(Words(bs)) == bs
  {
    if bs != [] {
      var ws := Words(bs);
      assert ws[0] == Word32(bs[..4]) && ws[1..] == Words(bs[4..]);
      Le32OfWord32(bs[..4]);
      LeBytesOfWords(bs[4..]);
      assert bs == bs[..4] + bs[4..];
    }
  }
}
