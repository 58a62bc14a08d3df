/** Octets and the big-endian 16-bit words that SDL_net's
    SDLNet_Write16 / SDLNet_Read16 put on the wire. */
module Bytes {

  newtype byte = x: int | 0 <= x < 0x100
  newtype u16 = x: int | 0 <= x < 0x1_0000

  /** The two bytes SDLNet_Write16 stores: most significant first. */
  function Write16(v: u16): (r: seq<byte>)
    ensures |r| == 2
    ensures Read16(r[0], r[1]) == v
  {
    [(v / 0x100) as byte, (v % 0x100) as byte]
  }

  /** The word SDLNet_Read16 assembles from two bytes, the first one high. */
  function Read16(hi: byte, lo: byte): u16
  {
    (hi as int * 0x100 + lo as int) as u16
  }

  /** Every pair of bytes is the encoding of the word read from it. */
  lemma Write16Read16(hi: byte, lo: byte)
    ensures Write16(Read16(hi, lo)) == [hi, lo]
  {
  }

  /** A sequence of words, each written big-endian, one after the other. */
  function Words(pv: seq<u16>): (r: seq<byte>)
    ensures |r| == 2 * |pv|
  {
    if pv == [] then [] else Write16(pv[0]) + Words(pv[1..])
  }

  /** Reads consecutive big-endian words out of an even number of bytes. */
  function ReadWords(b: seq<byte>): (r: seq<u16>)
    requires |b| % 2 == 0
    ensures |r| == |b| / 2
  {
    if b == [] then [] else [Read16(b[0], b[1])] + ReadWords(b[2..])
  }

  /** Word j of the encoding sits at offsets 2j and 2j+1. */
  lemma {:induction false} WordsAt(pv: seq<u16>, j: nat)
    requires j < |pv|
    ensures Words(pv)[2 * j .. 2 * j + 2] == Write16(pv[j])
  {
    if j > 0 {
      WordsAt(pv[1..], j - 1);
      assert Words(pv) == Write16(pv[0]) + Words(pv[1..]);
      assert Words(pv)[2 * j .. 2 * j + 2] == Words(pv[1..])[2 * (j - 1) .. 2 * (j - 1) + 2];
    }
  }

  /** Decoding the words written for pv gives back pv. */
  lemma {:induction false} ReadWordsWords(pv: seq<u16>)
    ensures ReadWords(Words(pv)) == pv
  {
    if pv != [] {
      var w := Write16(pv[0]);
      assert Words(pv) == w + Words(pv[1..]);
      assert Words(pv)[2..] == Words(pv[1..]);
      ReadWordsWords(pv[1..]);
    }
  }

  /** Writing one more word extends the encoding by that word's two bytes. */
  lemma {:induction false} WordsSnoc(pv: seq<u16>, v: u16)
    ensures Words(pv + [v]) == Words(pv) + Write16(v)
  {
    if pv == [] {
      assert [v][1..] == [];
    } else {
      assert (pv + [v])[1..] == pv[1..] + [v];
      WordsSnoc(pv[1..], v);
    }
  }

  /** Reading two more bytes extends the decoded words by one. */
  lemma {:induction false} ReadWordsSnoc(b: seq<byte>, hi: byte, lo: byte)
    requires |b| % 2 == 0
    ensures ReadWords(b + [hi, lo]) == ReadWords(b) + [Read16(hi, lo)]
  {
    if b == [] {
      assert [hi, lo][2..] == [];
    } else {
      assert (b + [hi, lo])[2..] == b[2..] + [hi, lo];
      ReadWordsSnoc(b[2..], hi, lo);
    }
  }
}
