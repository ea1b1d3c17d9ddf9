/** 32-bit words in memory, the low byte first. */
module Words {
  import opened Disk

  type Word = x: int | 0 <= x < 0x1_0000_0000

  /** w >> 8 * k */
  function Shifted(w: Word, k: nat): Word {
    if k == 0 then w else Shifted(w, k - 1) / 0x100
  }

  /** The k-th byte of a word. */
  function ByteOf(w: Word, k: nat): Byte {
    (Shifted(w, k) % 0x100) as Byte
  }

  function Join(b0: Byte, b1: Byte, b2: Byte, b3: Byte): Word {
    b0 as int + 0x100 * (b1 as int + 0x100 * (b2 as int + 0x100 * b3 as int))
  }

  function WordAt(b: seq<Byte>, p: nat): Word
    requires p + 4 <= |b|
  {
    Join(b[p], b[p + 1], b[p + 2], b[p + 3])
  }

  lemma BytesOfJoin(b0: Byte, b1: Byte, b2: Byte, b3: Byte)
    ensures var w := Join(b0, b1, b2, b3);
            ByteOf(w, 0) == b0 && ByteOf(w, 1) == b1 && ByteOf(w, 2) == b2 && ByteOf(w, 3) == b3
  {
    var w := Join(b0, b1, b2, b3);
    assert Shifted(w, 1) == b1 as int + 0x100 * (b2 as int + 0x100 * b3 as int);
    assert Shifted(w, 2) == b2 as int + 0x100 * b3 as int;
    assert Shifted(w, 3) == b3 as int;
  }

  lemma JoinOfBytes(w: Word)
    ensures Join(ByteOf(w, 0), ByteOf(w, 1), ByteOf(w, 2), ByteOf(w, 3)) == w
  {
  }

  function Encode(ws: seq<Word>): (b: seq<Byte>)
    ensures |b| == 4 * |ws|
  {
    seq(4 * |ws|, k requires 0 <= k < 4 * |ws| => ByteOf(ws[k / 4], k % 4))
  }

  function Decode(b: seq<Byte>): (ws: seq<Word>)
    requires |b| % 4 == 0
    ensures 4 * |ws| == |b|
  {
    seq(|b| / 4, k requires 0 <= k < |b| / 4 => WordAt(b, 4 * k))
  }

  lemma EncodeAt(ws: seq<Word>, p: nat, k: nat)
    requires p < |ws| && k < 4
    ensures Encode(ws)[4 * p + k] == ByteOf(ws[p], k)
  {
  }

  lemma WordAtEncode(ws: seq<Word>, p: nat)
    requires p < |ws|
    ensures WordAt(Encode(ws), 4 * p) == ws[p]
  {
    EncodeAt(ws, p, 0);
    EncodeAt(ws, p, 1);
    EncodeAt(ws, p, 2);
    EncodeAt(ws, p, 3);
    JoinOfBytes(ws[p]);
  }

  /** The low byte comes first. */
  lemma LowByteFirst(ws: seq<Word>, p: nat)
    requires p < |ws|
    ensures var b := Encode(ws);
            ws[p] == b[4 * p] as int + 0x100 * b[4 * p + 1] as int + 0x1_0000 * b[4 * p + 2] as int
                   + 0x100_0000 * b[4 * p + 3] as int
  {
    WordAtEncode(ws, p);
  }

  lemma DecodeEncode(ws: seq<Word>)
    ensures Decode(Encode(ws)) == ws
  {
    forall p | 0 <= p < |ws|
      ensures Decode(Encode(ws))[p] == ws[p]
    {
      WordAtEncode(ws, p);
    }
  }

  lemma EncodeDecode(b: seq<Byte>)
    requires |b| % 4 == 0
    ensures Encode(Decode(b)) == b
  {
    forall k | 0 <= k < |b|
      ensures Encode(Decode(b))[k] == b[k]
    {
      var p := 4 * (k / 4);
      BytesOfJoin(b[p], b[p + 1], b[p + 2], b[p + 3]);
    }
  }
}
