/** What is stored of a record and how it is read, byte by byte. */
module RecordBytes {
  import opened Keys
  import opened LittleEndian
  import opened PageBytes
  import opened SlottedLayout
  import S = SlottedPage
  import opened Pager
  import opened Records

  /** A descriptor: 1, the length of the record in four bytes, the number of pieces in two, */
  lemma DescriptorHead(length: nat, chunks: seq<Chunk>)
    ensures var d := Descriptor(length, chunks);
            |d| == 7 + 10 * |chunks| && d[..7] == [1] + ToLE(length, 4) + ToLE(|chunks|, 2)
  {
    hide ToLE, ChunksBytes;
    assert Descriptor(length, chunks)[..7] == [1] + ToLE(length, 4) + ToLE(|chunks|, 2);
  }

  /** and for each piece its page in eight bytes and its slot in two. */
  lemma DescriptorPiece(length: nat, chunks: seq<Chunk>, i: nat)
    requires i < |chunks|
    ensures Descriptor(length, chunks)[7 + 10 * i..17 + 10 * i] == ToLE(chunks[i].page, 8) + ToLE(chunks[i].slot, 2)
  {
    var d, head := Descriptor(length, chunks), [KIND_OVERFLOW] + ToLE(length, 4) + ToLE(|chunks|, 2);
    ChunkAt(chunks, i);
    hide ToLE, ChunksBytes;
    assert d == head + ChunksBytes(chunks) && |head| == 7;
    assert d[7..] == ChunksBytes(chunks);
    assert d[7..][10 * i..10 * i + 10] == d[7 + 10 * i..17 + 10 * i];
  }

  function Long(b: Bytes, off: nat): nat
    requires off + 4 <= |b|
  {
    Word(b, off) + 0x1_0000 * Word(b, off + 2)
  }

  lemma WordIs(b: Bytes)
    ensures |b| == 2 ==> FromLE(b) == Word(b, 0)
    ensures |b| == 4 ==> FromLE(b) == Long(b, 0)
  {
    if |b| == 2 || |b| == 4 {
      var c := b[1..];
      assert FromLE(b) == b[0] as nat + 256 * FromLE(c) && FromLE(c) == b[1] as nat + 256 * FromLE(c[1..]);
      if |b| == 4 {
        var d := c[1..];
        var e := d[1..];
        assert FromLE(d) == b[2] as nat + 256 * FromLE(e) && FromLE(e) == b[3] as nat + 256 * FromLE(e[1..]);
      }
    }
  }

  /** How a record is read, from what its slot holds: after a 0, as it is; after a 1, as a descriptor of the right size and of
      1 to 65536 bytes, whose pieces have that length together; anything else is corrupt. */
  lemma ReadAs(pages: seq<Bytes>, id: RecordId, raw: Bytes)
    requires Lookup(pages, id.page, id.slot) == Got(raw)
    ensures raw != [] && raw[0] == 0 ==> RecordOutcome(pages, id) == Got(raw[1..])
    ensures raw == [] || raw[0] > 1 ==> RecordOutcome(pages, id) == Failed(SlotFailed(S.Corrupt))
    ensures raw != [] && raw[0] == 1 && (|raw| < 7 || |raw| != 7 + 10 * Word(raw, 5) || Long(raw, 1) == 0 || Long(raw, 1) > 65536) ==>
              RecordOutcome(pages, id) == Failed(SlotFailed(S.Corrupt))
    ensures raw != [] && raw[0] == 1 && RecordOutcome(pages, id).Got? ==> |RecordOutcome(pages, id).value| == Long(raw, 1)
  {
    hide Lookup, FromLE, Gathered;
    if |raw| >= 7 {
      WordIs(raw[5..7]);
      WordIs(raw[1..5]);
    }
  }

  /** The pieces listed are read one after the other, and the first that cannot be read decides. */
  lemma PiecesReadAs(pages: seq<Bytes>, chunks: seq<Chunk>, n: nat)
    requires n < |chunks|
    ensures Gathered(pages, chunks, 0) == Got([])
    ensures Gathered(pages, chunks, n).Failed? ==> Gathered(pages, chunks, n + 1) == Gathered(pages, chunks, n)
    ensures Gathered(pages, chunks, n).Got? ==>
              match Lookup(pages, chunks[n].page, chunks[n].slot)
              case Failed(e) => Gathered(pages, chunks, n + 1) == Failed(e)
              case Got(piece) => Gathered(pages, chunks, n + 1) == Got(Gathered(pages, chunks, n).value + piece)
  {
    hide Lookup;
    assert Gathered(pages, chunks, n + 1) ==
           match Gathered(pages, chunks, n)
           case Failed(e) => Failed(e)
           case Got(out) =>
             match Lookup(pages, chunks[n].page, chunks[n].slot)
             case Failed(e) => Failed(e)
             case Got(piece) => Got(out + piece);
  }
}
