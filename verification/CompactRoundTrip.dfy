/**
  Compiler and loader together: whatever the assembler accepts for compression, the loader
  expands to the same cells, in place, and its ring never comes near its capacity.
  */
module CompactRoundTrip {
  import opened CompactFormat
  import opened CompactLoader
  import opened CompactWriter
  import opened Words

  /** The writer counts bytes where the ring counts cells, so its margin of 62 bytes leaves
      at most 15 cells waiting. */
  lemma MarginFitsRing(gs: seq<seq<Byte>>, cells: seq<UCell>)
    requires Encodes(gs, cells) && KeepsMargin(cells)
    ensures FitsRing(gs)
    ensures forall k :: 0 <= k < |gs| ==> Waiting(gs, k) <= 15
  {
    forall k | 0 <= k < |gs|
      ensures Waiting(gs, k) <= 15
    {
      EncodedStreamLength(gs, cells, k);
      assert EncodedLength(gs, k) - 4 * k < 62;
    }
  }

  lemma EncodedStream(gs: seq<seq<Byte>>, cells: seq<UCell>)
    requires Encodes(gs, cells)
    ensures Groups(Concat(gs)) == gs && WellFormed(Concat(gs)) && Decode(Concat(gs)) == cells
    ensures |Concat(gs)| == StreamLength(cells)
  {
    GroupsConcat(gs);
    EncodedStreamLength(gs, cells, |gs|);
    assert gs[..|gs|] == gs && cells[..|cells|] == cells;
  }

  lemma PlacedCells(image: seq<Byte>, cells: seq<UCell>)
    requires 4 * |cells| <= |image| && Placed(image, cells, 0)
    ensures forall i :: 0 <= i < |cells| ==> CellAt(image, 4 * i) == cells[i]
  {
    forall i | 0 <= i < |cells|
      ensures CellAt(image, 4 * i) == cells[i]
    {
      StoredCellReadsBack(image, 4 * i, cells[i]);
    }
  }

  /** Writes all cells compressed, and loads the result into memory for the expanded program.
      The final check of the assembler also refuses a stream longer than its cells. */
  method AssembleAndLoad(cells: seq<UCell>) returns (accepted: bool, image: array<Byte>)
    ensures accepted <==> KeepsMargin(cells) && StreamLength(cells) <= 4 * |cells|
    ensures accepted ==> image.Length == 4 * |cells|
    ensures accepted ==> forall i :: 0 <= i < |cells| ==> CellAt(image[..], 4 * i) == cells[i]
  {
    hide KeepsMargin, StreamLength, Encodes, Concat, IsGroup, Value, FitsRing, Groups, Decode, WellFormed;
    hide Placed, CellAt;
    image := new Byte[4 * |cells|](_ => 0);
    var w := new Writer();
    accepted := w.WriteEncoded(cells);
    assert [] + cells == cells;
    if !accepted || w.bytesOut - w.bytesIn > 0 {
      accepted := false;
      return;
    }
    EncodedStream(w.groups, cells);
    MarginFitsRing(w.groups, cells);
    var file := w.file;
    forall i | 0 <= i < |file| {
      image[i] := file[i];
    }
    assert image[..|file|] == file;
    GroupsCount(w.groups, cells);
    var room := Expand(image, |file|, image.Length);
    PlacedCells(image[..], cells);
  }

  lemma GroupsCount(gs: seq<seq<Byte>>, cells: seq<UCell>)
    requires Encodes(gs, cells)
    ensures |gs| == |cells|
  {
  }
}
