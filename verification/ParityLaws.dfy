/** Exactly when recovery goes ahead: gawk-server/wire/parity.go. */
module ParityLaws {
  import opened Outcomes
  import opened Bytes
  import opened GaloisField
  import opened Parity
  import opened ParityRecovery

  /** What was received are pieces of a frame of that many bytes, cut at that width. */
  ghost predicate PiecesOf(chunks: Slots, width: nat, frameBytes: int) {
    exists data: seq<Bytes> :: FitsFrame(data, chunks, width, frameBytes)
  }

  ghost predicate FitsFrame(data: seq<Bytes>, chunks: Slots, width: nat, frameBytes: int) {
    Ragged(data, width) && FrameBytes(data) == frameBytes && |data| == |chunks| &&
    forall i | 0 <= i < |chunks| && chunks[i].Some? :: chunks[i].value == data[i]
  }

  /** A frame of those pieces, with zeros for what was lost. */
  function Completed(chunks: Slots, width: nat, lastLen: nat): (data: seq<Bytes>)
    ensures |data| == |chunks|
  {
    seq(|chunks|, (i: nat) requires i < |chunks| =>
      if chunks[i].Some? then chunks[i].value else seq(if i == |chunks| - 1 then lastLen else width, (b: nat) => ZERO))
  }

  lemma RaggedBytes(data: seq<Bytes>, width: nat)
    requires Ragged(data, width)
    ensures FrameBytes(data) == (|data| - 1) * width + |data[|data| - 1]|
  {
    RaggedFrame(data, width);
  }

  lemma LengthsMeanPieces(chunks: Slots, width: nat, lastLen: nat, frameBytes: int)
    requires chunks != [] && LengthsAgree(chunks, width, lastLen) && 1 <= lastLen <= width
    requires frameBytes == (|chunks| - 1) * width + lastLen
    ensures PiecesOf(chunks, width, frameBytes)
  {
    var data := Completed(chunks, width, lastLen);
    forall i | 0 <= i < |data| ensures |data[i]| == if i == |data| - 1 then lastLen else width {
      assert chunks[i].Some? ==> |chunks[i].value| == WantedLen(|chunks|, i, width, lastLen);
    }
    RaggedBytes(data, width);
    assert FitsFrame(data, chunks, width, frameBytes);
  }

  lemma PiecesMeanLengths(data: seq<Bytes>, chunks: Slots, width: nat, frameBytes: int)
    requires FitsFrame(data, chunks, width, frameBytes)
    ensures var lastLen := LastLen(|chunks|, width, frameBytes);
            1 <= lastLen <= width && LengthsAgree(chunks, width, lastLen)
  {
    RaggedFrame(data, width);
  }

  /** The symbols that arrived are equally wide. */
  predicate SymbolsAgree(parity: Slots) {
    |parity| >= 2 && parity[0].Some? && parity[1].Some? ==> |parity[0].value| == |parity[1].value|
  }

  /**
   * Recovery goes ahead exactly for 1 to 255 chunks when nothing is lost, or when no more is lost than there are symbols,
   * the symbols are equally wide, and what arrived are pieces of some frame of the announced size cut at that width.
   */
  lemma RecoversIff(chunks: Slots, parity: Slots, frameBytes: int)
    ensures Refusal(chunks, parity, frameBytes) == None <==>
            1 <= |chunks| <= 255 &&
            (Missing(chunks) == [] ||
             (|Missing(chunks)| <= Available(parity) && SymbolsAgree(parity) && PiecesOf(chunks, BlockWidth(parity), frameBytes)))
  {
    var width := BlockWidth(parity);
    var lastLen := LastLen(|chunks|, width, frameBytes);
    if chunks != [] && LengthsAgree(chunks, width, lastLen) && 1 <= lastLen <= width {
      LengthsMeanPieces(chunks, width, lastLen, frameBytes);
    }
    forall data: seq<Bytes> | FitsFrame(data, chunks, width, frameBytes)
      ensures 1 <= lastLen <= width && LengthsAgree(chunks, width, lastLen)
    {
      PiecesMeanLengths(data, chunks, width, frameBytes);
    }
  }

  /** Too much lost is told from what recovery cannot be asked. */
  lemma UnrecoverableIff(chunks: Slots, parity: Slots, frameBytes: int)
    ensures Refusal(chunks, parity, frameBytes) == Some(Unrecoverable) <==>
            1 <= |chunks| <= 255 && Missing(chunks) != [] &&
            (|Missing(chunks)| > Available(parity) || BlockWidth(parity) == 0)
  {}

  /** Symbols are refused for a level other than 0, 1 and 2, and above 0 for more than 255 chunks or one longer than 1180. */
  lemma SymbolsRefusedIff(chunks: seq<Bytes>, k: int)
    ensures Symbols(chunks, k).Err? <==>
            k < 0 || k > 2 || (k > 0 && (|chunks| > 255 || exists i :: 0 <= i < |chunks| && |chunks[i]| > 1180))
    ensures Symbols(chunks, k).Err? ==> Symbols(chunks, k).error == Unsupported
  {
    var w := Width(chunks);
    if chunks != [] && w > 1180 {
      var i :| 0 <= i < |chunks| && |chunks[i]| == w;
      assert |chunks[i]| > 1180;
    }
  }
}
