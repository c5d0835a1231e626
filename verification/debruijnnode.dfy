/** A node of the assembly graph: one strand of a contig, with its sequence,
    its contiguity status, its strand twin and the annotations attached to
    it (graph/debruijnnode.h). */
module Nodes {
  import opened Barcodes

  /** How confidently a node lies on the same sequence as the nodes a
      contiguity search started from. The declaration lives in a header that
      is not part of this model; the order used here, lowest first, is an
      assumption that the `<` comparisons on statuses rely on. */
  datatype ContiguityStatus =
    | NotContiguous | MaybeContiguous | ContiguousEitherStrand | ContiguousStrandSpecific

  function Rank(s: ContiguityStatus): nat
  {
    match s
    case NotContiguous => 0
    case MaybeContiguous => 1
    case ContiguousEitherStrand => 2
    case ContiguousStrandSpecific => 3
  }

  predicate StatusLess(a: ContiguityStatus, b: ContiguityStatus)
  {
    Rank(a) < Rank(b)
  }

  /** A sequence-alignment hit attached to a node, known here only by identity;
      its contents are not part of this model. */
  datatype BlastHit = BlastHit(id: nat)

  /** getBaseAt on a sequence: the base at index i when i is in range,
      otherwise the NUL character. */
  function BaseAt(sequence: seq<char>, i: int): char
  {
    if 0 <= i < |sequence| then sequence[i] else '\0'
  }

  /** Reading every in-range index gives the whole sequence back, and every
      out-of-range index reads as NUL. */
  lemma BasesRebuildSequence(sequence: seq<char>)
    ensures sequence == seq(|sequence|, i requires 0 <= i < |sequence| => BaseAt(sequence, i))
    ensures forall i :: (i < 0 || i >= |sequence|) ==> BaseAt(sequence, i) == '\0'
  {
  }

  /** After appending, the old bases are where they were and the new ones
      follow them. */
  lemma BaseAtAfterAppend(sequence: seq<char>, extra: seq<char>, i: int)
    ensures BaseAt(sequence + extra, i) ==
      if 0 <= i < |sequence| then BaseAt(sequence, i) else BaseAt(extra, i - |sequence|)
  {
  }

  class DeBruijnNode {
    var name: string
    var readDepth: real
    var sequence: seq<char>
    var contiguityStatus: ContiguityStatus
    var reverseComplement: DeBruijnNode?
    /** Whether the node has a graphics item in the current scene. */
    var hasGraphicsItem: bool
    var drawn: bool
    var blastHits: seq<BlastHit>
    var barcodes: seq<Barcode>

    /** DeBruijnNode(name, readDepth, sequence). Its body is in
        graph/debruijnnode.cpp, which is not part of this model; the model
        stores the arguments and starts with no twin, no graphics item, no
        annotations, status NotContiguous and not drawn. */
    constructor (name: string, readDepth: real, sequence: seq<char>)
      ensures this.name == name && this.readDepth == readDepth && this.sequence == sequence
      ensures contiguityStatus == NotContiguous && reverseComplement == null
      ensures !hasGraphicsItem && !drawn && blastHits == [] && barcodes == []
    {
      this.name := name;
      this.readDepth := readDepth;
      this.sequence := sequence;
      contiguityStatus := NotContiguous;
      reverseComplement := null;
      hasGraphicsItem := false;
      drawn := false;
      blastHits := [];
      barcodes := [];
    }

    function GetLength(): int
      reads this
    {
      |sequence|
    }

    function GetBaseAt(i: int): char
      reads this
    {
      BaseAt(sequence, i)
    }

    predicate IsDrawn()
      reads this
    {
      drawn
    }

    predicate IsNotDrawn()
      reads this
    {
      !drawn
    }

    predicate ThisNodeHasBlastHits()
      reads this
    {
      |blastHits| > 0
    }

    predicate ThisNodeHasBarcode()
      reads this
    {
      |barcodes| > 0
    }

    predicate ThisNodeOrReverseComplementHasBlastHits()
      requires reverseComplement != null
      reads this, reverseComplement
    {
      |blastHits| > 0 || |reverseComplement.blastHits| > 0
    }

    predicate ThisNodeOrReverseComplementHasBarcode()
      requires reverseComplement != null
      reads this, reverseComplement
    {
      |barcodes| > 0 || |reverseComplement.barcodes| > 0
    }

    /** appendToSequence: the new sequence is the old one followed by the
        extra bases, so the length grows by their number. */
    method AppendToSequence(additionalSeq: seq<char>)
      modifies this`sequence
      ensures sequence == old(sequence) + additionalSeq
      ensures GetLength() == old(GetLength()) + |additionalSeq|
      ensures forall i :: 0 <= i < old(GetLength()) ==> GetBaseAt(i) == old(GetBaseAt(i))
    {
      sequence := sequence + additionalSeq;
    }

    method ResetContiguityStatus()
      modifies this`contiguityStatus
      ensures contiguityStatus == NotContiguous
    {
      contiguityStatus := NotContiguous;
    }

    method SetReverseComplement(rc: DeBruijnNode)
      modifies this`reverseComplement
      ensures reverseComplement == rc
    {
      reverseComplement := rc;
    }

    method SetAsDrawn()
      modifies this`drawn
      ensures IsDrawn() && !IsNotDrawn()
    {
      drawn := true;
    }

    method SetAsNotDrawn()
      modifies this`drawn
      ensures !IsDrawn() && IsNotDrawn()
    {
      drawn := false;
    }

    method ClearBlastHits()
      modifies this`blastHits
      ensures blastHits == [] && !ThisNodeHasBlastHits()
    {
      blastHits := [];
    }

    method AddBlastHit(newHit: BlastHit)
      modifies this`blastHits
      ensures blastHits == old(blastHits) + [newHit] && ThisNodeHasBlastHits()
    {
      blastHits := blastHits + [newHit];
    }

    /** addBarcode: the record goes at the end; the earlier ones keep their
        order. */
    method AddBarcode(bc: Barcode)
      modifies this`barcodes
      ensures barcodes == old(barcodes) + [bc]
      ensures ThisNodeHasBarcode()
    {
      barcodes := barcodes + [bc];
    }
  }

  /** A node whose twin's twin is itself gives the same answer to the
      twin-inclusive questions as its twin does. */
  lemma TwinsAgree(n: DeBruijnNode)
    requires n.reverseComplement != null && n.reverseComplement.reverseComplement == n
    ensures n.ThisNodeOrReverseComplementHasBarcode() == n.reverseComplement.ThisNodeOrReverseComplementHasBarcode()
    ensures n.ThisNodeOrReverseComplementHasBlastHits() == n.reverseComplement.ThisNodeOrReverseComplementHasBlastHits()
  {
  }

  /** The twin-inclusive questions hold exactly when the node's own list or
      its twin's list is non-empty. */
  lemma TwinInclusiveMeaning(n: DeBruijnNode)
    requires n.reverseComplement != null
    ensures n.ThisNodeOrReverseComplementHasBarcode() <==> n.ThisNodeHasBarcode() || n.reverseComplement.ThisNodeHasBarcode()
    ensures n.ThisNodeOrReverseComplementHasBlastHits() <==> n.ThisNodeHasBlastHits() || n.reverseComplement.ThisNodeHasBlastHits()
  {
  }
}
