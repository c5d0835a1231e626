/** A drawable annotation on a node: a colour and a start and end fraction
    along the node's drawn length (graph/barcodepart.h). The two-argument-less
    default constructor, which leaves the fractions uninitialised, is not
    modelled. */
module BarcodeParts {
  import opened Colours

  datatype BarcodePart = BarcodePart(colour: Colour, nodeFractionStart: real, nodeFractionEnd: real)

  /** BarcodePart(colour, start, end): every argument is kept as given, with
      no clamping into [0, 1] and no reordering of start and end. */
  function MakeBarcodePart(colour: Colour, start: real, end: real): (p: BarcodePart)
    ensures p.colour == colour
    ensures p.nodeFractionStart == start && p.nodeFractionEnd == end
  {
    BarcodePart(colour, start, end)
  }

  /** The part drawn on the opposite strand: each fraction f becomes 1 - f,
      and the start is still the mirror of the start. */
  function Mirrored(p: BarcodePart): BarcodePart
  {
    p.(nodeFractionStart := 1.0 - p.nodeFractionStart, nodeFractionEnd := 1.0 - p.nodeFractionEnd)
  }

  /** Mirroring twice gives the part back. */
  lemma MirroredInvolution(p: BarcodePart)
    ensures Mirrored(Mirrored(p)) == p
  {
  }

  /** A part whose fractions are inside [0, 1] stays inside after mirroring,
      and the direction from start to end flips. */
  lemma MirroredInRange(p: BarcodePart)
    requires 0.0 <= p.nodeFractionStart <= 1.0 && 0.0 <= p.nodeFractionEnd <= 1.0
    ensures 0.0 <= Mirrored(p).nodeFractionStart <= 1.0 && 0.0 <= Mirrored(p).nodeFractionEnd <= 1.0
    ensures (p.nodeFractionStart < p.nodeFractionEnd) == (Mirrored(p).nodeFractionStart > Mirrored(p).nodeFractionEnd)
  {
  }
}

/** A barcode record read from the input data: which barcode it is, which
    contig it lies on, the position on that contig and a strand number
    (graph/barcode.h, graph/barcode.cpp). */
module Barcodes {
  import opened Colours
  import opened BarcodeParts

  datatype Barcode = Barcode(barcode: string, contig: string, position: int, strand: int)

  /** Barcode(barcode, contig, position, strand = 0): the arguments are stored
      as given; the strand is not checked, and is 0 when the caller omits it. */
  function MakeBarcode(barcode: string, contig: string, position: int, strand: int := 0): (b: Barcode)
    ensures b.barcode == barcode && b.contig == contig && b.position == position
    ensures b.strand == strand
  {
    Barcode(barcode, contig, position, strand)
  }

  /** Leaving out the strand gives strand 0. */
  lemma OmittedStrandIsZero(barcode: string, contig: string, position: int)
    ensures MakeBarcode(barcode, contig, position).strand == 0
    ensures MakeBarcode(barcode, contig, position) == MakeBarcode(barcode, contig, position, 0)
  {
  }

  /** Barcode::getBarcodeParts. The live code always marks the middle of the
      node: a single zero-width part at 0.5 with a default colour, mirrored
      to 1 - 0.5 when the node is drawn reversed. The scaled node length is
      not used. */
  function GetBarcodeParts(b: Barcode, reverse: bool, scaledNodeLength: real): (parts: seq<BarcodePart>)
    ensures |parts| == 1
    ensures parts[0].colour == DefaultColour
    ensures parts[0].nodeFractionStart == parts[0].nodeFractionEnd == 0.5
    ensures 0.0 <= parts[0].nodeFractionStart <= 1.0
  {
    var startFraction := 0.5;
    var endFraction := 0.5;
    if reverse then
      [MakeBarcodePart(DefaultColour, 1.0 - startFraction, 1.0 - endFraction)]
    else
      [MakeBarcodePart(DefaultColour, startFraction, endFraction)]
  }

  /** The reversed part is the mirror of the forward part, and, since the
      forward part sits at the midpoint, the two are the same part; neither
      the record nor the scaled length changes the answer. */
  lemma BarcodePartsIgnoreStrandAndLength(b: Barcode, b': Barcode, len: real, len': real)
    ensures GetBarcodeParts(b, true, len)[0] == Mirrored(GetBarcodeParts(b, false, len)[0])
    ensures GetBarcodeParts(b, true, len) == GetBarcodeParts(b', false, len')
  {
  }
}
