/** The program-wide settings record and the values it starts with
    (program/settings.cpp). Only the fields read by the modelled rules and
    the ordered pairs of bounds are kept; doubles are written as the reals
    their decimal literals denote. */
module Settings {
  import opened Colours

  /** The three graph scopes offered by the scope combo box. */
  datatype GraphScope = WholeGraph | AroundNode | AroundBlastHits

  /** The node colouring schemes offered by the colour combo box. */
  datatype NodeColourScheme =
    | RandomColours | OneColour | ReadDepthColour | BlastHitsSolidColour
    | BlastHitsRainbowColour | ContiguityColour | CustomColours | BarcodeColor

  datatype Settings = Settings(
    doubleMode: bool,
    autoBasePairsPerSegment: int,
    manualBasePairsPerSegment: int,
    meanSegmentsPerNode: int,
    segmentLength: real,
    graphLayoutQuality: int,
    blastRainbowPartsPerQuery: int,
    graphScope: GraphScope,
    nodeDistance: int,
    startingNodesExactMatch: bool,
    startingNodes: string,
    minZoom: real,
    maxZoom: real,
    zoomFactor: real,
    nodeColourScheme: NodeColourScheme,
    contiguitySearchSteps: int,
    contiguousStrandSpecificColour: Colour,
    contiguousEitherStrandColour: Colour,
    maybeContiguousColour: Colour,
    notContiguousColour: Colour,
    contiguityStartingColour: Colour,
    lowReadDepthValue: real,
    highReadDepthValue: real,
    minAutoFindEdgeOverlap: int,
    maxAutoFindEdgeOverlap: int,
    maxQueryPathNodes: int,
    minReadDepthRange: real,
    maxReadDepthRange: real)

  /** The ranges the settings hold as pairs of bounds are non-empty. */
  predicate BoundsOrdered(s: Settings)
  {
    && s.minZoom < s.maxZoom
    && s.lowReadDepthValue < s.highReadDepthValue
    && s.minReadDepthRange < s.maxReadDepthRange
    && s.minAutoFindEdgeOverlap <= s.maxAutoFindEdgeOverlap
  }

  /** Settings::Settings. */
  function DefaultSettings(): (s: Settings)
    ensures !s.doubleMode
    ensures s.contiguitySearchSteps == 15
    ensures s.graphScope == WholeGraph && s.nodeDistance == 0 && s.startingNodesExactMatch
    ensures s.nodeColourScheme == RandomColours && s.blastRainbowPartsPerQuery == 100
    ensures BoundsOrdered(s)
    ensures 0.0 < s.minZoom && 1.0 < s.zoomFactor
  {
    Settings(
      doubleMode := false,
      autoBasePairsPerSegment := 100,
      manualBasePairsPerSegment := 500,
      meanSegmentsPerNode := 3,
      segmentLength := 15.0,
      graphLayoutQuality := 2,
      blastRainbowPartsPerQuery := 100,
      graphScope := WholeGraph,
      nodeDistance := 0,
      startingNodesExactMatch := true,
      startingNodes := "",
      minZoom := 0.01,
      maxZoom := 20.0,
      zoomFactor := 1.0005,
      nodeColourScheme := RandomColours,
      contiguitySearchSteps := 15,
      contiguousStrandSpecificColour := Rgba(0, 155, 0),
      contiguousEitherStrandColour := Rgba(0, 155, 0),
      maybeContiguousColour := Rgba(190, 240, 190),
      notContiguousColour := Rgba(220, 220, 220),
      contiguityStartingColour := Rgba(0, 255, 0),
      lowReadDepthValue := 5.0,
      highReadDepthValue := 50.0,
      minAutoFindEdgeOverlap := 10,
      maxAutoFindEdgeOverlap := 200,
      maxQueryPathNodes := 6,
      minReadDepthRange := 10.0,
      maxReadDepthRange := 100.0)
  }
}
