/** The two combo boxes whose current index mirrors a setting: the node
    colour scheme (switchColourScheme / setNodeColourSchemeComboBox) and the
    graph scope (graphScopeChanged / setGraphScopeComboBox). Choosing an
    entry sets the setting; loading settings moves the combo box to the
    setting's entry. Widget visibility and layout are not part of this
    model. */
module ComboBoxes {
  import opened Settings

  /** switchColourScheme: the scheme chosen by the entry at `index`; an index
      with no case leaves the current scheme in place. */
  function SchemeForIndex(index: int, current: NodeColourScheme): NodeColourScheme
  {
    match index
    case 0 => RandomColours
    case 1 => OneColour
    case 2 => ReadDepthColour
    case 3 => BlastHitsSolidColour
    case 4 => BlastHitsRainbowColour
    case 5 => ContiguityColour
    case 6 => CustomColours
    case 7 => BarcodeColor
    case _ => current
  }

  /** setNodeColourSchemeComboBox as written: the entry for each scheme, except
      that BarcodeColor has no case and leaves the combo box where it was. */
  function IndexForScheme(scheme: NodeColourScheme, currentIndex: int): int
  {
    match scheme
    case RandomColours => 0
    case OneColour => 1
    case ReadDepthColour => 2
    case BlastHitsSolidColour => 3
    case BlastHitsRainbowColour => 4
    case ContiguityColour => 5
    case CustomColours => 6
    case BarcodeColor => currentIndex
  }

  /** For the first seven entries choosing an entry and then showing the
      resulting scheme lands on the same entry, and every scheme but
      BarcodeColor is restored by the entry it is shown at. */
  lemma SchemeIndexRoundTrip(index: int, current: NodeColourScheme, currentIndex: int, scheme: NodeColourScheme)
    ensures 0 <= index <= 6 ==> IndexForScheme(SchemeForIndex(index, current), currentIndex) == index
    ensures scheme != BarcodeColor ==> SchemeForIndex(IndexForScheme(scheme, currentIndex), current) == scheme
    ensures scheme != BarcodeColor ==> 0 <= IndexForScheme(scheme, currentIndex) <= 6
  {
  }

  /** BarcodeColor is not restored: with the combo box on entry 0, loading a
      BarcodeColor setting leaves it showing RandomColours, and re-reading the
      box turns the setting into RandomColours. */
  lemma BarcodeSchemeNotRestored(current: NodeColourScheme)
    ensures IndexForScheme(BarcodeColor, 0) == 0
    ensures SchemeForIndex(IndexForScheme(BarcodeColor, 0), current) == RandomColours
    ensures IndexForScheme(SchemeForIndex(7, current), 0) != 7
  {
  }

  /** The mapping with the missing case supplied: BarcodeColor is entry 7. */
  function IndexForSchemeCorrected(scheme: NodeColourScheme): int
  {
    match scheme
    case RandomColours => 0
    case OneColour => 1
    case ReadDepthColour => 2
    case BlastHitsSolidColour => 3
    case BlastHitsRainbowColour => 4
    case ContiguityColour => 5
    case CustomColours => 6
    case BarcodeColor => 7
  }

  /** With the missing case supplied the mapping is a bijection between the
      eight entries and the eight schemes, and agrees with the one as written
      on every other scheme. */
  lemma SchemeIndexCorrectedRoundTrip(index: int, current: NodeColourScheme, currentIndex: int, scheme: NodeColourScheme)
    ensures 0 <= index <= 7 ==> IndexForSchemeCorrected(SchemeForIndex(index, current)) == index
    ensures 0 <= IndexForSchemeCorrected(scheme) <= 7
    ensures SchemeForIndex(IndexForSchemeCorrected(scheme), current) == scheme
    ensures scheme != BarcodeColor ==> IndexForSchemeCorrected(scheme) == IndexForScheme(scheme, currentIndex)
  {
  }

  /** graphScopeChanged: the scope chosen by the entry at `index`; an index
      with no case leaves the current scope in place. */
  function ScopeForIndex(index: int, current: GraphScope): GraphScope
  {
    match index
    case 0 => WholeGraph
    case 1 => AroundNode
    case 2 => AroundBlastHits
    case _ => current
  }

  /** setGraphScopeComboBox. */
  function IndexForScope(scope: GraphScope): int
  {
    match scope
    case WholeGraph => 0
    case AroundNode => 1
    case AroundBlastHits => 2
  }

  /** The scope entries and the scopes correspond one to one. */
  lemma ScopeIndexRoundTrip(index: int, current: GraphScope, scope: GraphScope)
    ensures 0 <= index <= 2 ==> IndexForScope(ScopeForIndex(index, current)) == index
    ensures 0 <= IndexForScope(scope) <= 2
    ensures ScopeForIndex(IndexForScope(scope), current) == scope
  {
  }
}
