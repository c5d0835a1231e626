/** How loadGraph decides the type a graph file is loaded as: the filter the
    user picked in the open dialog, the type detected from the file's
    contents, and the user's answer when the two disagree. The dialogs, the
    detection itself and the loading that follows are not part of this
    model; their results are parameters. */
module GraphLoading {
  import opened Strings

  datatype GraphFileType = LastGraph | Fastg | FastgBc | Gfa | Trinity | AnyFileType | UnknownFileType

  const AnyFilter: string := "Any supported graph (*)"
  const BarcodeFilter: string := "FASTG with barcodes(*.fastgbc)"

  /** The filter string handed to the open dialog, written in its six pieces,
      and the filters the dialog offers: the string cut at each ";;". */
  const FilterString: string :=
    AnyFilter + ";;" + "LastGraph (*LastGraph*)" + ";;" + "FASTG (*.fastg)" + ";;"
    + BarcodeFilter + ";;" + "GFA (*.gfa)" + ";;" + "Trinity.fasta (*.fasta)"

  const OfferedFilters: seq<string> :=
    [AnyFilter, "LastGraph (*LastGraph*)", "FASTG (*.fastg)", BarcodeFilter, "GFA (*.gfa)", "Trinity.fasta (*.fasta)"]

  /** The offered filters are exactly the pieces of the filter string. */
  lemma OfferedFiltersMakeFilterString()
    ensures Join(OfferedFilters, ";;") == FilterString
  {
    var f := OfferedFilters;
    var t5 := Join(f[5..], ";;");
    assert f[5..] == [f[5]];
    var t4 := Join(f[4..], ";;");
    assert f[4..][1..] == f[5..];
    assert t4 == f[4] + ";;" + t5;
    var t3 := Join(f[3..], ";;");
    assert f[3..][1..] == f[4..];
    assert t3 == f[3] + ";;" + t4;
    var t2 := Join(f[2..], ";;");
    assert f[2..][1..] == f[3..];
    assert t2 == f[2] + ";;" + t3;
    var t1 := Join(f[1..], ";;");
    assert f[1..][1..] == f[2..];
    assert t1 == f[1] + ";;" + t2;
    assert Join(f, ";;") == f[0] + ";;" + t1;
  }

  /** The type named by the selected filter, as written: the barcode case
      compares against "FASTGBC (*.fastgbc)", which is not an offered filter;
      anything unmatched means "any type". */
  function FileTypeForFilter(selectedFilter: string): GraphFileType
  {
    if selectedFilter == "LastGraph (*LastGraph*)" then LastGraph
    else if selectedFilter == "FASTGBC (*.fastgbc)" then FastgBc
    else if selectedFilter == "FASTG (*.fastg)" then Fastg
    else if selectedFilter == "GFA (*.gfa)" then Gfa
    else if selectedFilter == "Trinity.fasta (*.fasta)" then Trinity
    else AnyFileType
  }

  /** No offered filter selects FastgBc; picking the barcode filter counts as
      picking "any type". */
  lemma BarcodeFilterNeverSelected()
    ensures forall i :: 0 <= i < |OfferedFilters| ==> FileTypeForFilter(OfferedFilters[i]) != FastgBc
    ensures FileTypeForFilter(BarcodeFilter) == AnyFileType
  {
    assert BarcodeFilter != "LastGraph (*LastGraph*)" by { assert BarcodeFilter[0] != 'L'; }
    assert BarcodeFilter != "FASTGBC (*.fastgbc)" by { assert BarcodeFilter[5] != 'B'; }
    assert BarcodeFilter != "FASTG (*.fastg)" by { assert |BarcodeFilter| != |"FASTG (*.fastg)"|; }
    assert BarcodeFilter != "GFA (*.gfa)" by { assert BarcodeFilter[1] != 'F'; }
    assert BarcodeFilter != "Trinity.fasta (*.fasta)" by { assert BarcodeFilter[0] != 'T'; }
  }

  /** The type named by the selected filter, matching the barcode filter the
      dialog offers. */
  function FileTypeForFilterCorrected(selectedFilter: string): GraphFileType
  {
    if selectedFilter == "LastGraph (*LastGraph*)" then LastGraph
    else if selectedFilter == BarcodeFilter then FastgBc
    else if selectedFilter == "FASTG (*.fastg)" then Fastg
    else if selectedFilter == "GFA (*.gfa)" then Gfa
    else if selectedFilter == "Trinity.fasta (*.fasta)" then Trinity
    else AnyFileType
  }

  /** Each offered filter selects its own type, in the order offered, and the
      corrected mapping differs from the one as written only on the two
      barcode filter strings. */
  lemma FileTypeForFilterCorrectedMeaning(selectedFilter: string)
    ensures FileTypeForFilterCorrected(selectedFilter) != FileTypeForFilter(selectedFilter) ==>
      selectedFilter == BarcodeFilter || selectedFilter == "FASTGBC (*.fastgbc)"
    ensures FileTypeForFilterCorrected(BarcodeFilter) == FastgBc
    ensures [FileTypeForFilterCorrected(OfferedFilters[0]), FileTypeForFilterCorrected(OfferedFilters[1]),
             FileTypeForFilterCorrected(OfferedFilters[2]), FileTypeForFilterCorrected(OfferedFilters[3]),
             FileTypeForFilterCorrected(OfferedFilters[4]), FileTypeForFilterCorrected(OfferedFilters[5])]
         == [AnyFileType, LastGraph, Fastg, FastgBc, Gfa, Trinity]
  {
    BarcodeFilterNeverSelected();
  }

  /** What loadGraph ends up doing. */
  datatype LoadDecision =
    | Cancelled          // the dialog returned no file name
    | NotRecognised      // "any type" was chosen and detection failed
    | Declined           // the user answered No to loading despite the mismatch
    | Load(fileType: GraphFileType)

  /** loadGraph after the filter has been turned into a type. */
  function ResolveLoad(fullFileName: string, selectedFileType: GraphFileType, detectedFileType: GraphFileType,
                       userAccepts: bool): LoadDecision
  {
    if fullFileName == "" then Cancelled
    else if selectedFileType == AnyFileType && detectedFileType == UnknownFileType then NotRecognised
    else
      var fileType := if selectedFileType == AnyFileType then detectedFileType else selectedFileType;
      if fileType != detectedFileType && !userAccepts then Declined else Load(fileType)
  }

  /** loadGraph with the file name and the filter the dialog returned (the
      filter stays "any type" when a file name was given and no dialog was
      shown), reading the filter as written. */
  function LoadGraph(fullFileName: string, selectedFilter: string, detectedFileType: GraphFileType,
                     userAccepts: bool): LoadDecision
  {
    ResolveLoad(fullFileName, FileTypeForFilter(selectedFilter), detectedFileType, userAccepts)
  }

  /** loadGraph reading the filter with the corrected mapping. */
  function LoadGraphCorrected(fullFileName: string, selectedFilter: string, detectedFileType: GraphFileType,
                              userAccepts: bool): LoadDecision
  {
    ResolveLoad(fullFileName, FileTypeForFilterCorrected(selectedFilter), detectedFileType, userAccepts)
  }

  /** As written, picking the barcode filter loads exactly as picking "any
      type" does: the detected type, without asking. With the corrected
      mapping it asks for FASTG_BC and is declined when the user refuses a
      FASTG file. On every other filter the two agree. */
  lemma LoadGraphBarcodeFilter(fullFileName: string, selectedFilter: string, detected: GraphFileType,
                               userAccepts: bool)
    ensures LoadGraph(fullFileName, BarcodeFilter, detected, userAccepts)
      == LoadGraph(fullFileName, AnyFilter, detected, userAccepts)
    ensures fullFileName != "" ==>
      LoadGraphCorrected(fullFileName, BarcodeFilter, Fastg, false) == Declined
      && LoadGraph(fullFileName, BarcodeFilter, Fastg, false) == Load(Fastg)
    ensures selectedFilter != BarcodeFilter && selectedFilter != "FASTGBC (*.fastgbc)" ==>
      LoadGraph(fullFileName, selectedFilter, detected, userAccepts)
      == LoadGraphCorrected(fullFileName, selectedFilter, detected, userAccepts)
  {
    BarcodeFilterNeverSelected();
    FileTypeForFilterCorrectedMeaning(selectedFilter);
    assert AnyFilter != "LastGraph (*LastGraph*)" && AnyFilter != "FASTGBC (*.fastgbc)" by { assert AnyFilter[0] == 'A'; }
  }

  /** The decision rules: "any type" with failed detection aborts; "any type"
      otherwise loads the detected type without asking; an explicit type loads
      as itself, without asking when detection agrees and only with the user's
      consent when it does not. A file is never loaded as "any" or "unknown"
      unless detection said so. */
  lemma ResolveLoadRules(fullFileName: string, selected: GraphFileType, detected: GraphFileType, userAccepts: bool)
    requires fullFileName != ""
    ensures selected == AnyFileType && detected == UnknownFileType ==>
      ResolveLoad(fullFileName, selected, detected, userAccepts) == NotRecognised
    ensures selected == AnyFileType && detected != UnknownFileType ==>
      ResolveLoad(fullFileName, selected, detected, userAccepts) == Load(detected)
    ensures selected != AnyFileType ==>
      ResolveLoad(fullFileName, selected, detected, userAccepts)
        == (if selected == detected || userAccepts then Load(selected) else Declined)
    ensures ResolveLoad(fullFileName, selected, detected, userAccepts).Load? ==>
      var t := ResolveLoad(fullFileName, selected, detected, userAccepts).fileType;
      (t == detected || (userAccepts && t == selected))
  {
  }

  /** Loading a named file with the default filter loads whatever was
      detected, and refuses only an unrecognised file. */
  lemma LoadNamedFile(fullFileName: string, detected: GraphFileType, userAccepts: bool)
    requires fullFileName != ""
    ensures LoadGraph(fullFileName, AnyFilter, detected, userAccepts)
      == if detected == UnknownFileType then NotRecognised else Load(detected)
  {
    assert AnyFilter != "LastGraph (*LastGraph*)" && AnyFilter != "FASTGBC (*.fastgbc)" by { assert AnyFilter[0] == 'A'; }
  }

  /** convertGraphFileTypeToString: the name used in the mismatch question.
      FastgBc has no case and is named by the empty string. */
  function ConvertGraphFileTypeToString(graphFileType: GraphFileType): string
  {
    match graphFileType
    case LastGraph => "LastGraph"
    case Fastg => "FASTG"
    case Gfa => "GFA"
    case Trinity => "Trinity.fasta"
    case AnyFileType => "any"
    case UnknownFileType => "unknown"
    case FastgBc => ""
  }

  /** Every type but FastgBc gets its own non-empty name. */
  lemma FileTypeNamesDistinct(t1: GraphFileType, t2: GraphFileType)
    ensures ConvertGraphFileTypeToString(t1) == "" <==> t1 == FastgBc
    ensures ConvertGraphFileTypeToString(t1) == ConvertGraphFileTypeToString(t2) ==> t1 == t2
  {
  }
}
