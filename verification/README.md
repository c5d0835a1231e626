# Bandage main-window rules, node records and barcode annotations in Dafny

This project models the part of Bandage that sits between the assembly graph and the
user. Bandage draws and explores de Bruijn assembly graphs. The modelled part covers:

- **Node records** (`Nodes`, debruijnnode.dfy). A node is one strand of a contig, with:
  - its sequence, with bounds-checked base access and appending;
  - its contiguity status;
  - its strand twin;
  - its drawn flag;
  - its alignment-hit and barcode lists, with the "this node or its twin" questions.
- **Barcode annotations** (barcode.dfy, barcodesetting.dfy, colour.dfy):
  - the barcode record;
  - the drawable part a barcode produces, with its mirroring on the reverse strand;
  - the per-barcode display setting, whose show toggle forces the alpha to 255 or 0.
- **The default settings record** (settings.dfy).
- **The rules of the main window, with the widgets taken away:**
  - selecting nodes by contiguity status and by alignment hits (contiguityselection.dfy);
  - the flag that records whether a contiguity search has been done (contiguityselection.dfy);
  - ordering and listing the selected edges (edgeorder.dfy);
  - summarising the selected nodes (nodeinfo.dfy);
  - choosing the type a graph file is loaded as (graphloading.dfy);
  - the two combo boxes that mirror settings (comboboxes.dfy);
  - the guards on a typed barcode (barcodedisplay.dfy);
  - `refreshDisplay`, which attaches every record of every selected barcode to its node
    and colours it (barcodedisplay.dfy).
- **The QString operations those rules rely on** (strings.dfy): `chop`, joining, `operator<`,
  `toLongLong` and `simplified`.

Objects that the source updates in place are classes:
- `DeBruijnNode`, `BarcodeSetting`, the graph's node map and flag (`AssemblyGraph`), and the
  barcode manager's state (`BarcodeManager`).
- Their methods carry `modifies` frames. `refreshDisplay` may change only
  `graph.nodes.Values`barcodes` and the manager's record colours, and no other field of any
  node.
- The loops of the source are `while` loops. Each is proved against a specification function
  on values:
  - `ContiguityPicks` and `BlastHitPicks` for the selection loops;
  - `Join` of `EdgeItems`/`DisplayNames`, and `TotalLength`, for the text loops;
  - the left fold `Refresh` for `refreshDisplay`.

The scene's selection is modelled as the set of names of the selected nodes. Each selection
rule returns the new selection.

Code over comment. In single mode, `selectBasedOnContiguity` uses the lower of a node's status
and its twin's status (ui/mainwindow.cpp:2048-2049). The comment above it says "greatest". The
model follows the code.

Strand signs disagree. `refreshDisplay` attaches a record of strand 0 to the contig's `+` node
and any other strand to its `-` node. `setBarcodeSelectionNode` sends strand 1 to `-` and any
other strand to `+`. `StrandNamesAgree` proves the two name the same node exactly when the
strand is 0 or 1. The source does not show which rule is meant, so both are kept as written.

## Model

| member | source | states |
|---|---|---|
| Nodes.BasesRebuildSequence | graph/debruijnnode.h:47-49 | Reading every index below the length gives back the whole sequence, in order. Every index outside the range reads as NUL. |
| Nodes.BaseAtAfterAppend | graph/debruijnnode.h:90 | After appending, the old bases stay at their indices. The appended bases follow them. |
| Nodes.DeBruijnNode.constructor | graph/debruijnnode.h:39 | Name, read depth and sequence are stored as given. The node starts not contiguous, with no twin, no graphics item, not drawn, and with no hits or barcodes. |
| Nodes.DeBruijnNode.AppendToSequence | graph/debruijnnode.h:90 | The new sequence is the old one followed by the argument. The length grows by its length, and every old base is unchanged. Only the sequence field may change. |
| Nodes.DeBruijnNode.ResetContiguityStatus | graph/debruijnnode.h:92 | The status becomes NotContiguous. The frame allows no other field to change. |
| Nodes.DeBruijnNode.SetReverseComplement | graph/debruijnnode.h:93 | The twin pointer becomes the argument. Nothing else changes. |
| Nodes.DeBruijnNode.SetAsDrawn | graph/debruijnnode.h:97 | Afterwards `IsDrawn` holds and `IsNotDrawn` does not. Only the drawn flag may change. |
| Nodes.DeBruijnNode.SetAsNotDrawn | graph/debruijnnode.h:98 | Afterwards `IsNotDrawn` holds and `IsDrawn` does not. |
| Nodes.DeBruijnNode.ClearBlastHits | graph/debruijnnode.h:105 | The hit list is empty, so `ThisNodeHasBlastHits` is false. |
| Nodes.DeBruijnNode.AddBlastHit | graph/debruijnnode.h:106 | The hit is appended at the end, the earlier hits keep their order, and `ThisNodeHasBlastHits` becomes true. |
| Nodes.DeBruijnNode.AddBarcode | graph/debruijnnode.h:108 | The record is appended at the end, the earlier records keep their order, and `ThisNodeHasBarcode` becomes true. |
| Nodes.TwinInclusiveMeaning | graph/debruijnnode.h:76-77 | The twin-inclusive questions hold iff the node's own list or its twin's list is non-empty. |
| Nodes.TwinsAgree | graph/debruijnnode.h:76-77 | When the twin's twin is the node, the node and its twin give the same answer to both twin-inclusive questions. |
| BarcodeParts.MakeBarcodePart | graph/barcodepart.h:10-11 | Colour, start and end are stored exactly as given. There is no clamping into [0, 1] and no reordering, so start > end is representable. |
| BarcodeParts.MirroredInvolution | graph/barcode.cpp:51 | Mirroring each fraction to 1 - f, twice, gives the part back. |
| BarcodeParts.MirroredInRange | graph/barcode.cpp:51 | A part inside [0, 1] stays inside after mirroring, and the direction from start to end flips. |
| Barcodes.MakeBarcode | graph/barcode.h:10 | Barcode, contig, position and strand are stored verbatim. Any int is accepted as a strand. |
| Barcodes.OmittedStrandIsZero | graph/barcode.h:10 | Leaving the strand out gives strand 0, the same record as passing 0. |
| Barcodes.GetBarcodeParts | graph/barcode.cpp:47-55 | Exactly one part, with the default colour. Its start and end are both 0.5, inside [0, 1], whether or not the node is reversed. |
| Barcodes.BarcodePartsIgnoreStrandAndLength | graph/barcode.cpp:47-55 | The reversed part is the mirror of the forward part. The result does not depend on the record, the direction or the scaled node length. |
| Colours.WithAlpha | graph/barcodesetting.h:28 | `setAlpha` replaces the alpha and keeps validity and the three channels. |
| BarcodeSettings.ShownColour | graph/barcodesetting.h:28 | The colour left by showing or hiding has alpha 255 when shown and 0 when hidden. Validity and channels are unchanged. |
| BarcodeSettings.ShownColourIdempotent | graph/barcodesetting.h:26-28 | Applying the same show state again changes nothing. |
| BarcodeSettings.BarcodeSetting.constructor | graph/barcodesetting.h:15 | Barcode, colour and flag are stored as given. |
| BarcodeSettings.BarcodeSetting.SetColour | graph/barcodesetting.h:23 | The whole colour, alpha included, is replaced. The flag and the barcode are unchanged. |
| BarcodeSettings.BarcodeSetting.SetShown | graph/barcodesetting.h:26-28 | The flag becomes the argument and the colour becomes `ShownColour(old colour, flag)`. The barcode is unchanged. |
| Settings.DefaultSettings | program/settings.cpp:22-133 | Single mode (not double) and 15 contiguity search steps. Whole-graph scope, distance 0, exact matching. Random colours and 100 rainbow parts per query. Ordered bounds: minimum zoom below maximum, low read depth below high, read-depth range minimum below maximum, edge-overlap minimum at most maximum. A positive minimum zoom and a zoom factor above 1. |
| ComboBoxes.SchemeIndexRoundTrip | ui/mainwindow.cpp:963-1008 | Choosing entry 0-6 and then showing the scheme returns to that entry. Every scheme but BarcodeColor is shown at an entry 0-6 that chooses it again. |
| ComboBoxes.BarcodeSchemeNotRestored | ui/mainwindow.cpp:2107-2119 | With the box on entry 0, showing BarcodeColor leaves it on entry 0, which reads back as RandomColours. Entry 7 is not restored. |
| ComboBoxes.SchemeIndexCorrectedRoundTrip | ui/mainwindow.cpp:2107-2119 | With the missing case supplied, the eight entries and eight schemes correspond one to one. The corrected mapping agrees with the one as written on every other scheme. |
| ComboBoxes.ScopeIndexRoundTrip | ui/mainwindow.cpp:533-601 | The three scope entries and the three scopes correspond one to one, in both directions. |
| ContiguitySelection.EffectiveStatusIsLower | ui/mainwindow.cpp:2044-2050 | In double mode the shown status is the node's own. In single mode it is one of the node's and the twin's statuses, and no higher than either. |
| ContiguitySelection.TwinsShowSameStatus | ui/mainwindow.cpp:2044-2050 | In single mode a node and its twin show the same status. |
| ContiguitySelection.StatusMatchesPartition | ui/mainwindow.cpp:2052-2060 | The contiguous target takes both contiguous statuses; maybe and not-contiguous need equality. A strand-specific target picks nothing. |
| ContiguitySelection.SelectBasedOnContiguity | ui/mainwindow.cpp:2018-2067 | Without a finished search, the selection is unchanged. Otherwise the old selection is dropped and exactly the nodes with a graphics item whose shown status matches the target are selected. |
| ContiguitySelection.ContiguityPicksPartition | ui/mainwindow.cpp:2052-2060 | The three menu targets pick pairwise disjoint sets whose union is every node with a graphics item. |
| ContiguitySelection.SelectNodesWithBlastHits | ui/mainwindow.cpp:1886-1931 | Exactly the nodes with a graphics item that have hits are selected: their own hits in double mode, their own or their twin's in single mode. The flag is true iff something was selected. |
| ContiguitySelection.BlastHitPicksModes | ui/mainwindow.cpp:1902-1921 | Single mode picks a superset of double mode. With twins pointing at each other, single mode picks a node iff it picks its twin. |
| ContiguitySelection.ResetScene | ui/mainwindow.cpp:682-700 | Clears the contiguity-search flag and changes nothing else in the graph. |
| ContiguitySelection.DetermineContiguityFromSelectedNode | ui/mainwindow.cpp:1016-1038 | The flag is set iff it was set or at least one node is selected. |
| ContiguitySelection.FlagAfterMeaning | ui/mainwindow.cpp:1016-1038 | After a series of resets, determinations and selections, the flag is set iff a determination with a selected node came after the last reset, or the flag was already set and there was no reset. |
| EdgeOrder.CompareEdgePointersIrreflexive | ui/mainwindow.cpp:469-506 | No edge sorts before itself. |
| EdgeOrder.CompareEdgePointersTransitiveOnNumeric | ui/mainwindow.cpp:495-502 | Among edges whose names are all numeric once the sign is dropped, the comparison is transitive: by start number, then end number. |
| EdgeOrder.CompareEdgePointersTransitiveOnNames | ui/mainwindow.cpp:505 | Among edges that are not all numeric, it is transitive: the string order on start names. |
| EdgeOrder.CompareEdgePointersCycle | ui/mainwindow.cpp:469-506 | For edges from 9+, 10+ and 5x+ to 1+: 9+ sorts before 10+, 10+ before 5x+ and 5x+ before 9+. This cycle means the comparison is not a strict weak order. |
| EdgeOrder.EdgeLessStrictWeakOrder | ui/mainwindow.cpp:469-506 | The corrected order is irreflexive, transitive and negatively transitive. |
| EdgeOrder.EdgeLessAgreesWithinGroups | ui/mainwindow.cpp:495-505 | The corrected order equals the comparison as written whenever both edges are numeric or both are not. |
| EdgeOrder.EdgeLessNumericFirst | ui/mainwindow.cpp:469-506 | In the corrected order every numeric edge comes before every other edge. |
| EdgeOrder.SortEdgesCorrect | ui/mainwindow.cpp:512 | Sorting with compareEdgePointers keeps exactly the same edges (as a multiset). The result is ordered, with no edge sorting before an earlier one, whenever the comparison is a strict order on the selection, in particular when all the edges are numeric or none is. |
| EdgeOrder.SingleGroupStrict | ui/mainwindow.cpp:495-505 | When all the selected edges are numeric, or none is, compareEdgePointers is irreflexive and transitive on them. |
| EdgeOrder.SortEdgesCorrectedCorrect | ui/mainwindow.cpp:512 | Sorting with the corrected order keeps the same edges and always leaves them ordered. On a selection that is all numeric or all not, it gives exactly what the sort with compareEdgePointers gives. |
| EdgeOrder.MixedSelectionListedDifferently | ui/mainwindow.cpp:495-512 | As written, [9+ to 1+, 5x+ to 1+] sorts to 5x+ first, by start name. The corrected order keeps 9+ first because it is numeric. |
| EdgeOrder.JoinEdgeItems | ui/mainwindow.cpp:515-522 | The text is the "start to end" items of the edges, in order, separated by ", ". |
| EdgeOrder.GetSelectedEdgeListText | ui/mainwindow.cpp:508-525 | The text is the "start to end" items of the selected edges, sorted with compareEdgePointers, joined by ", ". |
| EdgeOrder.GetSelectedEdgeListTextCorrected | ui/mainwindow.cpp:508-525 | The same listing with the edges sorted in the corrected order. |
| SelectionInfo.GetSelectedNodeInfo | ui/mainwindow.cpp:440-465 | The count is the number of selected nodes. The text is their display names in selection order, joined by ", ". The total is the sum of their lengths. |
| SelectionInfo.DisplayNamesRecoverNames | ui/mainwindow.cpp:454-455 | In double mode each listed name is the node's name. In single mode it is one character shorter, and it plus the node's last character gives the name back. |
| SelectionInfo.TotalLengthAppend | ui/mainwindow.cpp:461 | The total of two runs of nodes is the sum of their totals, wherever the list is split. |
| SelectionInfo.TotalLengthNonNegative | ui/mainwindow.cpp:461 | The total length is never negative. |
| GraphLoading.OfferedFiltersMakeFilterString | ui/mainwindow.cpp:267 | The dialog's filter string is exactly the six offered filters joined by ";;". |
| GraphLoading.BarcodeFilterNeverSelected | ui/mainwindow.cpp:274-285 | No offered filter maps to FastgBc. Picking the barcode filter counts as "any type". |
| GraphLoading.FileTypeForFilterCorrectedMeaning | ui/mainwindow.cpp:274-285 | The corrected mapping sends each offered filter to its own type, in order, and the barcode filter to FastgBc. It differs from the mapping as written only on the two barcode filter strings. |
| GraphLoading.ResolveLoadRules | ui/mainwindow.cpp:287-312 | "Any type" with failed detection aborts. "Any type" otherwise loads the detected type without asking. An explicit type loads as itself when detection agrees, or when the user confirms, and otherwise is declined. A loaded type is the detected one or one the user confirmed. |
| GraphLoading.LoadNamedFile | ui/mainwindow.cpp:262-316 | A file named without the dialog loads as its detected type, or is refused when detection fails. |
| GraphLoading.LoadGraphBarcodeFilter | ui/mainwindow.cpp:267-316 | As written, picking the barcode filter loads exactly as "any type" does. With the corrected mapping, a FASTG file picked under the barcode filter is declined when the user refuses. On every other filter the two agree. |
| GraphLoading.FileTypeNamesDistinct | ui/mainwindow.cpp:2161-2174 | Only FastgBc has the empty name. Every other type has its own name. |
| BarcodeDisplay.CheckBarcodeInputMeaning | ui/mainwindow.cpp:1393-1410 | "already set" iff the simplified text is selected. "not in data" iff it is neither selected nor known. Otherwise the accepted barcode is known, not yet selected, and in simplified form. |
| BarcodeDisplay.CheckBarcodeInputIgnoresSpacing | ui/mainwindow.cpp:1396-1403 | Extra whitespace around or inside the typed text does not change the verdict. |
| BarcodeDisplay.StrandNamesAgree | ui/mainwindow.cpp:2353-2356 | The selection rule and the attachment rule (2392-2414) name the same node iff the strand is 0 or 1. |
| BarcodeDisplay.ColourFor | ui/mainwindow.cpp:2397-2401 | There is no colour for a record exactly when its barcode has no setting and no preset exists at its position, where `presetColours.at(i)` throws. |
| BarcodeDisplay.RefreshGrows | ui/mainwindow.cpp:2378-2414 | Even a refresh that stops at a missing preset only appends. The same nodes exist, each keeps its earlier records in order, and every record added to a node names that node by contig and strand. |
| BarcodeDisplay.RefreshAttachesAll | ui/mainwindow.cpp:2378-2414 | When a refresh runs to the end, no node appears or disappears. Each node keeps its records and gains exactly the records of the selected barcodes whose contig and strand name it, in selection order and then record order. |
| BarcodeDisplay.RefreshColoursAll | ui/mainwindow.cpp:2384-2413 | When a refresh runs to the end and no barcode is selected twice, every record attached to an existing node gets its barcode's setting colour, or else the preset at the barcode's position. The colours of barcodes that are not selected are unchanged. |
| BarcodeDisplay.RefreshCompletes | ui/mainwindow.cpp:2378-2414 | A refresh runs to the end when every selected barcode has a setting or a preset colour at its position. |
| BarcodeDisplay.RefreshNotIdempotent | ui/mainwindow.cpp:2378-2414 | Whenever colours are available and some selected record names an existing node, a second refresh attaches every such record to that node again, so the state changes. |
| BarcodeDisplay.AttachToNode | ui/mainwindow.cpp:2395 | Appending to the named node changes that node's list alone among the graph's nodes. |
| BarcodeDisplay.AttachOneRecord | ui/mainwindow.cpp:2385-2413 | One pass of the inner loop brings nodes and colours to the state the value rule `AttachRecord` gives. It stops, with the record already attached, where the preset colour is missing. |
| BarcodeDisplay.AttachBarcodeRecords | ui/mainwindow.cpp:2384-2414 | The inner loop brings nodes and colours to the state `AttachRecords` gives for all the barcode's records. |
| BarcodeDisplay.RefreshDisplay | ui/mainwindow.cpp:2376-2426 | Afterwards the nodes' barcode lists and the record colours are what `Refresh` gives from the old state, and the result reports whether the run stopped at a missing preset. Only node barcode lists and record colours may change. |
| Strings.ChopLast | ui/mainwindow.cpp:455 | `chop(1)` drops exactly the last character; the empty string stays empty. |
| Strings.ParseDecimalRoundTrip | ui/mainwindow.cpp:478 | Every 64-bit value written in decimal, with a leading '-' when negative, converts back to itself. |
| Strings.StrLessTransitive | ui/mainwindow.cpp:505 | The string order on names is transitive. |
| Strings.StrLessTotal | ui/mainwindow.cpp:505 | Any two different strings are ordered one way or the other. |
| Strings.SimplifiedIdempotent | ui/mainwindow.cpp:1396 | Simplifying a simplified text changes nothing. |
| Strings.SimplifiedShape | ui/mainwindow.cpp:1396 | A simplified text neither starts nor ends with whitespace, and its only whitespace is single spaces between words. |

## Findings

| source | as written | input that shows it | evidently intended | confidence | as-written member | corrected member |
|---|---|---|---|---|---|---|
| ui/mainwindow.cpp:495-505 | Compares numbers when all four names are numeric, otherwise only the start names as strings | Edges 10+ to 1+, 9+ to 1+ and 5x+ to 1+ form a cycle: 9+ before 10+, 10+ before 5x+, 5x+ before 9+. This is not the strict weak order `std::sort` at 512 requires | Numeric edges by number, other edges by start name, and the two groups never interleaved | not executed | EdgeOrder.CompareEdgePointersCycle | EdgeOrder.EdgeLessStrictWeakOrder |
| ui/mainwindow.cpp:277-278 | The barcode type is chosen when the filter equals "FASTGBC (*.fastgbc)" | The dialog offers "FASTG with barcodes(*.fastgbc)" (267). Picking it falls through to "any type", so FASTG_BC is never chosen by filter | Compare against the offered barcode filter | not executed | GraphLoading.BarcodeFilterNeverSelected | GraphLoading.FileTypeForFilterCorrectedMeaning |
| ui/mainwindow.cpp:2107-2119 | `setNodeColourSchemeComboBox` has no case for BARCODE_COLOR | With the box on entry 0, loading the barcode scheme leaves entry 0 showing, which reads back as RANDOM_COLOURS | BARCODE_COLOR shown at entry 7, the entry that chooses it (1003) | not executed | ComboBoxes.BarcodeSchemeNotRestored | ComboBoxes.SchemeIndexCorrectedRoundTrip |

The operations model the code as written. The corrected variants sit beside them:
- `GetSelectedEdgeListTextCorrected` sorts with `EdgeLess`.
- `LoadGraphCorrected` reads the filter with `FileTypeForFilterCorrected`.
- `IndexForSchemeCorrected` has the BarcodeColor case.

## Left out

- Not part of this model are the bodies of:
  - the DeBruijnNode and BarcodeSetting constructors (their `.cpp` files). They are modelled as storing their arguments. A new node is also chosen to start not contiguous, with no twin, no graphics item, not drawn, and with no hits or barcodes;
  - every AssemblyGraph method (resetting statuses, building the scene, detecting a file's type);
  - `DeBruijnNode::determineContiguity` and `upgradeContiguityStatus`;
  - `BarcodeManager::add_barcode` and `createPresetColour`;
  - `Path::makeFromUnorderedNodes`.
  A detected file type, the user's answer to a question and the selected nodes or edges are parameters.
- ContiguitySelection.DetermineContiguityFromSelectedNode: the statuses it resets and recomputes come from code not part of this model. The method only frames the nodes as changeable and states the flag.
- The ContiguityStatus order NotContiguous < MaybeContiguous < ContiguousEitherStrand < ContiguousStrandSpecific is an assumption. The header declaring the enumeration is not part of this model, and the `<` at ui/mainwindow.cpp:2048 depends on it.
- The graphics scene: selection flags on graphics items, zooming to the selection, the viewport, signals, message boxes and widget visibility. The selection is a set of node names, and a message box is the verdict returned.
- `formatIntForDisplay` (thousands separators) in the node summary: the count and total are returned as numbers.
- SelectionInfo.GetSelectedNodeInfo: the total is an unbounded integer. The source's `long long` would overflow only past 2^63 bases.
- Strings.ParseLongLong: models `toLongLong` in base 10 as an optional sign and at least one digit, within the 64-bit range. Qt's tolerance of surrounding whitespace is not modelled.
- Strings.IsSpace: recognises the ASCII whitespace, U+0085 and U+00A0. Other Unicode spaces that `simplified` also removes are not modelled.
- EdgeOrder.SortEdges: a stable insertion sort on values. `std::sort` leaves the order of equivalent edges unspecified and works in place on a vector of pointers.
- EdgeOrder.SortEdgesCorrect: promises ordering only where compareEdgePointers is a strict order on the selection. On a mix of numeric and non-numeric edges that breaks transitivity (the cycle under Findings), `std::sort`'s result is undefined. The model returns the insertion sort's result there.
- Strings.StrLess / Strings.ChopLast: names are sequences of Unicode code points, while a QString holds UTF-16 code units. They differ only outside the Basic Multilingual Plane. There a surrogate sorts below U+E000-U+FFFF, and `chop(1)` removes half a character.
- BarcodeDisplay.RefreshColoursAll: requires that no barcode be selected twice. The input guard (CheckBarcodeInput) refuses a barcode already selected. With a repeated barcode, the colour for its later position would overwrite the earlier one.
- The barcode input box is cleared and `add_barcode` is called after acceptance. Neither is modelled beyond the verdict.
- `setBarcodeSelectionNode`: only its node-naming rule (SelectionNodeName) is modelled, not the table selection it reads or the graphics items it selects.
- Colours keep only validity, three channels and alpha. A record's colour (`Barcode::setColor`, whose declaration is not part of this model) lives in the manager's `recordColours` map, keyed by barcode and position among its records.
- Settings.DefaultSettings: only the fields the modelled rules read, plus the ordered pairs of bounds, are kept. The remaining fields of settings.cpp are not modelled.
- File parsing and loading, image and FASTA export, graph layout on a thread, zoom arithmetic and the barcode table cells are I/O, concurrency, floating point or UI.
