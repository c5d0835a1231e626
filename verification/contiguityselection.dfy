/** Selecting nodes by contiguity status and by alignment hits, and the flag
    that says whether a contiguity search has been run
    (ui/mainwindow.cpp: resetScene, determineContiguityFromSelectedNode,
    selectBasedOnContiguity, selectNodesWithBlastHits). The scene's
    selection is modelled as the set of names of the selected nodes. */
module ContiguitySelection {
  import opened Nodes
  import opened AssemblyGraphs

  // ---------------------------------------------------------------------------
  // Statuses

  /** The status a node shows when a node and its twin are drawn as one:
      in single mode the lower of the node's and its twin's, in double mode
      the node's own. */
  function EffectiveStatus(own: ContiguityStatus, twin: ContiguityStatus, doubleMode: bool): ContiguityStatus
  {
    if !doubleMode && StatusLess(twin, own) then twin else own
  }

  lemma EffectiveStatusIsLower(own: ContiguityStatus, twin: ContiguityStatus, doubleMode: bool)
    ensures doubleMode ==> EffectiveStatus(own, twin, doubleMode) == own
    ensures !doubleMode ==> var r := EffectiveStatus(own, twin, doubleMode);
      && Rank(r) <= Rank(own) && Rank(r) <= Rank(twin)
      && (r == own || r == twin)
  {
  }

  /** In single mode a node and its twin show the same status. */
  lemma TwinsShowSameStatus(a: ContiguityStatus, b: ContiguityStatus)
    ensures EffectiveStatus(a, b, false) == EffectiveStatus(b, a, false)
  {
  }

  /** Whether a node showing `status` is picked when selecting for `target`:
      the contiguous target takes both contiguous statuses, the other two
      targets need the same status. */
  predicate StatusMatches(target: ContiguityStatus, status: ContiguityStatus)
  {
    if target == ContiguousEitherStrand then
      status == ContiguousStrandSpecific || status == ContiguousEitherStrand
    else if target == MaybeContiguous then
      status == MaybeContiguous
    else if target == NotContiguous then
      status == NotContiguous
    else
      false
  }

  /** The three targets the menu offers split every status into exactly one
      class, and the strand-specific status is never a target that picks
      anything. */
  lemma StatusMatchesPartition(status: ContiguityStatus)
    ensures StatusMatches(ContiguousEitherStrand, status) <==> Rank(status) >= 2
    ensures StatusMatches(MaybeContiguous, status) <==> Rank(status) == 1
    ensures StatusMatches(NotContiguous, status) <==> Rank(status) == 0
    ensures !StatusMatches(ContiguousStrandSpecific, status)
  {
  }

  // ---------------------------------------------------------------------------
  // Selecting by contiguity

  ghost function EffectiveStatusOf(graph: AssemblyGraph, k: string, doubleMode: bool): ContiguityStatus
    requires k in graph.nodes
    requires doubleMode || graph.TwinsInGraph()
    reads graph, graph.nodes.Values
  {
    var n := graph.nodes[k];
    if doubleMode then n.contiguityStatus
    else EffectiveStatus(n.contiguityStatus, n.reverseComplement.contiguityStatus, false)
  }

  /** The names of the nodes with a graphics item whose shown status matches
      the target. */
  ghost function ContiguityPicks(graph: AssemblyGraph, target: ContiguityStatus, doubleMode: bool): set<string>
    requires doubleMode || graph.TwinsInGraph()
    reads graph, graph.nodes.Values
  {
    set k | k in graph.nodes && graph.nodes[k].hasGraphicsItem
      && StatusMatches(target, EffectiveStatusOf(graph, k, doubleMode))
  }

  /** selectBasedOnContiguity: nothing changes unless a contiguity search has
      been run; otherwise the old selection is dropped and exactly the nodes
      with a graphics item whose shown status matches the target are
      selected. */
  method SelectBasedOnContiguity(graph: AssemblyGraph, target: ContiguityStatus, doubleMode: bool, selection: set<string>)
    returns (newSelection: set<string>)
    requires graph.contiguitySearchDone && !doubleMode ==> graph.TwinsInGraph()
    ensures !graph.contiguitySearchDone ==> newSelection == selection
    ensures graph.contiguitySearchDone ==> newSelection == ContiguityPicks(graph, target, doubleMode)
  {
    if !graph.contiguitySearchDone {
      return selection;
    }
    ghost var picks := ContiguityPicks(graph, target, doubleMode);
    newSelection := {};
    var remaining := graph.nodes.Keys;
    while remaining != {}
      invariant remaining <= graph.nodes.Keys
      invariant newSelection <= picks
      invariant forall x :: x in picks && x !in remaining ==> x in newSelection
      decreases |remaining|
    {
      var k :| k in remaining;
      var node := graph.nodes[k];
      if node.hasGraphicsItem {
        var nodeStatus := node.contiguityStatus;
        if !doubleMode {
          var twinStatus := node.reverseComplement.contiguityStatus;
          if StatusLess(twinStatus, nodeStatus) {
            nodeStatus := twinStatus;
          }
        }
        assert nodeStatus == EffectiveStatusOf(graph, k, doubleMode);
        if StatusMatches(target, nodeStatus) {
          newSelection := newSelection + {k};
        }
      }
      assert k in picks <==> node.hasGraphicsItem && StatusMatches(target, EffectiveStatusOf(graph, k, doubleMode));
      remaining := remaining - {k};
    }
  }

  /** The three menu targets divide the nodes that have a graphics item
      between them: no node is picked by two targets and every such node is
      picked by one. */
  lemma ContiguityPicksPartition(graph: AssemblyGraph, doubleMode: bool)
    requires doubleMode || graph.TwinsInGraph()
    ensures var c := ContiguityPicks(graph, ContiguousEitherStrand, doubleMode);
      var m := ContiguityPicks(graph, MaybeContiguous, doubleMode);
      var n := ContiguityPicks(graph, NotContiguous, doubleMode);
      && c !! m && c !! n && m !! n
      && c + m + n == set k | k in graph.nodes && graph.nodes[k].hasGraphicsItem
    ensures ContiguityPicks(graph, ContiguousStrandSpecific, doubleMode) == {}
  {
    forall k | k in graph.nodes
      ensures var s := EffectiveStatusOf(graph, k, doubleMode);
        StatusMatches(ContiguousEitherStrand, s) || StatusMatches(MaybeContiguous, s) || StatusMatches(NotContiguous, s)
    {
      StatusMatchesPartition(EffectiveStatusOf(graph, k, doubleMode));
    }
  }

  // ---------------------------------------------------------------------------
  // Selecting nodes with alignment hits

  /** The names of the nodes with a graphics item that have a hit themselves
      (double mode) or whose node or twin has one (single mode). */
  ghost function BlastHitPicks(graph: AssemblyGraph, doubleMode: bool): set<string>
    requires doubleMode || graph.TwinsInGraph()
    reads graph, graph.nodes.Values
  {
    set k | k in graph.nodes && HasHitsToShow(graph.nodes[k], doubleMode)
  }

  /** A node with a graphics item is picked for its own hits in double mode
      and for its own or its twin's hits in single mode. */
  predicate HasHitsToShow(node: DeBruijnNode, doubleMode: bool)
    requires doubleMode || node.reverseComplement != null
    reads node, if doubleMode then {} else {node.reverseComplement}
  {
    node.hasGraphicsItem
    && (if doubleMode then node.ThisNodeHasBlastHits() else node.ThisNodeOrReverseComplementHasBlastHits())
  }

  /** selectNodesWithBlastHits: the old selection is dropped, exactly the
      picked nodes are selected, and the flag reports whether any was. */
  method SelectNodesWithBlastHits(graph: AssemblyGraph, doubleMode: bool)
    returns (selection: set<string>, atLeastOneNodeSelected: bool)
    requires !doubleMode ==> graph.TwinsInGraph()
    ensures selection == BlastHitPicks(graph, doubleMode)
    ensures atLeastOneNodeSelected <==> selection != {}
  {
    ghost var picks := BlastHitPicks(graph, doubleMode);
    selection := {};
    atLeastOneNodeSelected := false;
    var remaining := graph.nodes.Keys;
    while remaining != {}
      invariant remaining <= graph.nodes.Keys
      invariant selection <= picks
      invariant forall x :: x in picks && x !in remaining ==> x in selection
      invariant atLeastOneNodeSelected <==> selection != {}
      decreases |remaining|
    {
      var k :| k in remaining;
      var node := graph.nodes[k];
      if node.hasGraphicsItem {
        if doubleMode {
          if node.ThisNodeHasBlastHits() {
            selection := selection + {k};
            atLeastOneNodeSelected := true;
          }
        } else {
          if node.ThisNodeOrReverseComplementHasBlastHits() {
            selection := selection + {k};
            atLeastOneNodeSelected := true;
          }
        }
      }
      assert k in picks <==> HasHitsToShow(node, doubleMode);
      remaining := remaining - {k};
    }
  }

  /** Single mode picks every node double mode picks, and when twins point
      at each other it picks a drawn node exactly when it picks the drawn
      twin. */
  lemma BlastHitPicksModes(graph: AssemblyGraph)
    requires graph.TwinsInGraph()
    ensures BlastHitPicks(graph, true) <= BlastHitPicks(graph, false)
    ensures forall k1, k2 ::
      (k1 in graph.nodes && k2 in graph.nodes
       && graph.nodes[k1].reverseComplement == graph.nodes[k2]
       && graph.nodes[k2].reverseComplement == graph.nodes[k1]
       && graph.nodes[k1].hasGraphicsItem && graph.nodes[k2].hasGraphicsItem)
      ==> (k1 in BlastHitPicks(graph, false) <==> k2 in BlastHitPicks(graph, false))
  {
  }

  // ---------------------------------------------------------------------------
  // The contiguity-search flag

  /** resetScene clears the flag (the scene rebuilding around it is not
      modelled). */
  method ResetScene(graph: AssemblyGraph)
    modifies graph`contiguitySearchDone
    ensures !graph.contiguitySearchDone
  {
    graph.contiguitySearchDone := false;
  }

  /** determineContiguityFromSelectedNode: the flag is set when at least one
      node is selected and otherwise left as it was. The statuses of the
      nodes are reset and recomputed by code that is not part of this model,
      so they are only framed here. */
  method DetermineContiguityFromSelectedNode(graph: AssemblyGraph, selectedNodes: seq<DeBruijnNode>)
    modifies graph`contiguitySearchDone, graph.nodes.Values
    ensures graph.contiguitySearchDone == (old(graph.contiguitySearchDone) || |selectedNodes| > 0)
  {
    if |selectedNodes| > 0 {
      graph.contiguitySearchDone := true;
    }
  }

  /** The calls that touch the flag, in the order the user makes them. */
  datatype SceneEvent = SceneReset | Determination(selectedCount: nat) | ContiguitySelect

  function FlagStep(flag: bool, e: SceneEvent): bool
  {
    match e
    case SceneReset => false
    case Determination(count) => flag || count > 0
    case ContiguitySelect => flag
  }

  function FlagAfter(flag: bool, events: seq<SceneEvent>): bool
  {
    if events == [] then flag else FlagStep(FlagAfter(flag, events[..|events| - 1]), events[|events| - 1])
  }

  predicate NoResetIn(events: seq<SceneEvent>)
  {
    forall j :: 0 <= j < |events| ==> !events[j].SceneReset?
  }

  predicate DeterminedAt(events: seq<SceneEvent>, i: int)
    requires 0 <= i < |events|
  {
    events[i].Determination? && events[i].selectedCount > 0 && NoResetIn(events[i + 1..])
  }

  lemma NoResetSnoc(events: seq<SceneEvent>, e: SceneEvent)
    ensures NoResetIn(events + [e]) <==> NoResetIn(events) && !e.SceneReset?
  {
    assert (events + [e])[|events|] == e;
    assert forall j :: 0 <= j < |events| ==> (events + [e])[j] == events[j];
  }

  lemma DeterminedAtSnoc(pre: seq<SceneEvent>, e: SceneEvent, i: int)
    requires 0 <= i < |pre|
    ensures DeterminedAt(pre + [e], i) <==> DeterminedAt(pre, i) && !e.SceneReset?
  {
    assert (pre + [e])[i + 1..] == pre[i + 1..] + [e];
    NoResetSnoc(pre[i + 1..], e);
  }

  /** The flag is set after a run of calls exactly when some determination
      with at least one selected node came after the last scene reset, or
      the flag was already set and no reset happened. */
  lemma {:induction false} FlagAfterMeaning(flag: bool, events: seq<SceneEvent>)
    ensures FlagAfter(flag, events) <==>
      (exists i :: 0 <= i < |events| && DeterminedAt(events, i)) || (flag && NoResetIn(events))
  {
    if events != [] {
      var n := |events|;
      var pre := events[..n - 1];
      var e := events[n - 1];
      assert events == pre + [e];
      FlagAfterMeaning(flag, pre);
      NoResetSnoc(pre, e);
      assert DeterminedAt(events, n - 1) <==> e.Determination? && e.selectedCount > 0 by {
        assert events[n..] == [];
      }
      forall i | 0 <= i < n - 1
        ensures DeterminedAt(events, i) <==> DeterminedAt(pre, i) && !e.SceneReset?
      {
        DeterminedAtSnoc(pre, e, i);
      }
      if (exists i :: 0 <= i < n && DeterminedAt(events, i)) {
        var i :| 0 <= i < n && DeterminedAt(events, i);
        if i < n - 1 {
          assert DeterminedAt(pre, i);
        }
      }
    }
  }
}
