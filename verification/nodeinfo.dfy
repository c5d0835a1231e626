/** The summary the main window shows for the selected nodes
    (getSelectedNodeInfo in ui/mainwindow.cpp): how many there are, their
    names as a list and their total length. The thousands-separator
    formatting of the numbers is not part of this model. */
module SelectionInfo {
  import opened Strings
  import opened Nodes

  /** The name a node is listed under: in single mode the trailing sign
      character is dropped, in double mode the name is kept whole. */
  function DisplayName(name: string, doubleMode: bool): string
  {
    if doubleMode then name else ChopLast(name)
  }

  ghost function DisplayNames(nodes: seq<DeBruijnNode>, doubleMode: bool): (names: seq<string>)
    reads nodes
    ensures |names| == |nodes|
    ensures forall i :: 0 <= i < |nodes| ==> names[i] == DisplayName(nodes[i].name, doubleMode)
  {
    if nodes == [] then [] else [DisplayName(nodes[0].name, doubleMode)] + DisplayNames(nodes[1..], doubleMode)
  }

  /** The sum of the nodes' lengths, adding from the front. */
  ghost function TotalLength(nodes: seq<DeBruijnNode>): int
    reads nodes
  {
    if nodes == [] then 0 else TotalLength(nodes[..|nodes| - 1]) + nodes[|nodes| - 1].GetLength()
  }

  /** The total of two runs of nodes is the sum of their totals, so it does
      not depend on where the list is split. */
  lemma {:induction false} TotalLengthAppend(a: seq<DeBruijnNode>, b: seq<DeBruijnNode>)
    ensures TotalLength(a + b) == TotalLength(a) + TotalLength(b)
  {
    if b != [] {
      assert (a + b)[..|a + b| - 1] == a + b[..|b| - 1];
      TotalLengthAppend(a, b[..|b| - 1]);
    } else {
      assert a + b == a;
    }
  }

  /** No node has a negative length, so neither does the total. */
  lemma {:induction false} TotalLengthNonNegative(nodes: seq<DeBruijnNode>)
    ensures TotalLength(nodes) >= 0
  {
    if nodes != [] {
      TotalLengthNonNegative(nodes[..|nodes| - 1]);
    }
  }

  /** In single mode each listed name followed by its node's last character
      is the node's full name again; in double mode the names are listed as
      they are. */
  lemma DisplayNamesRecoverNames(nodes: seq<DeBruijnNode>, doubleMode: bool, i: int)
    requires 0 <= i < |nodes| && nodes[i].name != []
    ensures doubleMode ==> DisplayNames(nodes, doubleMode)[i] == nodes[i].name
    ensures !doubleMode ==>
      DisplayNames(nodes, doubleMode)[i] + [nodes[i].name[|nodes[i].name| - 1]] == nodes[i].name
    ensures !doubleMode ==> |DisplayNames(nodes, doubleMode)[i]| == |nodes[i].name| - 1
  {
  }

  /** getSelectedNodeInfo: the count of selected nodes, their display names
      separated by ", " in selection order, and the sum of their lengths. */
  method GetSelectedNodeInfo(selectedNodes: seq<DeBruijnNode>, doubleMode: bool)
    returns (selectedNodeCount: int, selectedNodeListText: string, totalLength: int)
    ensures selectedNodeCount == |selectedNodes|
    ensures selectedNodeListText == Join(DisplayNames(selectedNodes, doubleMode), ", ")
    ensures totalLength == TotalLength(selectedNodes)
  {
    ghost var names := DisplayNames(selectedNodes, doubleMode);
    selectedNodeCount := |selectedNodes|;
    selectedNodeListText := "";
    totalLength := 0;
    var i := 0;
    while i < selectedNodeCount
      invariant 0 <= i <= selectedNodeCount == |selectedNodes|
      invariant JoinedUpTo(selectedNodeListText, names, i, ", ")
      invariant totalLength == TotalLength(selectedNodes[..i])
    {
      var nodeName := selectedNodes[i].name;
      if !doubleMode {
        nodeName := ChopLast(nodeName);
      }
      ghost var prefix := selectedNodeListText;
      selectedNodeListText := selectedNodeListText + nodeName;
      if i != |selectedNodes| - 1 {
        selectedNodeListText := selectedNodeListText + ", ";
      }
      JoinedUpToStep(prefix, names, i, ", ");
      assert selectedNodes[..i + 1][..i] == selectedNodes[..i];
      totalLength := totalLength + selectedNodes[i].GetLength();
      i := i + 1;
    }
    JoinedUpToAll(selectedNodeListText, names, ", ");
    assert selectedNodes[..i] == selectedNodes;
  }
}
