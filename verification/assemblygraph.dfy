/** The two pieces of the assembly graph that the main window's rules read
    and write: the nodes indexed by name and the flag that records whether a
    contiguity search has been run on the current scene. The graph's own
    methods (loading, building the drawn subgraph, resetting statuses,
    contiguity inference) are not part of this model. */
module AssemblyGraphs {
  import opened Barcodes
  import opened Nodes

  class AssemblyGraph {
    var nodes: map<string, DeBruijnNode>
    var contiguitySearchDone: bool

    constructor (nodes: map<string, DeBruijnNode>)
      ensures this.nodes == nodes && !contiguitySearchDone
    {
      this.nodes := nodes;
      contiguitySearchDone := false;
    }

    /** Different names index different node objects. */
    ghost predicate NodesDistinct()
      reads this
    {
      forall k1, k2 :: k1 in nodes && k2 in nodes && k1 != k2 ==> nodes[k1] != nodes[k2]
    }

    /** Every node has a reverse complement, and it is a node of this graph. */
    ghost predicate TwinsInGraph()
      reads this, nodes.Values
    {
      forall k :: k in nodes ==> nodes[k].reverseComplement != null && nodes[k].reverseComplement in nodes.Values
    }

    /** The barcode records attached to each node, by node name. */
    ghost function Attached(): map<string, seq<Barcode>>
      reads this, nodes.Values
    {
      map k | k in nodes :: nodes[k].barcodes
    }
  }
}
