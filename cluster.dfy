/**
 * The cluster-side entities the parser reads or builds: Kubernetes node
 * descriptors (core/v1 Node and NodeList, reduced to what the parser uses),
 * the node search of the nodeutil package and the record of the instance
 * package.
 */
module Cluster {
  import opened Wrappers

  /** One entry of a node's status address list: its type (InternalIP, Hostname, ...) and its value. */
  datatype NodeAddress = NodeAddress(kind: string, address: string)

  /** A node descriptor: its name and its status addresses, in order. */
  datatype Node = Node(name: string, addresses: seq<NodeAddress>)

  /** A node list; a reference to one of its nodes is an index into items. */
  datatype NodeList = NodeList(items: seq<Node>)

  /** The instance record built by instance.NewInfo. The node is an index into the
      NodeList the record was built against, None when no node lists the address. */
  datatype Info = Info(address: string, username: string, newHostname: string,
                       setHostname: bool, node: Option<nat>)

  /** True iff one of node's status addresses has the value address. */
  predicate HasAddress(node: Node, address: string)
  {
    exists j :: 0 <= j < |node.addresses| && node.addresses[j].address == address
  }

  /** nodeutil.FindByAddress: a node of the list that has the address, or none. */
  function FindByAddress(address: string, nodes: NodeList): (r: Option<nat>)
    ensures r.Some? ==> r.value < |nodes.items| && HasAddress(nodes.items[r.value], address)
    ensures r.None? <==> forall i :: 0 <= i < |nodes.items| ==> !HasAddress(nodes.items[i], address)
  {
    FindFrom(address, nodes.items, 0)
  }

  /** The first node at or after position start that has the address. */
  function FindFrom(address: string, items: seq<Node>, start: nat): (r: Option<nat>)
    requires start <= |items|
    ensures r.Some? ==> start <= r.value < |items| && HasAddress(items[r.value], address)
    ensures r.None? <==> forall i :: start <= i < |items| ==> !HasAddress(items[i], address)
    decreases |items| - start
  {
    if start == |items| then None
    else if HasAddress(items[start], address) then Some(start)
    else FindFrom(address, items, start + 1)
  }
}
