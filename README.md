# Gossip simulator core in Dafny

This project models the core of a small Go gossip simulator. The simulator has three parts:

- an in-memory mock transport;
- gossip nodes that flood a message through their peers;
- a network builder that wires nodes into a random topology and analyses it for visualization.

The model follows the Go code's structure in five modules:

- `Wrappers` holds `Option` and `Result`.
- `Transport` models `pkg/network/INetwork.go`:
  - the `Address` value and its `"ip:port"` rendering, with a parser that proves the rendering is injective;
  - the `Message` envelope;
  - the pure construction of a reply, whose payload is `prefix:message`.
- `MockTransport` models `pkg/network/mockNetwork.go` as classes:
  - `MockNetwork` holds a `listeners` map from address to `Inbox` object and a `cut` set of partitioned addresses.
  - `Inbox` is the bounded FIFO channel, with capacity 100. Its queue is a `seq` field, and it keeps the aliasing between the listeners map and a connection's receive channel.
  - `MockConnection` holds an address, the network, an optional inbox and a `closed` flag.
  - `ReplyString` (from `INetwork.go`) dials and sends through this transport.
- `Gossip` models `pkg/gossip/gossip.go` and `pkg/gossip/builder.go`. These are one Go package, and a node points back at its builder.
  - `GossipNode` keeps the peer list, the seen set, the received log and the two counters.
  - `NetworkBuilder` keeps the nodes and the trace log.
  - Randomness, the clock, per-peer send outcomes and node-creation failures are parameters (oracles).
  - Sends are returned as a sequence of `Delivery` values instead of being performed.
  - The bounded-retry peer sampler is a recursive function over a sequence of draws. `SelectRandomPeers` is the imperative loop, proved equal to it.
- `Topology` models the integer part of `pkg/gossip/visualization.go`:
  - the edge list and the symmetric, de-duplicated connection lists;
  - connected components by depth-first search, proved to be components of the connection graph that partition all nodes, in node order;
  - cluster lookup;
  - cluster metadata, where exactly the first largest component is not isolated;
  - the grid placement of the islands (the components other than the first largest).

Go map iteration order is unspecified. The loops that walk a Go map pick an arbitrary remaining key with `:|`, and their contracts hold for every order. Go's `/` truncates toward zero, so the grid arithmetic uses the explicit `GoDiv`.

`Gossip` never marks its own message ID as seen. So when a peer forwards the message back, the originator's `HandleGossipMessage` handles it as new: it adds a log entry and a trace, and relays it again. The `Gossip.GossipNode.Gossip` contract states this by leaving the seen set untouched.

## Model

| member | source | states |
|---|---|---|
| Transport.Address.String | pkg/network/INetwork.go:12-14 | The rendering is the IP, a colon and the decimal port, and parsing it gives back the same address |
| Transport.NatDecimalValue | pkg/network/INetwork.go:13 | The decimal digits of a natural number read back as that number |
| Transport.IntDecimalRoundTrip | pkg/network/INetwork.go:13 | Any integer, negative ones included, parses back from its `%d` rendering |
| Transport.AddressRoundTrip | pkg/network/INetwork.go:12-14 | An `ip:port` string splits at its last colon back into the IP and the port, even when the IP itself contains colons |
| Transport.AddressStringInjective | pkg/network/INetwork.go:12-14 | Two addresses with the same rendering are the same address |
| Transport.TagPayload | pkg/network/INetwork.go:39 | The payload is the prefix, then ':', then the message. Dropping the first len(prefix)+1 characters gives back the message exactly |
| Transport.Reply | pkg/network/INetwork.go:39-46 | The reply goes from the original receiver to the original sender, and its payload is the prefix, then ':', then the message |
| Transport.ReplyOfReply | pkg/network/INetwork.go:41-46 | Replying to a reply restores the original direction |
| MockTransport.Inbox.constructor | pkg/network/mockNetwork.go:27 | A new receive channel is empty |
| MockTransport.SendError | pkg/network/mockNetwork.go:69-91 | A send fails exactly when an endpoint is cut, the destination has no listener, or its inbox holds 100 messages, checked in that order. The connection's own address counts as the sender, and the message's `From` field is never consulted |
| MockTransport.MockNetwork.constructor | pkg/network/mockNetwork.go:14-19 | A new network has no listeners and no cut addresses |
| MockTransport.MockNetwork.Listen | pkg/network/mockNetwork.go:21-30 | Fails with AddressInUse, changing nothing, iff the address already listens. Otherwise it registers a fresh empty inbox under the address, keeps every other listener, and returns a fresh open connection that owns that inbox: it receives on the very inbox the network lists under its address |
| MockTransport.MockNetwork.Dial | pkg/network/mockNetwork.go:32-39 | Fails with AddressNotFound iff nobody listens at the address. Otherwise it returns a fresh open connection without an inbox. It changes no network state |
| MockTransport.MockNetwork.Partition | pkg/network/mockNetwork.go:41-50 | The cut set grows by exactly the addresses of both groups. Nothing is removed |
| MockTransport.MockNetwork.Heal | pkg/network/mockNetwork.go:52-56 | The cut set becomes empty |
| MockTransport.MockConnection.constructor | pkg/network/mockNetwork.go:29 | A connection starts open, with the given address, network and inbox |
| MockTransport.MockConnection.Send | pkg/network/mockNetwork.go:66-92 | The error is SendError of the state before the call. On success the message is appended at the tail of the destination inbox. On any error no inbox changes, and in every case all other inboxes are unchanged |
| MockTransport.MockConnection.Recv | pkg/network/mockNetwork.go:94-108 | A closed or dialled connection gets NotListening. Otherwise the head of the inbox is removed and returned in FIFO order. An empty inbox gives WouldBlock and stays empty. A connection that owned its inbox still owns it, so it takes what senders appended to the network's inbox for its address |
| MockTransport.MockConnection.Close | pkg/network/mockNetwork.go:110-128 | Always returns nil and leaves the connection closed. A second close changes nothing. The first close of a listening connection removes exactly its address from the listeners, so the address can be listened on again. Closing a dialled connection leaves the listeners alone. Afterwards the connection owns no inbox |
| MockTransport.ReplyString | pkg/network/INetwork.go:38-53 | If nobody listens at the original sender, the dial error is returned and nothing is sent. Otherwise the send outcome is SendError on that inbox, and on success the reply (sender and receiver swapped, payload `prefix:message`) is appended to the original sender's inbox. No other inbox changes |
| Gossip.NodeAddress | pkg/gossip/builder.go:54 | Node i's address is on 127.0.0.1, and the handler's port-minus-8000 arithmetic recovers i from it |
| Gossip.HexRoundTrip | pkg/gossip/gossip.go:212 | Hex-decoding the lower-case hex encoding of any bytes gives back those bytes |
| Gossip.GenerateMessageID | pkg/gossip/gossip.go:209-213 | A message ID is 32 hex characters that decode back to the 16 random bytes, so different random bytes give different IDs |
| Gossip.GossipBodyOfTaggedPayload | pkg/gossip/gossip.go:71 | Skipping the first 7 characters of a `gossip:`-tagged payload yields exactly the body that was tagged |
| Gossip.WithPeer | pkg/gossip/gossip.go:89-105 | The address is appended at the end iff its port is not the node's own and no existing peer has that port. Otherwise the list is unchanged. A list without the own port and without duplicate ports stays that way |
| Gossip.WithPeerIdempotent | pkg/gossip/gossip.go:93-104 | Adding the same address twice has the effect of adding it once |
| Gossip.AddPeers | pkg/gossip/builder.go:53-56 | Offering a sequence of addresses keeps the existing peers as a prefix, adds at most one peer per offered address, and keeps the list well formed |
| Gossip.PeerAddresses | pkg/gossip/builder.go:53-54 | The k-th selected peer ID becomes the address 127.0.0.1:8000+id |
| Gossip.Deliveries | pkg/gossip/gossip.go:180-207 | The successful sends number at most the peers in the snapshot, and each carries the message to one of those peers |
| Gossip.DeliveriesCount | pkg/gossip/gossip.go:187-203 | A failed send is swallowed: the number of deliveries, and so the rise of the send counter, is exactly the number of successful sends |
| Gossip.DeliveriesExact | pkg/gossip/gossip.go:187-203 | A delivery is made iff it carries the message to a snapshot peer whose send succeeded |
| Gossip.DeliveriesAllSucceed | pkg/gossip/gossip.go:187-203 | When every send succeeds, the message goes to every peer once, in peer order |
| Gossip.Trace | pkg/gossip/gossip.go:148-157 | The trace names the message, its original sender, the forwarder, the receiver and the TTL, and is direct iff the original sender is the forwarder |
| Gossip.LogNewMessage | pkg/gossip/gossip.go:140-141 | Logging a message with an unseen ID adds exactly that ID to the set of logged IDs and keeps the IDs distinct |
| Gossip.DistinctIdsCount | pkg/gossip/gossip.go:225 | With distinct IDs, the number of distinct IDs equals the log length |
| Gossip.GossipNode.constructor | pkg/gossip/gossip.go:44-65 | A new node has the given ID, listens at 127.0.0.1 on the given port, and starts with no peers, nothing seen, an empty log and zero counters |
| Gossip.GossipNode.AddPeer | pkg/gossip/gossip.go:89-105 | The new peer list is WithPeer of the old one: never the node's own port, never a duplicate port, appended at the end. The invariant is preserved |
| Gossip.GossipNode.SpreadGossip | pkg/gossip/gossip.go:180-207 | Returns the successful deliveries to the current peers, and the sent counter rises by exactly their number |
| Gossip.GossipNode.Gossip | pkg/gossip/gossip.go:113-128 | Spreads a message with the generated ID, sender = own ID, the given time and TTL 20. The seen set, log and received counter of the originator are untouched |
| Gossip.GossipNode.HandleGossipMessage | pkg/gossip/gossip.go:130-178 | A seen ID changes nothing and sends nothing. A new ID is added to the seen set and logged exactly once, the received counter rises by 1, and exactly one trace is appended when a builder is attached. The message is forwarded with TTL-1 only when its TTL is positive. `received == len(log) == len(seen)` is preserved |
| Gossip.GossipNode.HandleGossipEnvelope | pkg/gossip/gossip.go:69-78 | The handler fails iff the body after the 7-character tag does not decode, and then changes nothing. Otherwise it handles the decoded message as coming from forwarder port-8000 of the sender address: a seen ID changes nothing and sends nothing; a new ID is logged and traced and, when its TTL is positive, relayed to every snapshot peer with TTL-1. The send counter rises by exactly the number of deliveries |
| Gossip.GossipNode.GetStats | pkg/gossip/gossip.go:221-226 | Returns the peer count, log length, sent counter and received counter, where the log length equals the received counter and the number of seen IDs |
| Gossip.GossipNode.GetReceivedMessages | pkg/gossip/gossip.go:229-236 | Returns a copy of the log, whose IDs are exactly the seen set and are distinct |
| Gossip.SampleUsesBudgetOnly | pkg/gossip/builder.go:62-64 | The sampler looks at no more than 3*count draws |
| Gossip.SampleBound | pkg/gossip/builder.go:64 | The sampler returns at most count IDs (none when count <= 0) |
| Gossip.SampleOnlySelf | pkg/gossip/builder.go:66-68 | Draws of the node itself are spent without adding anything |
| Gossip.SingleNodeHasNoPeers | pkg/gossip/builder.go:60-87 | In a one-node network the sampler returns no peers |
| Gossip.FreshNodePeers | pkg/gossip/builder.go:49-57 | A fresh node offered its sampled peers ends with at most peerspernode peers, never itself and no port twice |
| Gossip.Contains | pkg/gossip/builder.go:72-78 | The duplicate scan reports true iff the candidate was already selected |
| Gossip.NetworkBuilder.constructor | pkg/gossip/builder.go:21-28 | A new builder has no nodes, no traces and the given start time |
| Gossip.NetworkBuilder.CreateNodes | pkg/gossip/builder.go:31-43 | Without failures, count nodes are appended in order, node i with ID i at port 8000+i, fresh and empty. When creating node i fails, i is the first failing index, the error names it, and nodes 0..i-1 stay appended. Earlier nodes are kept as a prefix |
| Gossip.NetworkBuilder.SelectRandomPeers | pkg/gossip/builder.go:60-87 | Returns the bounded-retry sample of the draws: at most count IDs, pairwise distinct, never the node's own, each a valid node index and among the first 3*count draws |
| Gossip.NetworkBuilder.BuildRandomTopology | pkg/gossip/builder.go:46-58 | Every node's peer list becomes its old list offered its own sampled peers at ports 8000+id, and nothing else in any node changes |
| Gossip.NetworkBuilder.OfferSampledPeers | pkg/gossip/builder.go:49-57 | One iteration: node k gets its sampled peers and every other node's peer list is unchanged |
| Gossip.NetworkBuilder.AddSelectedPeers | pkg/gossip/builder.go:53-56 | Each selected ID is offered through AddPeer at port 8000+id, in order |
| Gossip.NetworkBuilder.InitiateGossip | pkg/gossip/builder.go:102-110 | An empty network sends nothing. Otherwise exactly the starter node gossips, and its peers, seen set and log are unchanged |
| Topology.NodeEdgesExact | pkg/gossip/visualization.go:117-128 | A node has an edge to v exactly when one of its peers has port 8000+v with v a valid node index |
| Topology.AllEdgesExact | pkg/gossip/visualization.go:115-131 | The edge list holds (u, v) exactly when node u has a peer whose port minus 8000 is the node index v |
| Topology.ConnectStep | pkg/gossip/visualization.go:125-127 | Recording an edge in both directions keeps the connection lists exactly the symmetric closure of the edges seen so far |
| Topology.ConnectAllSpec | pkg/gossip/visualization.go:114-131 | The connections built from all edges list v under u iff there is an edge u->v or v->u, with keys for every node |
| Topology.ConnectPeers | pkg/gossip/visualization.go:117-129 | One node's loop appends its in-range peer edges in peer order and records each in both directions |
| Topology.ConnectPeer | pkg/gossip/visualization.go:118-128 | One peer: an in-range peer adds one edge and both directions, and an out-of-range port adds nothing |
| Topology.EmptyConnections | pkg/gossip/visualization.go:109-112 | Every node index starts with an empty connection list |
| Topology.BuildConnections | pkg/gossip/visualization.go:109-131 | The edges are exactly the in-range peer edges in node and peer order, and the connections are their symmetric closure |
| Topology.ConnectionsWithinIds | pkg/gossip/visualization.go:109-128 | When node IDs are their indices, every connection key and entry is a node ID |
| Topology.Dedupe | pkg/gossip/visualization.go:135-143 | The result has no duplicates and the same elements as the input |
| Topology.DedupeOrder | pkg/gossip/visualization.go:134-144 | The result keeps first-occurrence order |
| Topology.Dedup | pkg/gossip/visualization.go:135-143 | The loop computes the duplicate-free, first-occurrence-ordered list with the same elements |
| Topology.DedupAll | pkg/gossip/visualization.go:134-144 | Every list is de-duplicated, the keys are the same, and each list keeps its element set |
| Topology.ConnectedStaysInGraph | pkg/gossip/visualization.go:501-513 | Anything reachable from a vertex of a closed vertex set stays inside it |
| Topology.IsolatedSingleton | pkg/gossip/visualization.go:515-549 | A component whose first node has no links is that node alone |
| Topology.Dfs | pkg/gossip/visualization.go:523-535 | The search adds the start node first when it is unvisited, then exactly the newly visited nodes, each once. It reaches every node connected to the start outside the visited set, and leaves the visited set closed under adjacency |
| Topology.BuildAdjacency | pkg/gossip/visualization.go:501-513 | The adjacency is symmetric and links exactly the pairs the connections link |
| Topology.AddIsolatedNodes | pkg/gossip/visualization.go:516-520 | Every node gets a key, and the links are unchanged |
| Topology.FindConnectedComponents | pkg/gossip/visualization.go:496-549 | Each returned cluster is a non-empty connected component, closed under links. The clusters are pairwise disjoint and cover every node. Cluster k starts with the first node not in clusters 0..k-1, so they come in node order |
| Topology.SearchFromEachNode | pkg/gossip/visualization.go:538-546 | The outer loop's result: components, disjoint, covering, in root order |
| Topology.ComponentIsComplete | pkg/gossip/visualization.go:540-544 | A search result from an unvisited node is a full component |
| Topology.RootOrderAppend | pkg/gossip/visualization.go:538-546 | Appending the next component keeps the clusters in order of their first nodes |
| Topology.FindNodeCluster | pkg/gossip/visualization.go:552-561 | Returns -1 iff no cluster contains the ID. Otherwise it returns the first cluster that contains it |
| Topology.FirstLargestUnique | pkg/gossip/visualization.go:568-575 | There is only one first largest cluster |
| Topology.LargestBound | pkg/gossip/visualization.go:568-575 | The first largest cluster is at least as large as every cluster and strictly larger than every cluster before it |
| Topology.LargestCluster | pkg/gossip/visualization.go:568-575 | Returns the index of the first cluster of maximal size (0 for no clusters) |
| Topology.GenerateClusterInfo | pkg/gossip/visualization.go:564-603 | One entry per cluster with ID i, its node IDs and size. An entry is not isolated iff it is the first largest, so a non-empty list has exactly one non-isolated entry |
| Topology.GoDiv | pkg/gossip/visualization.go:232-233 | Go's integer division truncates toward zero, also for negative cell heights: the remainder is smaller than the divisor and has the sign of the dividend |
| Topology.GridRowsFit | pkg/gossip/visualization.go:214-215 | ceil(n/4) rows hold n islands and leave no row empty |
| Topology.IslandCellsDistinct | pkg/gossip/visualization.go:212-227 | Up to 3200 islands occupy pairwise distinct cells |
| Topology.IslandCellsCollide | pkg/gossip/visualization.go:215-225 | Past 3200 islands the row height is 0, and islands 0 and 4 share a cell |
| Topology.IslandCellLeftOfMain | pkg/gossip/visualization.go:204-226 | Every island cell lies left of the main region, which starts at x = 480 |
| Topology.SingletonInsideCanvas | pkg/gossip/visualization.go:229-234 | With at most 64 islands, a single-node island's centre is inside the canvas and left of the main region |
| Topology.LayoutIslandGrid | pkg/gossip/visualization.go:176-250 | The islands are the clusters without the first largest, in order. The positions are keyed by exactly the single-node islands' nodes, each at the centre of the cell of its last single-node island |
| Topology.SplitIslands | pkg/gossip/visualization.go:205-210 | The islands are the clusters before and after the largest, in order |
| Topology.PlaceSingletons | pkg/gossip/visualization.go:212-234 | Exactly the nodes of single-node islands get a position: the centre of their island's cell |
| Topology.SingletonPlacedInOwnCell | pkg/gossip/visualization.go:229-234 | A node that only its own single-node island holds sits at the centre of that island's cell |
| Topology.PeerPorts | pkg/gossip/visualization.go:117-118 | The k-th port is the k-th peer's port |
| Topology.SnapshotPeers | pkg/gossip/visualization.go:115-118 | Reads every node's ID and peer ports, in node order |
| Topology.NodeInfos | pkg/gossip/visualization.go:153-163 | One entry per node, in order, naming its ID, its address rendering and the first cluster that contains it |
| Topology.FirstClusterIsOnly | pkg/gossip/visualization.go:552-561 | With disjoint clusters, the first cluster containing a node is the only one |
| Topology.GenerateTopology | pkg/gossip/visualization.go:104-173 | One entry per node with ID, `ip:port` address and the index of the one cluster listing it. The edges are exactly the in-range peer edges. Every cluster is a connected component of the undirected edge graph. Cluster i has ID i and its size is its member count. The clusters come in the order of their first nodes in the node list, and exactly one cluster, the first largest, is not isolated |
| Topology.DescribeClusters | pkg/gossip/visualization.go:164-166 | The metadata of root-ordered components keeps that order, gives entry i the ID i and its member count, and leaves exactly the first largest not isolated |
| Topology.MetadataOfClusters | pkg/gossip/visualization.go:586-600 | Metadata built entry by entry from the clusters lists the same clusters, so their root order and the first largest carry over |
| Topology.SnapshotGraph | pkg/gossip/visualization.go:114-147 | The edges are exactly the peer edges of the nodes, and the clusters are disjoint components of their undirected graph that cover every node |
| Topology.EdgesAndClusters | pkg/gossip/visualization.go:114-147 | Edges, symmetric de-duplicated connections and components, composed: the clusters are disjoint, cover all IDs, and are components of the undirected edge graph |
| Topology.NodesMatchClusters | pkg/gossip/visualization.go:153-166 | Each node entry's cluster ID indexes the only cluster metadata entry that lists the node |
| Topology.ConnectionsLinkEdges | pkg/gossip/visualization.go:125-127 | The connection lists link exactly the node pairs that an edge joins in some direction |
| Topology.EdgesOfNodes | pkg/gossip/visualization.go:115-128 | The edge list built from the snapshot is exactly the set of peer edges of the live nodes |

## Left out

- The force-directed layouts (`forceDirectedLayoutForCluster`, `simulateForceDirectedLayout`) are floating-point physics seeded with `math/rand`. The float cluster centroid and the float 60% width are left out too. `NodeInfo` and `ClusterInfo` carry no coordinates, and the main width is the integer 720 for a 1200-pixel canvas.
- `ExportVisualizationData` (file I/O and JSON) is not modelled. JSON decoding of a gossip payload is the `decode` parameter of `HandleGossipEnvelope`, and encoding is not modelled.
- Goroutines and locks are modelled as sequential steps:
  - The per-peer sends of `SpreadGossip` run in sequence. Their outcomes are the `sendOk` oracle, and sends are returned as deliveries instead of going over a transport.
  - The `go SpreadGossip` relay in `HandleGossipMessage` runs inline.
  - `Recv` returns `WouldBlock` where the channel read would block. The race in which a listener is closed while a receiver waits, and Go reports "connection closed", is not modelled.
- The `node` dispatch package, the UDP network, `Start`, `Close`, `StartAllNodes` with its sleep, and the `discover` handler are not part of this model. A failure of `node.NewNode` is the `failures` oracle of `CreateNodes`.
- `time.Now`, `crypto/rand` and `math/rand.Intn` are inputs: `now`, `random` and `draws`.
- Strings are sequences of characters, not UTF-8 bytes.
- The `fmt.Printf` progress and reception messages in `CreateNodes`, `BuildRandomTopology`, `StartAllNodes`, `Gossip` and `HandleGossipMessage`, and the `log.Printf` for a failed JSON encoding in `SpreadGossip`, are console output only and are left out. The encoding failure itself counts as a `false` entry of `sendOk`: the peer gets nothing and the counter does not rise.
- Go's 64-bit `int` is modelled as unbounded `int`. Counts, ports and products such as `count * 3` in `SelectRandomPeers` never reach 2^63 for a simulator of this size, so overflow is not modelled.
- Gossip.GossipNode.HandleGossipEnvelope: requires a payload of at least 7 characters, because the Go handler's slice `Payload[7:]` panics on shorter payloads.
- Gossip.NetworkBuilder.SelectRandomPeers: requires every draw to be a valid node index, because `mathrand.Intn(len(nb.nodes))` yields exactly such values and panics on an empty network; so the case of a positive count on a network with no nodes, where Go panics, is excluded rather than modelled.
- Topology.GenerateTopology: requires at least one node, because the Go layout indexes `clusters[largestCluster]` and panics when there are none.
- Topology.SingletonInsideCanvas: is proved only up to 64 islands, where every row is at least 50 pixels high. With more islands the padded cell height becomes negative. IslandCellsCollide shows that the grid stops separating islands past 3200.
