/** The workflow graph: the processing nodes, a plain node/edge container standing in for
    langgraph's `StateGraph`, and what it means for a graph to be acyclic, connected and
    to supply every state field a node reads. */
module Workflow {
  import opened State

  /** The processing nodes a workflow can hold. */
  datatype NodeKind = TranscriptFetch | TitleGeneration | ContentGeneration | Aggregator | Summarizer | NotesGeneration
  {
    /** The node's name in the graph, which is also the builder attribute holding it. */
    function Name(): string {
      match this
      case TranscriptFetch => "get_transcript_node"
      case TitleGeneration => "generate_blog_title_node"
      case ContentGeneration => "generate_blog_content_node"
      case Aggregator => "blog_aggregator_node"
      case Summarizer => "youtube_summarizer_node"
      case NotesGeneration => "youtube_notes_node"
    }

    /** The state fields the node reads. */
    function Reads(): set<StateKey> {
      match this
      case TranscriptFetch => {YoutubeUrl}
      case Aggregator => {BlogTitle, BlogContent}
      case _ => {YoutubeTranscript}
    }

    /** The state fields the node's update writes. */
    function Writes(): set<StateKey> {
      match this
      case TranscriptFetch => {YoutubeTranscript}
      case TitleGeneration => {BlogTitle}
      case ContentGeneration => {BlogContent}
      case Aggregator => {FinalBlog}
      case Summarizer => {VideoSummary}
      case NotesGeneration => {VideoNotes}
    }
  }

  /** A vertex of the graph: langgraph's `START` and `END` markers, or a node. */
  datatype Vertex = Start | End | Node(kind: NodeKind)

  datatype Edge = Edge(from: Vertex, to: Vertex)

  /** A graph as compiled: its node set and its edges in the order they were added. */
  datatype Graph = Graph(nodes: set<NodeKind>, edges: seq<Edge>)

  /** The mutable graph the builder fills in, one `add_node` or `add_edge` at a time. */
  class StateGraph {
    var nodes: set<NodeKind>
    var edges: seq<Edge>

    /** `StateGraph(BlogState)`: no nodes, no edges. */
    constructor()
      ensures nodes == {} && edges == []
    {
      nodes := {};
      edges := [];
    }

    /** `add_node(name, action)`. */
    method AddNode(k: NodeKind)
      modifies this
      ensures nodes == old(nodes) + {k} && edges == old(edges)
    {
      nodes := nodes + {k};
    }

    /** `add_edge(from, to)`. */
    method AddEdge(from: Vertex, to: Vertex)
      modifies this
      ensures edges == old(edges) + [Edge(from, to)] && nodes == old(nodes)
    {
      edges := edges + [Edge(from, to)];
    }

    /** `compile()`: the graph as built so far. */
    function Compile(): (g: Graph)
      reads this
      ensures g.nodes == nodes && g.edges == edges
    {
      Graph(nodes, edges)
    }
  }

  predicate HasEdge(g: Graph, from: Vertex, to: Vertex) {
    Edge(from, to) in g.edges
  }

  /** `p` walks along edges of `g`. */
  predicate IsPath(g: Graph, p: seq<Vertex>) {
    |p| >= 1 && forall i :: 0 <= i < |p| - 1 ==> HasEdge(g, p[i], p[i + 1])
  }

  ghost predicate Reaches(g: Graph, from: Vertex, to: Vertex) {
    exists p :: IsPath(g, p) && p[0] == from && p[|p| - 1] == to
  }

  /** An edge is a walk of one step. */
  lemma EdgeReaches(g: Graph, from: Vertex, to: Vertex)
    requires HasEdge(g, from, to)
    ensures Reaches(g, from, to)
  {
    var p := [from, to];
    assert IsPath(g, p);
  }

  /** Reachability is transitive: two walks that meet join into one. */
  lemma ReachesTrans(g: Graph, a: Vertex, b: Vertex, c: Vertex)
    requires Reaches(g, a, b) && Reaches(g, b, c)
    ensures Reaches(g, a, c)
  {
    var p :| IsPath(g, p) && p[0] == a && p[|p| - 1] == b;
    var q :| IsPath(g, q) && q[0] == b && q[|q| - 1] == c;
    var r := p + q[1..];
    assert forall i :: 0 <= i < |p| ==> r[i] == p[i];
    assert forall i :: |p| <= i < |r| ==> r[i] == q[i - |p| + 1];
    assert forall i :: 0 <= i < |r| - 1 ==> HasEdge(g, r[i], r[i + 1]) by {
      forall i | 0 <= i < |r| - 1 ensures HasEdge(g, r[i], r[i + 1]) {
        if i < |p| - 1 {
          assert HasEdge(g, p[i], p[i + 1]);
        } else {
          var j := i - (|p| - 1);
          assert r[i] == q[j] && r[i + 1] == q[j + 1];
          assert HasEdge(g, q[j], q[j + 1]);
        }
      }
    }
    assert r[|r| - 1] == c;
  }

  /** No walk of one edge or more comes back to where it started. */
  ghost predicate Acyclic(g: Graph) {
    forall p :: IsPath(g, p) && |p| >= 2 ==> p[0] != p[|p| - 1]
  }

  /** The vertices with an edge into `v`. */
  function Preds(g: Graph, v: Vertex): set<Vertex> {
    set e | e in g.edges && e.to == v :: e.from
  }

  /** Every edge joins vertices of the graph, leaves no edge into `START` and none out of
      `END`. */
  predicate WellFormed(g: Graph) {
    forall e :: e in g.edges ==>
      e.to != Start && e.from != End
      && (e.from.Node? ==> e.from.kind in g.nodes) && (e.to.Node? ==> e.to.kind in g.nodes)
  }

  /** Every node is reachable from `START` and reaches `END`. */
  ghost predicate Connected(g: Graph) {
    forall k :: k in g.nodes ==> Reaches(g, Start, Node(k)) && Reaches(g, Node(k), End)
  }

  /** The fields a vertex puts into the state: the invocation's input at `START` (the
      caller passes only `youtube_url`), a node's update otherwise. */
  function Provides(v: Vertex): set<StateKey> {
    match v
    case Start => {YoutubeUrl}
    case End => {}
    case Node(k) => k.Writes()
  }

  /** Every field a node reads is put into the state by one of its predecessors. */
  predicate ReadsProvided(g: Graph) {
    forall k, key :: k in g.nodes && key in k.Reads() ==>
      exists u :: u in Preds(g, Node(k)) && key in Provides(u)
  }

  /** A numbering of the vertices that every edge of `g` climbs. */
  predicate Ranked(g: Graph, rank: Vertex -> int) {
    forall e :: e in g.edges ==> rank(e.from) < rank(e.to)
  }

  /** Along a walk in a ranked graph the rank climbs strictly. */
  lemma {:induction false} PathClimbs(g: Graph, rank: Vertex -> int, p: seq<Vertex>)
    requires Ranked(g, rank) && IsPath(g, p) && |p| >= 2
    ensures rank(p[0]) < rank(p[|p| - 1])
    decreases |p|
  {
    assert HasEdge(g, p[0], p[1]);
    assert Edge(p[0], p[1]) in g.edges;
    if |p| > 2 {
      var q := p[1..];
      assert forall i :: 0 <= i < |q| ==> q[i] == p[i + 1];
      PathClimbs(g, rank, q);
      assert q[|q| - 1] == p[|p| - 1];
    }
  }

  /** A graph whose edges all climb some numbering has no cycle. */
  lemma RankedIsAcyclic(g: Graph, rank: Vertex -> int)
    requires Ranked(g, rank)
    ensures Acyclic(g)
  {
    forall p | IsPath(g, p) && |p| >= 2 ensures p[0] != p[|p| - 1] {
      PathClimbs(g, rank, p);
    }
  }
}
