/** `GraphBuilder`: validates the selected use case, creates the processing nodes for it
    on first use, and wires the fixed topology of that use case into a workflow graph. */
module GraphBuilding {
  import opened Strings
  import opened Results
  import opened State
  import opened Workflow

  const UseCaseKey := "selected_usecase"
  const LlmKey := "selected_llm"

  const ValidationFailure := "User input validation failed: "
  const MissingInput := "User input configuration is missing"
  const MissingUseCase := "Selected use case is missing from user input"
  const InitFailure := "Failed to initialize nodes: "
  const LlmInitFailure := "Failed to initialize LLM: "
  const BuildFailure := "Failed to build blog generator graph: "
  const SetupFailure := "Failed to set up graph: "

  /** The three workflows a user can select. */
  datatype UseCase = BlogGeneration | Summarization | NotesTaking
  {
    /** The option string that selects the use case. */
    function Name(): string {
      match this
      case BlogGeneration => "YouTube Video Blog Generation"
      case Summarization => "YouTube Video Summarization"
      case NotesTaking => "YouTube Video Notes"
    }

    /** The state field the result page shows for the use case. */
    function Output(): StateKey {
      match this
      case BlogGeneration => FinalBlog
      case Summarization => VideoSummary
      case NotesTaking => VideoNotes
    }
  }

  /** The three option strings differ (they part after `"YouTube Video "`). */
  lemma NamesDiffer()
    ensures BlogGeneration.Name() != Summarization.Name()
    ensures BlogGeneration.Name() != NotesTaking.Name()
    ensures Summarization.Name() != NotesTaking.Name()
  {
    assert BlogGeneration.Name()[14] == 'B';
    assert Summarization.Name()[14] == 'S';
    assert NotesTaking.Name()[14] == 'N';
  }

  /** The list of accepted use-case strings the validation checks against. */
  const ValidUseCases: seq<string> := ["YouTube Video Blog Generation", "YouTube Video Summarization", "YouTube Video Notes"]

  /** `_validate_user_input`: a non-empty input whose `selected_usecase` is one of the
      accepted strings, or the `ValueError` raised. */
  function ValidateUserInput(userInput: map<string, string>): (r: Outcome)
    ensures r.Pass? <==> UseCaseKey in userInput && userInput[UseCaseKey] in ValidUseCases
    ensures r.Fail? ==> r.error.ValueError? && StartsWith(r.error.message, ValidationFailure)
    ensures |userInput| == 0 ==> r == Fail(ValueError(ValidationFailure + MissingInput))
    ensures |userInput| > 0 && UseCaseKey !in userInput ==> r == Fail(ValueError(ValidationFailure + MissingUseCase))
  {
    if |userInput| == 0 then Fail(ValueError(ValidationFailure + MissingInput))
    else if UseCaseKey !in userInput then Fail(ValueError(ValidationFailure + MissingUseCase))
    else
      var selected := userInput[UseCaseKey];
      if selected !in ValidUseCases then
        Fail(ValueError(ValidationFailure + "Invalid use case selected: " + selected
          + ". Valid options are: " + Join(ValidUseCases, ", ")))
      else Pass
  }

  /** `usecase_mapping.get(name)`: the build method for a use-case string. */
  function Dispatch(name: string): (r: Option<UseCase>)
    ensures r.Some? <==> name in ValidUseCases
    ensures r.Some? ==> r.value.Name() == name
  {
    if name == BlogGeneration.Name() then Some(BlogGeneration)
    else if name == Summarization.Name() then Some(Summarization)
    else if name == NotesTaking.Name() then Some(NotesTaking)
    else None
  }

  /** The use case an input selects, if any. */
  function UseCaseOf(userInput: map<string, string>): Option<UseCase> {
    if UseCaseKey in userInput then Dispatch(userInput[UseCaseKey]) else None
  }

  /** Validated input always selects a use case, so the "No graph builder found" error of
      the dispatch cannot be raised. */
  lemma ValidatedInputDispatches(userInput: map<string, string>)
    ensures ValidateUserInput(userInput).Pass? <==> UseCaseOf(userInput).Some?
    ensures UseCaseOf(userInput).Some? ==> UseCaseOf(userInput).value.Name() == userInput[UseCaseKey]
  {
  }

  // ---------------------------------------------------------------------------
  // The fixed topologies

  /** The nodes a use case needs, which are the nodes it creates and adds. */
  function NodesFor(uc: UseCase): set<NodeKind> {
    match uc
    case BlogGeneration => {TranscriptFetch, TitleGeneration, ContentGeneration, Aggregator}
    case Summarization => {TranscriptFetch, Summarizer}
    case NotesTaking => {TranscriptFetch, NotesGeneration}
  }

  /** The edges a use case wires, in the order they are added. */
  function EdgesFor(uc: UseCase): seq<Edge> {
    match uc
    case BlogGeneration => [
      Edge(Start, Node(TranscriptFetch)),
      Edge(Node(TranscriptFetch), Node(TitleGeneration)),
      Edge(Node(TranscriptFetch), Node(ContentGeneration)),
      Edge(Node(TitleGeneration), Node(Aggregator)),
      Edge(Node(ContentGeneration), Node(Aggregator)),
      Edge(Node(Aggregator), End)]
    case Summarization => [
      Edge(Start, Node(TranscriptFetch)),
      Edge(Node(TranscriptFetch), Node(Summarizer)),
      Edge(Node(Summarizer), End)]
    case NotesTaking => [
      Edge(Start, Node(TranscriptFetch)),
      Edge(Node(TranscriptFetch), Node(NotesGeneration)),
      Edge(Node(NotesGeneration), End)]
  }

  function TopologyOf(uc: UseCase): Graph {
    Graph(NodesFor(uc), EdgesFor(uc))
  }

  /** Which use case owns each node: the transcript node is shared, every other node
      belongs to one use case. */
  lemma NodeOwner(uc: UseCase)
    ensures TranscriptFetch in NodesFor(uc)
    ensures TitleGeneration in NodesFor(uc) <==> uc == BlogGeneration
    ensures ContentGeneration in NodesFor(uc) <==> uc == BlogGeneration
    ensures Aggregator in NodesFor(uc) <==> uc == BlogGeneration
    ensures Summarizer in NodesFor(uc) <==> uc == Summarization
    ensures NotesGeneration in NodesFor(uc) <==> uc == NotesTaking
  {
  }

  /** Adding the blog nodes one by one and wiring the blog edges one by one gives the
      blog topology on top of what the graph held. */
  lemma BlogWiring(nodes: set<NodeKind>, edges: seq<Edge>)
    ensures nodes + {TranscriptFetch} + {TitleGeneration} + {ContentGeneration} + {Aggregator}
      == nodes + NodesFor(BlogGeneration)
    ensures edges + [Edge(Start, Node(TranscriptFetch))] + [Edge(Node(TranscriptFetch), Node(TitleGeneration))]
      + [Edge(Node(TranscriptFetch), Node(ContentGeneration))] + [Edge(Node(TitleGeneration), Node(Aggregator))]
      + [Edge(Node(ContentGeneration), Node(Aggregator))] + [Edge(Node(Aggregator), End)]
      == edges + EdgesFor(BlogGeneration)
  {
  }

  /** The same for a chain through the one generator node `k` of a linear use case. */
  lemma ChainWiring(uc: UseCase, k: NodeKind, nodes: set<NodeKind>, edges: seq<Edge>)
    requires uc != BlogGeneration
    requires k == (if uc == Summarization then Summarizer else NotesGeneration)
    ensures nodes + {TranscriptFetch} + {k} == nodes + NodesFor(uc)
    ensures edges + [Edge(Start, Node(TranscriptFetch))] + [Edge(Node(TranscriptFetch), Node(k))]
      + [Edge(Node(k), End)] == edges + EdgesFor(uc)
  {
  }

  /** The depth of a vertex: every edge of every topology goes one level deeper. */
  function Depth(v: Vertex): int {
    match v
    case Start => 0
    case Node(TranscriptFetch) => 1
    case Node(Aggregator) => 3
    case Node(_) => 2
    case End => 4
  }

  /** Every edge joins vertices of the graph; none enters `START` or leaves `END`. */
  lemma TopologyWellFormed(uc: UseCase)
    ensures WellFormed(TopologyOf(uc))
  {
  }

  /** No topology has a cycle. */
  lemma TopologyAcyclic(uc: UseCase)
    ensures Acyclic(TopologyOf(uc))
  {
    TopologyRanked(uc);
    RankedIsAcyclic(TopologyOf(uc), Depth);
  }

  /** Every edge of a topology goes one level deeper. */
  lemma TopologyRanked(uc: UseCase)
    ensures Ranked(TopologyOf(uc), Depth)
  {
    var es := EdgesFor(uc);
    assert forall i :: 0 <= i < |es| ==> Depth(es[i].from) < Depth(es[i].to);
  }

  /** Every node of a topology lies on a walk from `START` to `END`. */
  lemma TopologyConnected(uc: UseCase)
    ensures Connected(TopologyOf(uc))
  {
    match uc
    case BlogGeneration => BlogConnected();
    case Summarization => ChainConnected(Summarization, Summarizer);
    case NotesTaking => ChainConnected(NotesTaking, NotesGeneration);
  }

  lemma BlogConnected()
    ensures Connected(TopologyOf(BlogGeneration))
  {
    var g := TopologyOf(BlogGeneration);
    var transcript, title, content, aggregator := Node(TranscriptFetch), Node(TitleGeneration), Node(ContentGeneration), Node(Aggregator);
    BlogEdges();
    EdgeReaches(g, Start, transcript);
    EdgeReaches(g, transcript, title);
    EdgeReaches(g, transcript, content);
    EdgeReaches(g, title, aggregator);
    EdgeReaches(g, content, aggregator);
    EdgeReaches(g, aggregator, End);
    ReachesTrans(g, Start, transcript, title);
    ReachesTrans(g, Start, transcript, content);
    ReachesTrans(g, Start, title, aggregator);
    ReachesTrans(g, content, aggregator, End);
    ReachesTrans(g, title, aggregator, End);
    ReachesTrans(g, transcript, title, End);
  }

  lemma BlogEdges()
    ensures var g := TopologyOf(BlogGeneration);
      HasEdge(g, Start, Node(TranscriptFetch))
      && HasEdge(g, Node(TranscriptFetch), Node(TitleGeneration))
      && HasEdge(g, Node(TranscriptFetch), Node(ContentGeneration))
      && HasEdge(g, Node(TitleGeneration), Node(Aggregator))
      && HasEdge(g, Node(ContentGeneration), Node(Aggregator))
      && HasEdge(g, Node(Aggregator), End)
  {
    var e := EdgesFor(BlogGeneration);
    assert e[0] == Edge(Start, Node(TranscriptFetch));
    assert e[1] == Edge(Node(TranscriptFetch), Node(TitleGeneration));
    assert e[2] == Edge(Node(TranscriptFetch), Node(ContentGeneration));
    assert e[3] == Edge(Node(TitleGeneration), Node(Aggregator));
    assert e[4] == Edge(Node(ContentGeneration), Node(Aggregator));
    assert e[5] == Edge(Node(Aggregator), End);
  }

  /** The two linear use cases: `START`, the transcript node, one generator, `END`. */
  lemma ChainConnected(uc: UseCase, k: NodeKind)
    requires uc != BlogGeneration
    requires k == (if uc == Summarization then Summarizer else NotesGeneration)
    ensures Connected(TopologyOf(uc))
  {
    var g := TopologyOf(uc);
    var transcript := Node(TranscriptFetch);
    assert EdgesFor(uc) == [Edge(Start, transcript), Edge(transcript, Node(k)), Edge(Node(k), End)];
    EdgeReaches(g, Start, transcript);
    EdgeReaches(g, transcript, Node(k));
    EdgeReaches(g, Node(k), End);
    ReachesTrans(g, Start, transcript, Node(k));
    ReachesTrans(g, transcript, Node(k), End);
  }

  /** Only the aggregator joins branches, and it waits for exactly the title and the
      content nodes; every other node has one predecessor. */
  lemma TopologyFanIn(uc: UseCase)
    ensures forall k :: k in NodesFor(uc) && k != Aggregator ==>
      exists u :: Preds(TopologyOf(uc), Node(k)) == {u}
    ensures Aggregator in NodesFor(uc) ==>
      Preds(TopologyOf(uc), Node(Aggregator)) == {Node(TitleGeneration), Node(ContentGeneration)}
  {
    match uc
    case BlogGeneration => BlogFanIn();
    case Summarization => ChainFanIn(Summarization, Summarizer);
    case NotesTaking => ChainFanIn(NotesTaking, NotesGeneration);
  }

  lemma BlogFanIn()
    ensures var g := TopologyOf(BlogGeneration);
      Preds(g, Node(TranscriptFetch)) == {Start}
      && Preds(g, Node(TitleGeneration)) == {Node(TranscriptFetch)}
      && Preds(g, Node(ContentGeneration)) == {Node(TranscriptFetch)}
      && Preds(g, Node(Aggregator)) == {Node(TitleGeneration), Node(ContentGeneration)}
  {
    BlogEdges();
  }

  lemma ChainFanIn(uc: UseCase, k: NodeKind)
    requires uc != BlogGeneration
    requires k == (if uc == Summarization then Summarizer else NotesGeneration)
    ensures NodesFor(uc) == {TranscriptFetch, k}
    ensures Preds(TopologyOf(uc), Node(TranscriptFetch)) == {Start}
    ensures Preds(TopologyOf(uc), Node(k)) == {Node(TranscriptFetch)}
  {
    assert EdgesFor(uc) == [Edge(Start, Node(TranscriptFetch)), Edge(Node(TranscriptFetch), Node(k)), Edge(Node(k), End)];
  }

  /** Every field a node reads is written by one of its predecessors: the URL comes with
      the invocation, the transcript from the transcript node, title and content from the
      two generators the aggregator waits for. */
  lemma TopologyKeyFlow(uc: UseCase)
    ensures ReadsProvided(TopologyOf(uc))
  {
    var g := TopologyOf(uc);
    forall k, key | k in g.nodes && key in k.Reads() ensures exists u :: u in Preds(g, Node(k)) && key in Provides(u) {
      if k == TranscriptFetch {
        assert Start in Preds(g, Node(k));
      } else if k == Aggregator {
        assert Node(TitleGeneration) in Preds(g, Node(k)) && Node(ContentGeneration) in Preds(g, Node(k));
      } else {
        assert Node(TranscriptFetch) in Preds(g, Node(k));
      }
    }
  }

  /** `END` follows exactly one node, and that node writes the field the result page of
      the use case shows. */
  lemma TopologyOutput(uc: UseCase)
    ensures exists k :: Preds(TopologyOf(uc), End) == {Node(k)} && uc.Output() in k.Writes()
  {
    var last := match uc case BlogGeneration => Aggregator case Summarization => Summarizer case NotesTaking => NotesGeneration;
    assert Preds(TopologyOf(uc), End) == {Node(last)};
  }

  // ---------------------------------------------------------------------------
  // The builder

  /** The `RuntimeError` a node that wraps a language model raises when `get_llm` raises
      its `KeyError` for a missing `selected_llm`. */
  function LlmError(): Error {
    RuntimeError(LlmInitFailure + KeyError(LlmKey).Text())
  }

  /** What creating a node that wraps a language model amounts to: `get_llm` raises only
      when the input has no `selected_llm`, and the node rewraps that as a `RuntimeError`. */
  function ConstructLlmNode(userInput: map<string, string>): (r: Outcome)
    ensures r.Pass? <==> LlmKey in userInput
    ensures r.Fail? ==> r.error == LlmError()
  {
    if LlmKey in userInput then Pass else Fail(LlmError())
  }

  /** The error a failed node initialisation raises. */
  function InitError(): Error {
    RuntimeError(InitFailure + LlmError().Text())
  }

  /** The error a build method raises when the lazy node initialisation fails. */
  function BuildInitError(): Error {
    RuntimeError(BuildFailure + InitError().Text())
  }

  /** Reading a node attribute the builder never set. */
  function MissingAttribute(k: NodeKind): Error {
    AttributeError("'GraphBuilder' object has no attribute '" + k.Name() + "'")
  }

  class GraphBuilder {
    const userInput: map<string, string>
    const workflow: StateGraph
    var nodesInitialized: bool
    /** The node attributes set so far (`self.get_transcript_node` and the others). */
    var handles: set<NodeKind>

    /** The fields `__init__` sets before it validates the input. */
    constructor(userInput: map<string, string>)
      ensures this.userInput == userInput && fresh(workflow)
      ensures workflow.nodes == {} && workflow.edges == []
      ensures !nodesInitialized && handles == {}
    {
      this.userInput := userInput;
      workflow := new StateGraph();
      nodesInitialized := false;
      handles := {};
    }

    /** The selected use case of a validated builder. */
    function Selected(): UseCase
      requires UseCaseOf(userInput).Some?
    {
      UseCaseOf(userInput).value
    }

    /** A validated builder holds node attributes of its use case only, and all of them
        once the nodes are initialised, which needs a model selection. */
    predicate Valid()
      reads this
    {
      && UseCaseOf(userInput).Some?
      && handles <= NodesFor(Selected())
      && (nodesInitialized ==> handles == NodesFor(Selected()) && LlmKey in userInput)
    }

    /** `initialize_nodes`: the transcript node always, then the nodes of the selected use
        case; it fails, after the transcript node is set, when no model is selected. */
    method InitializeNodes() returns (r: Outcome)
      requires Valid()
      modifies this`nodesInitialized, this`handles
      ensures Valid()
      ensures r.Pass? <==> LlmKey in userInput
      ensures r.Pass? ==> nodesInitialized && handles == NodesFor(Selected())
      ensures r.Fail? ==>
        r.error == InitError()
        && nodesInitialized == old(nodesInitialized) && handles == old(handles) + {TranscriptFetch}
    {
      NamesDiffer();
      NodeOwner(Selected());
      handles := handles + {TranscriptFetch};
      var selected := userInput[UseCaseKey];
      assert selected == Selected().Name();
      if selected == BlogGeneration.Name() {
        var title := ConstructLlmNode(userInput);
        if title.Fail? {
          return Fail(RuntimeError(InitFailure + title.error.Text()));
        }
        handles := handles + {TitleGeneration};
        var content := ConstructLlmNode(userInput);
        assert content.Pass?;
        handles := handles + {ContentGeneration};
        handles := handles + {Aggregator};
      }
      if selected == Summarization.Name() {
        var summarizer := ConstructLlmNode(userInput);
        if summarizer.Fail? {
          return Fail(RuntimeError(InitFailure + summarizer.error.Text()));
        }
        handles := handles + {Summarizer};
      }
      if selected == NotesTaking.Name() {
        var notes := ConstructLlmNode(userInput);
        if notes.Fail? {
          return Fail(RuntimeError(InitFailure + notes.error.Text()));
        }
        handles := handles + {NotesGeneration};
      }
      nodesInitialized := true;
      return Pass;
    }

    /** `self.workflow.add_node(name, self.<name>)`: the attribute is read first, so an
        unset one raises before anything is added. */
    method AddHeldNode(k: NodeKind) returns (r: Outcome)
      modifies workflow
      ensures k in handles ==> r == Pass && workflow.nodes == old(workflow.nodes) + {k}
      ensures k !in handles ==> r == Fail(MissingAttribute(k)) && workflow.nodes == old(workflow.nodes)
      ensures workflow.edges == old(workflow.edges)
    {
      if k !in handles {
        return Fail(MissingAttribute(k));
      }
      workflow.AddNode(k);
      return Pass;
    }

    /** `if not self.nodes_initialized: self.initialize_nodes()`, with the error rewrapped. */
    method InitializeOnce() returns (r: Outcome)
      requires Valid()
      modifies this`nodesInitialized, this`handles
      ensures Valid()
      ensures nodesInitialized == (old(nodesInitialized) || LlmKey in userInput)
      ensures old(nodesInitialized) ==> handles == old(handles)
      ensures r.Pass? <==> nodesInitialized
      ensures r.Fail? ==>
        r == Fail(BuildInitError())
        && handles == old(handles) + {TranscriptFetch}
    {
      if !nodesInitialized {
        var init := InitializeNodes();
        if init.Fail? {
          return Fail(RuntimeError(BuildFailure + init.error.Text()));
        }
      }
      return Pass;
    }

    /** `_build_yt_blog_generator_graph`: the four blog nodes, fanning out after the
        transcript and back in at the aggregator. On a builder of another use case the
        transcript node is added and reading the title node raises. */
    method BuildBlogGraph() returns (r: Outcome)
      requires Valid()
      modifies this`nodesInitialized, this`handles, workflow
      ensures Valid()
      ensures nodesInitialized == (old(nodesInitialized) || LlmKey in userInput)
      ensures old(nodesInitialized) ==> handles == old(handles)
      ensures !nodesInitialized ==>
        r == Fail(BuildInitError())
        && workflow.nodes == old(workflow.nodes) && workflow.edges == old(workflow.edges)
      ensures nodesInitialized && Selected() == BlogGeneration ==>
        r == Pass
        && workflow.nodes == old(workflow.nodes) + NodesFor(BlogGeneration)
        && workflow.edges == old(workflow.edges) + EdgesFor(BlogGeneration)
      ensures nodesInitialized && Selected() != BlogGeneration ==>
        r == Fail(RuntimeError(BuildFailure + MissingAttribute(TitleGeneration).Text()))
        && workflow.nodes == old(workflow.nodes) + {TranscriptFetch} && workflow.edges == old(workflow.edges)
    {
      BlogWiring(workflow.nodes, workflow.edges);
      NodeOwner(Selected());
      var init := InitializeOnce();
      if init.Fail? {
        return init;
      }
      var added := AddHeldNode(TranscriptFetch);
      assert added.Pass?;
      added := AddHeldNode(TitleGeneration);
      if added.Fail? {
        return Fail(RuntimeError(BuildFailure + added.error.Text()));
      }
      added := AddHeldNode(ContentGeneration);
      assert added.Pass?;
      added := AddHeldNode(Aggregator);
      assert added.Pass?;
      workflow.AddEdge(Start, Node(TranscriptFetch));
      workflow.AddEdge(Node(TranscriptFetch), Node(TitleGeneration));
      workflow.AddEdge(Node(TranscriptFetch), Node(ContentGeneration));
      workflow.AddEdge(Node(TitleGeneration), Node(Aggregator));
      workflow.AddEdge(Node(ContentGeneration), Node(Aggregator));
      workflow.AddEdge(Node(Aggregator), End);
      return Pass;
    }

    /** `_build_yt_notes_generation_graph`: the chain through the notes node. */
    method BuildNotesGraph() returns (r: Outcome)
      requires Valid()
      modifies this`nodesInitialized, this`handles, workflow
      ensures Valid()
      ensures nodesInitialized == (old(nodesInitialized) || LlmKey in userInput)
      ensures old(nodesInitialized) ==> handles == old(handles)
      ensures !nodesInitialized ==>
        r == Fail(BuildInitError())
        && workflow.nodes == old(workflow.nodes) && workflow.edges == old(workflow.edges)
      ensures nodesInitialized && Selected() == NotesTaking ==>
        r == Pass
        && workflow.nodes == old(workflow.nodes) + NodesFor(NotesTaking)
        && workflow.edges == old(workflow.edges) + EdgesFor(NotesTaking)
      ensures nodesInitialized && Selected() != NotesTaking ==>
        r == Fail(RuntimeError(BuildFailure + MissingAttribute(NotesGeneration).Text()))
        && workflow.nodes == old(workflow.nodes) + {TranscriptFetch} && workflow.edges == old(workflow.edges)
    {
      NodeOwner(Selected());
      ChainWiring(NotesTaking, NotesGeneration, workflow.nodes, workflow.edges);
      var init := InitializeOnce();
      if init.Fail? {
        return init;
      }
      var added := AddHeldNode(TranscriptFetch);
      assert added.Pass?;
      added := AddHeldNode(NotesGeneration);
      if added.Fail? {
        return Fail(RuntimeError(BuildFailure + added.error.Text()));
      }
      workflow.AddEdge(Start, Node(TranscriptFetch));
      workflow.AddEdge(Node(TranscriptFetch), Node(NotesGeneration));
      workflow.AddEdge(Node(NotesGeneration), End);
      return Pass;
    }

    /** `_build_yt_summarization_graph`: the chain through the summarizer node. */
    method BuildSummaryGraph() returns (r: Outcome)
      requires Valid()
      modifies this`nodesInitialized, this`handles, workflow
      ensures Valid()
      ensures nodesInitialized == (old(nodesInitialized) || LlmKey in userInput)
      ensures old(nodesInitialized) ==> handles == old(handles)
      ensures !nodesInitialized ==>
        r == Fail(BuildInitError())
        && workflow.nodes == old(workflow.nodes) && workflow.edges == old(workflow.edges)
      ensures nodesInitialized && Selected() == Summarization ==>
        r == Pass
        && workflow.nodes == old(workflow.nodes) + NodesFor(Summarization)
        && workflow.edges == old(workflow.edges) + EdgesFor(Summarization)
      ensures nodesInitialized && Selected() != Summarization ==>
        r == Fail(RuntimeError(BuildFailure + MissingAttribute(Summarizer).Text()))
        && workflow.nodes == old(workflow.nodes) + {TranscriptFetch} && workflow.edges == old(workflow.edges)
    {
      NodeOwner(Selected());
      ChainWiring(Summarization, Summarizer, workflow.nodes, workflow.edges);
      var init := InitializeOnce();
      if init.Fail? {
        return init;
      }
      var added := AddHeldNode(TranscriptFetch);
      assert added.Pass?;
      added := AddHeldNode(Summarizer);
      if added.Fail? {
        return Fail(RuntimeError(BuildFailure + added.error.Text()));
      }
      workflow.AddEdge(Start, Node(TranscriptFetch));
      workflow.AddEdge(Node(TranscriptFetch), Node(Summarizer));
      workflow.AddEdge(Node(Summarizer), End);
      return Pass;
    }

    /** `setup_graph`: runs the build method of the selected use case and compiles the
        workflow, or raises the rewrapped error. */
    method SetupGraph() returns (r: Result<Graph>)
      requires Valid()
      modifies this`nodesInitialized, this`handles, workflow
      ensures Valid()
      ensures nodesInitialized == (old(nodesInitialized) || LlmKey in userInput)
      ensures r.Ok? <==> nodesInitialized
      ensures r.Ok? ==>
        r.value == workflow.Compile()
        && workflow.nodes == old(workflow.nodes) + NodesFor(Selected())
        && workflow.edges == old(workflow.edges) + EdgesFor(Selected())
      ensures r.Ok? && old(workflow.nodes) == {} && old(workflow.edges) == [] ==> r.value == TopologyOf(Selected())
      ensures r.Err? ==>
        r.error == RuntimeError(SetupFailure + BuildInitError().Text())
        && workflow.nodes == old(workflow.nodes) && workflow.edges == old(workflow.edges)
    {
      var selected := userInput[UseCaseKey];
      var build := Dispatch(selected);
      assert build.Some?;
      var built: Outcome;
      match build.value {
        case BlogGeneration => built := BuildBlogGraph();
        case Summarization => built := BuildSummaryGraph();
        case NotesTaking => built := BuildNotesGraph();
      }
      if built.Fail? {
        return Err(RuntimeError(SetupFailure + built.error.Text()));
      }
      return Ok(workflow.Compile());
    }
  }

  /** `GraphBuilder(user_input)`: the builder, or the `ValueError` its validation raises. */
  method NewGraphBuilder(userInput: map<string, string>) returns (r: Result<GraphBuilder>)
    ensures r.Ok? <==> ValidateUserInput(userInput).Pass?
    ensures r.Err? ==> r.error == ValidateUserInput(userInput).error
    ensures r.Ok? ==>
      fresh(r.value) && fresh(r.value.workflow) && r.value.Valid()
      && r.value.userInput == userInput && !r.value.nodesInitialized && r.value.handles == {}
      && r.value.workflow.nodes == {} && r.value.workflow.edges == []
  {
    var builder := new GraphBuilder(userInput);
    var check := ValidateUserInput(userInput);
    ValidatedInputDispatches(userInput);
    if check.Fail? {
      return Err(check.error);
    }
    return Ok(builder);
  }

  /** `GraphBuilder(user_input).setup_graph()`, as the application calls it: for input
      that selects a use case and a model, the compiled graph is that use case's topology,
      acyclic, connected and supplying every field its nodes read. */
  method BuildWorkflow(userInput: map<string, string>) returns (r: Result<Graph>)
    ensures r.Ok? <==> ValidateUserInput(userInput).Pass? && LlmKey in userInput
    ensures ValidateUserInput(userInput).Fail? ==> r == Err(ValidateUserInput(userInput).error)
    ensures ValidateUserInput(userInput).Pass? && LlmKey !in userInput ==>
      r == Err(RuntimeError(SetupFailure + BuildInitError().Text()))
    ensures r.Ok? ==> UseCaseOf(userInput).Some? && r.value == TopologyOf(UseCaseOf(userInput).value)
    ensures r.Ok? ==> Acyclic(r.value) && Connected(r.value) && ReadsProvided(r.value) && WellFormed(r.value)
  {
    var created := NewGraphBuilder(userInput);
    if created.Err? {
      return Err(created.error);
    }
    var builder := created.value;
    r := builder.SetupGraph();
    if r.Ok? {
      var uc := builder.Selected();
      TopologyAcyclic(uc);
      TopologyConnected(uc);
      TopologyKeyFlow(uc);
      TopologyWellFormed(uc);
    }
  }
}
