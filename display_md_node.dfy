/**
 * The note node of the flow canvas: a header title taken from the node's
 * data, and the same streaming reveal as the markdown view, with the speed
 * and interval fixed at module level.
 */
module DisplayMDNode {
  import opened Wrappers
  import opened Streaming

  const NodeSpeed := 5
  const NodeInterval := 30
  const DefaultTitle := "Note"

  /** The node's `data`, as far as the view reads it: its `label`. */
  datatype NodeData = NodeData(dataLabel: Option<string>)

  /** `props?.data?.label ?? 'Note'`: only a missing `data` or `label`
      (`undefined`/`null`) gives way to the default; an empty label is kept. */
  function Title(data: Option<NodeData>): (r: string)
    ensures data.Some? && data.value.dataLabel.Some? ==> r == data.value.dataLabel.value
    ensures data.None? || data.value.dataLabel.None? ==> r == DefaultTitle
  {
    match data
    case Some(NodeData(Some(text))) => text
    case _ => DefaultTitle
  }

  /** An empty label is shown as an empty title, not replaced by "Note". */
  lemma EmptyLabelKept()
    ensures Title(Some(NodeData(Some("")))) == ""
    ensures Title(Some(NodeData(None))) == DefaultTitle && Title(None) == DefaultTitle
  {
  }

  /** The session the node's streaming effect starts. */
  function NodeSession(content: string): Reveal {
    Start(content, NodeSpeed)
  }

  /** A non-final tick reveals five more characters; the session finishes at
      stream tick ceil(length / 5) + 1 and stays finished; what is shown only
      grows and is always a prefix of the content. */
  lemma NodeStreaming(content: string, evs: seq<Event>, e: Event)
    ensures !Run(NodeSession(content), evs).streaming
      <==> StreamTicks(evs) >= (|content| + 4) / 5 + 1
    ensures !Run(NodeSession(content), evs).streaming ==>
      Run(NodeSession(content), evs + [e]) == Run(NodeSession(content), evs)
    ensures IsPrefix(Run(NodeSession(content), evs).displayed, Run(NodeSession(content), evs + [e]).displayed)
    ensures IsPrefix(Run(NodeSession(content), evs + [e]).displayed, content)
  {
    FinishesAfter(content, NodeSpeed, evs);
    RunGrows(content, NodeSpeed, evs, e);
    var r := Run(NodeSession(content), evs);
    RunInv(NodeSession(content), evs);
    assert (evs + [e])[..|evs + [e]| - 1] == evs;
    if !r.streaming {
      StepInv(r, e);
    }
  }

  /** A tick while the index is short of the end shows
      `content.slice(0, index + 5)` and advances the index by five. */
  lemma NodeTick(content: string, evs: seq<Event>)
    requires Run(NodeSession(content), evs).streaming
    requires Run(NodeSession(content), evs).index < |content|
    ensures Run(NodeSession(content), evs + [StreamFired]).index == Run(NodeSession(content), evs).index + 5
    ensures Run(NodeSession(content), evs + [StreamFired]).displayed
      == JsPrefix(content, Run(NodeSession(content), evs).index + 5)
  {
    RunInv(NodeSession(content), evs);
    assert (evs + [StreamFired])[..|evs + [StreamFired]| - 1] == evs;
  }

  /** Mounting the node: the effect runs once on the module's content. */
  method Mount(content: string) returns (view: StreamingView)
    ensures fresh(view) && view.Valid()
    ensures view.State() == NodeSession(content) && view.interval == NodeInterval
  {
    view := new StreamingView(content, NodeSpeed, NodeInterval);
  }
}
