/**
 * The plugin's two entry points, reduced to the decisions they take: the
 * selection status sent to the panel, and the handling of a generate request.
 */
module Plugin {
  import opened Wrappers
  import opened Scene
  import opened Batch

  /** The panel's status message: whether icons are selected, how many, and their names. */
  datatype SelectionStatus = SelectionStatus(hasValidSelection: bool, count: nat, iconNames: seq<string>)

  /** A generate request from the panel. */
  datatype GenerateMessage = GenerateMessage(sizes: seq<nat>, strokes: seq<real>, customName: Option<string>)

  /** A generate request is either turned away with a notice, or runs the batch. */
  datatype Response = Rejected(notice: Notice) | Generated(report: BatchReport)

  /** The notice shown when a generate request arrives and no icon is selected. */
  const NoValidSelection: Notice := Notice("\U{274C} Please select at least one valid icon", false)

  /** No node of the selection is an icon. */
  predicate NothingValid(selection: seq<Node>) {
    forall i :: 0 <= i < |selection| ==> !IsValidIconNode(selection[i])
  }

  /** The selection filtered down to icon nodes. */
  function ValidNodes(selection: seq<Node>): (valid: seq<Node>)
    ensures |valid| <= |selection|
    ensures forall i :: 0 <= i < |valid| ==> IsValidIconNode(valid[i])
    ensures forall n :: n in valid ==> n in selection
    ensures forall i :: 0 <= i < |selection| && IsValidIconNode(selection[i]) ==> selection[i] in valid
    decreases |selection|
  {
    if selection == [] then []
    else (if IsValidIconNode(selection[0]) then [selection[0]] else []) + ValidNodes(selection[1..])
  }

  /**
   * The filter keeps selection order: filtering a concatenation is
   * concatenating the filtered parts.
   */
  lemma {:induction false} ValidNodesDistributes(a: seq<Node>, b: seq<Node>)
    ensures ValidNodes(a + b) == ValidNodes(a) + ValidNodes(b)
    decreases |a|
  {
    if a != [] {
      assert (a + b)[0] == a[0];
      assert (a + b)[1..] == a[1..] + b;
      ValidNodesDistributes(a[1..], b);
    } else {
      assert a + b == b;
    }
  }

  /** The filtered selection is empty exactly when no selected node is an icon. */
  lemma NoValidNodes(selection: seq<Node>)
    ensures ValidNodes(selection) == [] <==> NothingValid(selection)
  {
  }

  /** The names of the nodes, in order. */
  function Names(nodes: seq<Node>): (names: seq<string>)
    ensures |names| == |nodes|
    ensures forall i :: 0 <= i < |nodes| ==> names[i] == nodes[i].name
  {
    seq(|nodes|, i requires 0 <= i < |nodes| => nodes[i].name)
  }

  /**
   * The status of the current selection: the names of its icon nodes in
   * selection order and their number; a selection without icons reports
   * false, 0 and no names.
   */
  function UpdateSelectionStatus(selection: seq<Node>): (status: SelectionStatus)
    ensures status.count == |status.iconNames| == |ValidNodes(selection)|
    ensures status.iconNames == Names(ValidNodes(selection))
    ensures status.hasValidSelection <==> status.count > 0
    ensures NothingValid(selection) ==> status == SelectionStatus(false, 0, [])
  {
    NoValidNodes(selection);
    var validNodes := ValidNodes(selection);
    if |validNodes| > 0 then SelectionStatus(true, |validNodes|, Names(validNodes))
    else SelectionStatus(false, 0, [])
  }

  /**
   * A generate request: with no icon selected it only shows a notice;
   * otherwise it runs the batch over the selected icons in selection order.
   * `replies` holds, per selected icon, what the host did while its set was built.
   */
  method HandleGenerate(selection: seq<Node>, msg: GenerateMessage, replies: seq<HostReply>)
    returns (response: Response)
    requires |msg.strokes| >= |msg.sizes|
    requires AllMeasurable(ValidNodes(selection))
    requires |replies| == |ValidNodes(selection)|
    ensures response.Rejected? <==> NothingValid(selection)
    ensures response.Rejected? ==> response.notice == NoValidSelection
    ensures response.Generated? ==>
      IsBatchReport(response.report, ValidNodes(selection), msg.sizes, msg.strokes, msg.customName, replies)
  {
    NoValidNodes(selection);
    var validNodes := ValidNodes(selection);
    if |validNodes| == 0 {
      response := Rejected(NoValidSelection);
      return;
    }
    var report := GenerateBulkComponentSets(validNodes, msg.sizes, msg.strokes, msg.customName, replies);
    response := Generated(report);
  }
}
