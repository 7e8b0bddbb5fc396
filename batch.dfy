/**
 * Generating one component set per source icon: naming, per-icon failure
 * isolation, vertical stacking and the summary notification.
 */
module Batch {
  import opened Wrappers
  import opened Decimal
  import opened Scene
  import opened ComponentSets

  /** The vertical gap between two stacked sets (a 4-point grid step). */
  const Spacing: real := 32.0

  /** What a failed build threw: an `Error` object, or some other value. */
  datatype Thrown = ErrorObject(message: string) | NonError

  /**
   * What the host does when one source icon is built: it lays the finished
   * set out and reports its height, or one of its primitives throws.
   */
  datatype HostReply = Laid(height: real) | Raised(thrown: Thrown)

  /** A source icon that could not be processed, and why. */
  datatype IconError = IconError(name: string, error: string)

  /** A finished set and the position given to it on the page. */
  datatype Placed = Placed(componentSet: ComponentSet, x: real, y: real)

  /** A notification shown to the user; `isError` flags the error style. */
  datatype Notice = Notice(message: string, isError: bool)

  /**
   * Everything one run decides: the placed sets and the recorded failures, in
   * source order, the summary notification, and whether the sets become the
   * selection (and are scrolled into view).
   */
  datatype BatchReport = BatchReport(sets: seq<Placed>, errors: seq<IconError>, notice: Notice, reselect: bool)

  /** `error instanceof Error ? error.message : 'Unknown error'`. */
  function ErrorMessage(thrown: Thrown): (message: string)
    ensures thrown.ErrorObject? ==> message == thrown.message
    ensures thrown.NonError? ==> message == "Unknown error"
  {
    match thrown
    case ErrorObject(message) => message
    case NonError => "Unknown error"
  }

  /**
   * The name handed to the set builder for the source at `index` of `count`:
   * the custom name with a 1-based suffix when several icons share it, the
   * custom name alone for a single icon, and nothing (use the icon's own name)
   * when no usable custom name was given.
   */
  function ComponentName(customName: Option<string>, count: nat, index: nat): (name: Option<string>)
    ensures name.Some? <==> Truthy(customName) && count >= 1
    ensures name.Some? ==> name.value != ""
  {
    if Truthy(customName) && count > 1 then Some(customName.value + "-" + NatToString(index + 1))
    else if Truthy(customName) && count == 1 then customName
    else None
  }

  /** The name the set for the source at `index` finally carries. */
  function SetName(customName: Option<string>, count: nat, index: nat, source: Node): string {
    IconName(ComponentName(customName, count, index), source)
  }

  /** Reads the 1-based position out of a name `<base>-<position>`. */
  function ReadIndexedName(base: string, name: string): Option<nat> {
    var lead := base + "-";
    if |name| < |lead| || name[..|lead|] != lead then None
    else match ParseNat(name[|lead|..])
      case Some((position, rest)) => if rest == "" then Some(position) else None
      case None => None
  }

  /** The naming policy, case by case. */
  lemma NamingPolicy(customName: Option<string>, count: nat, index: nat, source: Node)
    requires index < count
    ensures !Truthy(customName) ==> SetName(customName, count, index, source) == source.name
    ensures Truthy(customName) && count == 1 ==> SetName(customName, count, index, source) == customName.value
    ensures Truthy(customName) && count > 1 ==>
      ReadIndexedName(customName.value, SetName(customName, count, index, source)) == Some(index + 1)
  {
    if Truthy(customName) && count > 1 {
      var lead := customName.value + "-";
      var name := SetName(customName, count, index, source);
      assert name == lead + NatToString(index + 1);
      assert name[..|lead|] == lead;
      assert name[|lead|..] == NatToString(index + 1) + "";
      ParseNatToString(index + 1, "");
    }
  }

  /** The only name that reads as position `k` after `base` is `<base>-<k>` exactly. */
  lemma IndexedNameExact(base: string, name: string, k: nat)
    requires ReadIndexedName(base, name) == Some(k)
    ensures name == base + "-" + NatToString(k)
  {
    var lead := base + "-";
    ParseNatExact(name[|lead|..], k, "");
    assert name == name[..|lead|] + name[|lead|..];
  }

  /** Sets that share a custom name in one batch still get pairwise different names. */
  lemma SharedNamesDiffer(customName: Option<string>, count: nat, i: nat, j: nat, a: Node, b: Node)
    requires Truthy(customName) && count > 1
    requires i < count && j < count && i != j
    ensures SetName(customName, count, i, a) != SetName(customName, count, j, b)
  {
    NamingPolicy(customName, count, i, a);
    NamingPolicy(customName, count, j, b);
  }

  /** Positions, in source order, of the sources whose build succeeded (`laid`) or failed (`!laid`). */
  function Positions(replies: seq<HostReply>, laid: bool): seq<nat>
    decreases |replies|
  {
    if replies == [] then []
    else
      var last := |replies| - 1;
      Positions(replies[..last], laid) + (if replies[last].Laid? == laid then [last] else [])
  }

  /** Positions of the sources whose build succeeded. */
  function BuiltIndices(replies: seq<HostReply>): seq<nat> {
    Positions(replies, true)
  }

  /** Positions of the sources whose build failed. */
  function FailedIndices(replies: seq<HostReply>): seq<nat> {
    Positions(replies, false)
  }

  predicate Increasing(s: seq<nat>) {
    forall j, k :: 0 <= j < k < |s| ==> s[j] < s[k]
  }

  /** Growing the replies by one adds at most that one position. */
  lemma PositionsStep(replies: seq<HostReply>, i: nat, laid: bool)
    requires i < |replies|
    ensures Positions(replies[..i + 1], laid) == Positions(replies[..i], laid) + (if replies[i].Laid? == laid then [i] else [])
  {
    assert replies[..i + 1][..i] == replies[..i];
  }

  /** The positions of one kind are exactly the sources with that outcome, in increasing order. */
  lemma {:induction false} PositionsExact(replies: seq<HostReply>, laid: bool)
    ensures forall j :: 0 <= j < |Positions(replies, laid)| ==> Positions(replies, laid)[j] < |replies|
    ensures forall i :: 0 <= i < |replies| ==> (i in Positions(replies, laid) <==> replies[i].Laid? == laid)
    ensures Increasing(Positions(replies, laid))
    decreases |replies|
  {
    if replies != [] {
      var last := |replies| - 1;
      var front := replies[..last];
      PositionsExact(front, laid);
      assert forall i :: 0 <= i < last ==> front[i] == replies[i];
    }
  }

  lemma {:induction false} PositionsCount(replies: seq<HostReply>)
    ensures |Positions(replies, true)| + |Positions(replies, false)| == |replies|
    decreases |replies|
  {
    if replies != [] {
      PositionsCount(replies[..|replies| - 1]);
    }
  }

  /**
   * Every source has exactly one outcome: it is among the built positions
   * when its build succeeded and among the failed ones when it threw, never
   * both and never neither; both lists keep source order.
   */
  lemma OneOutcomePerSource(replies: seq<HostReply>)
    ensures |BuiltIndices(replies)| + |FailedIndices(replies)| == |replies|
    ensures forall i :: 0 <= i < |replies| ==> (i in BuiltIndices(replies) <==> replies[i].Laid?)
    ensures forall i :: 0 <= i < |replies| ==> (i in FailedIndices(replies) <==> replies[i].Raised?)
    ensures forall j :: 0 <= j < |BuiltIndices(replies)| ==> BuiltIndices(replies)[j] < |replies|
    ensures forall j :: 0 <= j < |FailedIndices(replies)| ==> FailedIndices(replies)[j] < |replies|
    ensures Increasing(BuiltIndices(replies)) && Increasing(FailedIndices(replies))
  {
    PositionsCount(replies);
    PositionsExact(replies, true);
    PositionsExact(replies, false);
  }

  /** Every set is placed at `x`. */
  predicate Aligned(sets: seq<Placed>, x: real) {
    forall j :: 0 <= j < |sets| ==> sets[j].x == x
  }

  /**
   * The first set is placed at `top`; each later one starts `Spacing` below
   * the bottom of the one before it.
   */
  predicate Stacked(sets: seq<Placed>, top: real) {
    && (|sets| > 0 ==> sets[0].y == top)
    && forall j :: 0 < j < |sets| ==> sets[j].y == sets[j - 1].y + sets[j - 1].componentSet.height + Spacing
  }

  /** Stacked sets run top to bottom and never overlap: each ends at least `Spacing` above every later one. */
  lemma {:induction false} StackedSetsApart(sets: seq<Placed>, top: real)
    requires Stacked(sets, top)
    requires forall j :: 0 <= j < |sets| ==> sets[j].componentSet.height >= 0.0
    ensures forall j, k :: 0 <= j < k < |sets| ==> sets[j].y + sets[j].componentSet.height + Spacing <= sets[k].y
    decreases |sets|
  {
    if |sets| > 1 {
      var front := sets[..|sets| - 1];
      assert Stacked(front, top);
      StackedSetsApart(front, top);
      var last := |sets| - 1;
      forall j | 0 <= j < last
        ensures sets[j].y + sets[j].componentSet.height + Spacing <= sets[last].y
      {
        assert front[j] == sets[j] && front[last - 1] == sets[last - 1];
      }
    }
  }

  /**
   * The j-th placed set is the set built for the j-th succeeded source, named
   * by the naming policy and as tall as the host laid it out.
   */
  predicate SetsBuilt(sets: seq<Placed>, sources: seq<Node>, sizes: seq<nat>, strokes: seq<real>,
                      customName: Option<string>, replies: seq<HostReply>)
    requires |strokes| >= |sizes| && AllMeasurable(sources)
  {
    var built := BuiltIndices(replies);
    && |sets| == |built|
    && forall j :: 0 <= j < |sets| ==>
      && built[j] < |sources| && built[j] < |replies| && replies[built[j]].Laid?
      && IsVariantSet(sets[j].componentSet, sources[built[j]], sizes, strokes,
                      SetName(customName, |sources|, built[j], sources[built[j]]), replies[built[j]].height)
  }

  /** The j-th recorded failure names the j-th failed source and carries what it threw. */
  predicate ErrorsRecorded(errors: seq<IconError>, sources: seq<Node>, replies: seq<HostReply>) {
    var failed := FailedIndices(replies);
    && |errors| == |failed|
    && forall j :: 0 <= j < |errors| ==>
      && failed[j] < |sources| && failed[j] < |replies| && replies[failed[j]].Raised?
      && errors[j] == IconError(sources[failed[j]].name, ErrorMessage(replies[failed[j]].thrown))
  }

  /** What a run over `sources` reports, given what the host did for each of them. */
  predicate IsBatchReport(report: BatchReport, sources: seq<Node>, sizes: seq<nat>, strokes: seq<real>,
                          customName: Option<string>, replies: seq<HostReply>)
    requires |sources| > 0 && |strokes| >= |sizes| && AllMeasurable(sources)
  {
    && SetsBuilt(report.sets, sources, sizes, strokes, customName, replies)
    && Aligned(report.sets, sources[0].x)
    && Stacked(report.sets, sources[0].y)
    && ErrorsRecorded(report.errors, sources, replies)
    && report.notice == Summary(|report.sets|, |report.errors|)
    && report.reselect == (|report.sets| > 0)
  }

  const SuccessLead: string := "\U{2705} Generated "
  const FailureLead: string := "Generated "
  const FailureMiddle: string := " sets, "
  const FailureTail: string := " failed"

  /**
   * The closing notification: a plain success message with the pluralised
   * count when nothing failed, otherwise an error-styled message with both
   * counts.
   */
  function Summary(succeeded: nat, failed: nat): (notice: Notice)
    ensures notice.isError <==> failed > 0
  {
    if failed == 0 then
      Notice(SuccessLead + (NatToString(succeeded) + (" component " + SetNoun(succeeded))), false)
    else
      Notice(FailureLead + (NatToString(succeeded) + (FailureMiddle + (NatToString(failed) + FailureTail))), true)
  }

  /** "set" for exactly one, "sets" for any other count. */
  function SetNoun(count: nat): (noun: string)
    ensures noun == "set" <==> count == 1
    ensures noun == "set" || noun == "sets"
  {
    if count == 1 then "set" else "sets"
  }

  predicate StartsWith(s: string, prefix: string) {
    |prefix| <= |s| && s[..|prefix|] == prefix
  }

  /** Reads the count out of a success message; its noun must agree with the count. */
  function ReadSuccessSummary(message: string): Option<nat>
    requires StartsWith(message, SuccessLead)
  {
    match ParseNat(message[|SuccessLead|..])
    case Some((succeeded, rest)) =>
      if rest == " component " + SetNoun(succeeded) then Some(succeeded) else None
    case None => None
  }

  /** Reads both counts out of a partial-failure message. */
  function ReadFailureSummary(message: string): Option<(nat, nat)>
    requires StartsWith(message, FailureLead)
  {
    match ParseNat(message[|FailureLead|..])
    case Some((succeeded, rest)) =>
      if !StartsWith(rest, FailureMiddle) then None
      else (match ParseNat(rest[|FailureMiddle|..])
        case Some((failed, tail)) => if tail == FailureTail && failed > 0 then Some((succeeded, failed)) else None
        case None => None)
    case None => None
  }

  /** Reads the counts of generated and failed sets back out of a summary message. */
  function ReadSummary(message: string): Option<(nat, nat)> {
    if StartsWith(message, SuccessLead) then
      match ReadSuccessSummary(message)
      case Some(succeeded) => Some((succeeded, 0))
      case None => None
    else if StartsWith(message, FailureLead) then ReadFailureSummary(message)
    else None
  }

  /** A message made of a lead, a number and a tail starting with a non-digit reads back as that number and tail. */
  lemma ReadAfterLead(lead: string, n: nat, tail: string)
    requires tail == [] || !IsDigit(tail[0])
    ensures StartsWith(lead + (NatToString(n) + tail), lead)
    ensures ParseNat((lead + (NatToString(n) + tail))[|lead|..]) == Some((n, tail))
  {
    var message := lead + (NatToString(n) + tail);
    assert message[..|lead|] == lead;
    assert message[|lead|..] == NatToString(n) + tail;
    ParseNatToString(n, tail);
  }

  lemma SuccessSummaryReadsBack(succeeded: nat)
    ensures StartsWith(Summary(succeeded, 0).message, SuccessLead)
    ensures ReadSuccessSummary(Summary(succeeded, 0).message) == Some(succeeded)
  {
    var rest := " component " + SetNoun(succeeded);
    var message := SuccessLead + (NatToString(succeeded) + rest);
    assert Summary(succeeded, 0).message == message;
    assert rest[0] == ' ';
    ReadAfterLead(SuccessLead, succeeded, rest);
  }

  lemma FailureSummaryReadsBack(succeeded: nat, failed: nat)
    requires failed > 0
    ensures !StartsWith(Summary(succeeded, failed).message, SuccessLead)
    ensures StartsWith(Summary(succeeded, failed).message, FailureLead)
    ensures ReadFailureSummary(Summary(succeeded, failed).message) == Some((succeeded, failed))
  {
    var rest := FailureMiddle + (NatToString(failed) + FailureTail);
    var message := FailureLead + (NatToString(succeeded) + rest);
    assert Summary(succeeded, failed).message == message;
    assert !StartsWith(message, SuccessLead) by {
      assert message[0] == FailureLead[0];
    }
    assert rest[0] == ' ';
    ReadAfterLead(FailureLead, succeeded, rest);
    assert ParseNat(message[|FailureLead|..]) == Some((succeeded, rest));
    ReadAfterLead(FailureMiddle, failed, FailureTail);
    assert StartsWith(rest, FailureMiddle);
    assert ParseNat(rest[|FailureMiddle|..]) == Some((failed, FailureTail));
  }

  /** The summary states both counts, and says "set" exactly when one set was generated. */
  lemma SummaryReadsBack(succeeded: nat, failed: nat)
    ensures ReadSummary(Summary(succeeded, failed).message) == Some((succeeded, failed))
  {
    if failed == 0 {
      SuccessSummaryReadsBack(succeeded);
    } else {
      FailureSummaryReadsBack(succeeded, failed);
    }
  }

  /** A success message is read only from the exact text `Summary` prints for its count. */
  lemma SuccessSummaryExact(message: string, succeeded: nat)
    requires StartsWith(message, SuccessLead)
    requires ReadSuccessSummary(message) == Some(succeeded)
    ensures message == Summary(succeeded, 0).message
  {
    var rest := " component " + SetNoun(succeeded);
    ParseNatExact(message[|SuccessLead|..], succeeded, rest);
    assert message == message[..|SuccessLead|] + message[|SuccessLead|..];
  }

  /** A partial-failure message is read only from the exact text `Summary` prints for its counts. */
  lemma FailureSummaryExact(message: string, succeeded: nat, failed: nat)
    requires StartsWith(message, FailureLead)
    requires ReadFailureSummary(message) == Some((succeeded, failed))
    ensures failed > 0 && message == Summary(succeeded, failed).message
  {
    var (_, rest) := ParseNat(message[|FailureLead|..]).value;
    ParseNatExact(message[|FailureLead|..], succeeded, rest);
    ParseNatExact(rest[|FailureMiddle|..], failed, FailureTail);
    assert rest == rest[..|FailureMiddle|] + rest[|FailureMiddle|..];
    assert message == message[..|FailureLead|] + message[|FailureLead|..];
  }

  /** Only the exact summary text reads back as a pair of counts. */
  lemma SummaryExact(message: string, succeeded: nat, failed: nat)
    requires ReadSummary(message) == Some((succeeded, failed))
    ensures message == Summary(succeeded, failed).message
  {
    if StartsWith(message, SuccessLead) {
      SuccessSummaryExact(message, succeeded);
    } else {
      FailureSummaryExact(message, succeeded, failed);
    }
  }

  lemma SetsBuiltExtend(sets: seq<Placed>, sources: seq<Node>, sizes: seq<nat>, strokes: seq<real>,
                        customName: Option<string>, replies: seq<HostReply>, i: nat, placed: Placed)
    requires |strokes| >= |sizes| && AllMeasurable(sources)
    requires i < |sources| && i < |replies| && replies[i].Laid?
    requires SetsBuilt(sets, sources, sizes, strokes, customName, replies[..i])
    requires IsVariantSet(placed.componentSet, sources[i], sizes, strokes,
                          SetName(customName, |sources|, i, sources[i]), replies[i].height)
    ensures SetsBuilt(sets + [placed], sources, sizes, strokes, customName, replies[..i + 1])
  {
    PositionsStep(replies, i, true);
  }

  lemma SetsBuiltSkip(sets: seq<Placed>, sources: seq<Node>, sizes: seq<nat>, strokes: seq<real>,
                      customName: Option<string>, replies: seq<HostReply>, i: nat)
    requires |strokes| >= |sizes| && AllMeasurable(sources)
    requires i < |replies| && replies[i].Raised?
    requires SetsBuilt(sets, sources, sizes, strokes, customName, replies[..i])
    ensures SetsBuilt(sets, sources, sizes, strokes, customName, replies[..i + 1])
  {
    PositionsStep(replies, i, true);
  }

  lemma ErrorsRecordedExtend(errors: seq<IconError>, sources: seq<Node>, replies: seq<HostReply>, i: nat)
    requires i < |sources| && i < |replies| && replies[i].Raised?
    requires ErrorsRecorded(errors, sources, replies[..i])
    ensures ErrorsRecorded(errors + [IconError(sources[i].name, ErrorMessage(replies[i].thrown))], sources, replies[..i + 1])
  {
    PositionsStep(replies, i, false);
  }

  lemma ErrorsRecordedSkip(errors: seq<IconError>, sources: seq<Node>, replies: seq<HostReply>, i: nat)
    requires i < |replies| && replies[i].Laid?
    requires ErrorsRecorded(errors, sources, replies[..i])
    ensures ErrorsRecorded(errors, sources, replies[..i + 1])
  {
    PositionsStep(replies, i, false);
  }

  /**
   * Builds one source icon inside the `try` block: the set, or the message of
   * what the host threw.
   */
  method BuildIcon(source: Node, sizes: seq<nat>, strokes: seq<real>, componentName: Option<string>, reply: HostReply)
    returns (result: Result<ComponentSet, string>)
    requires |strokes| >= |sizes| && MaxDimension(source) > 0.0
    ensures reply.Raised? ==> result == Failure(ErrorMessage(reply.thrown))
    ensures reply.Laid? ==> result.Success?
    ensures reply.Laid? && result.Success? ==>
      IsVariantSet(result.value, source, sizes, strokes, IconName(componentName, source), reply.height)
  {
    match reply
    case Raised(thrown) =>
      result := Failure(ErrorMessage(thrown));
    case Laid(height) =>
      var componentSet := CreateSingleComponentSet(source, sizes, strokes, componentName, height);
      result := Success(componentSet);
  }

  /** Where the next set goes: the first source's y, or 32 below the last placed set. */
  function NextTop(sets: seq<Placed>, top: real): real {
    if sets == [] then top else sets[|sets| - 1].y + sets[|sets| - 1].componentSet.height + Spacing
  }

  /** The state of the batch loop after the first `i` sources. */
  predicate Progress(sets: seq<Placed>, errors: seq<IconError>, currentY: real, i: nat,
                     sources: seq<Node>, sizes: seq<nat>, strokes: seq<real>,
                     customName: Option<string>, replies: seq<HostReply>)
    requires |sources| > 0 && i <= |replies| && |strokes| >= |sizes| && AllMeasurable(sources)
  {
    && SetsBuilt(sets, sources, sizes, strokes, customName, replies[..i])
    && ErrorsRecorded(errors, sources, replies[..i])
    && Aligned(sets, sources[0].x)
    && Stacked(sets, sources[0].y)
    && currentY == NextTop(sets, sources[0].y)
  }

  /** A source whose set was built: the set is placed at the next position. */
  lemma ProgressBuilt(sets: seq<Placed>, errors: seq<IconError>, currentY: real, i: nat,
                      sources: seq<Node>, sizes: seq<nat>, strokes: seq<real>,
                      customName: Option<string>, replies: seq<HostReply>, componentSet: ComponentSet)
    requires |sources| > 0 && i < |replies| == |sources| && |strokes| >= |sizes| && AllMeasurable(sources)
    requires Progress(sets, errors, currentY, i, sources, sizes, strokes, customName, replies)
    requires replies[i].Laid?
    requires IsVariantSet(componentSet, sources[i], sizes, strokes,
                          SetName(customName, |sources|, i, sources[i]), replies[i].height)
    ensures Progress(sets + [Placed(componentSet, sources[0].x, currentY)], errors,
                     currentY + componentSet.height + Spacing, i + 1,
                     sources, sizes, strokes, customName, replies)
  {
    var placed := Placed(componentSet, sources[0].x, currentY);
    SetsBuiltExtend(sets, sources, sizes, strokes, customName, replies, i, placed);
    ErrorsRecordedSkip(errors, sources, replies, i);
  }

  /** A source whose build threw: its error is recorded and nothing moves. */
  lemma ProgressFailed(sets: seq<Placed>, errors: seq<IconError>, currentY: real, i: nat,
                       sources: seq<Node>, sizes: seq<nat>, strokes: seq<real>,
                       customName: Option<string>, replies: seq<HostReply>)
    requires |sources| > 0 && i < |replies| == |sources| && |strokes| >= |sizes| && AllMeasurable(sources)
    requires Progress(sets, errors, currentY, i, sources, sizes, strokes, customName, replies)
    requires replies[i].Raised?
    ensures Progress(sets, errors + [IconError(sources[i].name, ErrorMessage(replies[i].thrown))], currentY, i + 1,
                     sources, sizes, strokes, customName, replies)
  {
    SetsBuiltSkip(sets, sources, sizes, strokes, customName, replies, i);
    ErrorsRecordedExtend(errors, sources, replies, i);
  }

  /** After the last source the loop state is the report. */
  lemma ProgressComplete(sets: seq<Placed>, errors: seq<IconError>, currentY: real,
                         sources: seq<Node>, sizes: seq<nat>, strokes: seq<real>,
                         customName: Option<string>, replies: seq<HostReply>)
    requires |sources| > 0 && |replies| == |sources| && |strokes| >= |sizes| && AllMeasurable(sources)
    requires Progress(sets, errors, currentY, |sources|, sources, sizes, strokes, customName, replies)
    ensures IsBatchReport(BatchReport(sets, errors, Summary(|sets|, |errors|), |sets| > 0),
                          sources, sizes, strokes, customName, replies)
  {
    assert replies[..|sources|] == replies;
  }

  /**
   * Processes every source in order, each in isolation: a set that builds is
   * placed in the column of the first source and stacked under the previous
   * set; a source that fails is recorded and the loop goes on.
   */
  method GenerateBulkComponentSets(sources: seq<Node>, sizes: seq<nat>, strokes: seq<real>,
                                   customName: Option<string>, replies: seq<HostReply>)
    returns (report: BatchReport)
    requires |sources| > 0 && |replies| == |sources|
    requires |strokes| >= |sizes| && AllMeasurable(sources)
    ensures IsBatchReport(report, sources, sizes, strokes, customName, replies)
  {
    var componentSets: seq<Placed> := [];
    var errors: seq<IconError> := [];
    var alignedX := sources[0].x;
    var currentY := sources[0].y;
    for i := 0 to |sources|
      invariant Progress(componentSets, errors, currentY, i, sources, sizes, strokes, customName, replies)
    {
      var node := sources[i];
      var componentName := ComponentName(customName, |sources|, i);
      var built := BuildIcon(node, sizes, strokes, componentName, replies[i]);
      match built
      case Success(componentSet) =>
        ProgressBuilt(componentSets, errors, currentY, i, sources, sizes, strokes, customName, replies, componentSet);
        componentSets := componentSets + [Placed(componentSet, alignedX, currentY)];
        currentY := currentY + componentSet.height + Spacing;
      case Failure(message) =>
        ProgressFailed(componentSets, errors, currentY, i, sources, sizes, strokes, customName, replies);
        errors := errors + [IconError(node.name, message)];
    }
    ProgressComplete(componentSets, errors, currentY, sources, sizes, strokes, customName, replies);
    var notice := Summary(|componentSets|, |errors|);
    report := BatchReport(componentSets, errors, notice, |componentSets| > 0);
  }

  /**
   * Failures are isolated: every source whose build succeeds has its set in
   * the report and every source whose build fails has its error there, whatever
   * happened to the sources before it; the two lists together have one entry
   * per source, and the sets sit one under the other without overlapping.
   */
  lemma EverySourceAccountedFor(report: BatchReport, sources: seq<Node>, sizes: seq<nat>, strokes: seq<real>,
                                customName: Option<string>, replies: seq<HostReply>)
    requires |sources| > 0 && |replies| == |sources| && |strokes| >= |sizes| && AllMeasurable(sources)
    requires IsBatchReport(report, sources, sizes, strokes, customName, replies)
    ensures |report.sets| + |report.errors| == |sources|
    ensures forall i :: 0 <= i < |sources| && replies[i].Laid? ==>
      exists j ::
        && 0 <= j < |report.sets|
        && IsVariantSet(report.sets[j].componentSet, sources[i], sizes, strokes,
                        SetName(customName, |sources|, i, sources[i]), replies[i].height)
    ensures forall i :: 0 <= i < |sources| && replies[i].Raised? ==>
      IconError(sources[i].name, ErrorMessage(replies[i].thrown)) in report.errors
    ensures (forall i :: 0 <= i < |replies| ==> replies[i].Laid? ==> replies[i].height >= 0.0) ==>
      forall j, k :: 0 <= j < k < |report.sets| ==>
        report.sets[j].y + report.sets[j].componentSet.height + Spacing <= report.sets[k].y
  {
    OneOutcomePerSource(replies);
    var built := BuiltIndices(replies);
    var failed := FailedIndices(replies);
    forall i | 0 <= i < |sources| && replies[i].Laid?
      ensures exists j ::
        && 0 <= j < |report.sets|
        && IsVariantSet(report.sets[j].componentSet, sources[i], sizes, strokes,
                        SetName(customName, |sources|, i, sources[i]), replies[i].height)
    {
      var j :| 0 <= j < |built| && built[j] == i;
      assert 0 <= j < |report.sets|;
    }
    forall i | 0 <= i < |sources| && replies[i].Raised?
      ensures IconError(sources[i].name, ErrorMessage(replies[i].thrown)) in report.errors
    {
      var j :| 0 <= j < |failed| && failed[j] == i;
      assert report.errors[j] == IconError(sources[i].name, ErrorMessage(replies[i].thrown));
    }
    if forall i :: 0 <= i < |replies| ==> replies[i].Laid? ==> replies[i].height >= 0.0 {
      forall j | 0 <= j < |report.sets|
        ensures report.sets[j].componentSet.height >= 0.0
      {
        assert report.sets[j].componentSet.height == replies[built[j]].height;
      }
      StackedSetsApart(report.sets, sources[0].y);
    }
  }

  /**
   * Three icons where the second one fails: the first and third get sets,
   * stacked from the first icon's position, and the second is reported once.
   */
  lemma MiddleFailureIsolated(a: Node, b: Node, c: Node, sizes: seq<nat>, strokes: seq<real>,
                              customName: Option<string>, heightA: real, thrown: Thrown, heightC: real,
                              report: BatchReport)
    requires |strokes| >= |sizes| && AllMeasurable([a, b, c])
    requires IsBatchReport(report, [a, b, c], sizes, strokes, customName, [Laid(heightA), Raised(thrown), Laid(heightC)])
    ensures |report.sets| == 2
    ensures IsVariantSet(report.sets[0].componentSet, a, sizes, strokes, SetName(customName, 3, 0, a), heightA)
    ensures IsVariantSet(report.sets[1].componentSet, c, sizes, strokes, SetName(customName, 3, 2, c), heightC)
    ensures report.sets[0].y == a.y && report.sets[1].y == a.y + heightA + Spacing
    ensures report.sets[0].x == a.x && report.sets[1].x == a.x
    ensures report.errors == [IconError(b.name, ErrorMessage(thrown))]
    ensures report.notice.isError && report.reselect
  {
    var replies := [Laid(heightA), Raised(thrown), Laid(heightC)];
    assert replies[..0] == [];
    PositionsStep(replies, 0, true);
    PositionsStep(replies, 1, true);
    PositionsStep(replies, 2, true);
    PositionsStep(replies, 0, false);
    PositionsStep(replies, 1, false);
    PositionsStep(replies, 2, false);
    assert replies[..3] == replies;
    assert BuiltIndices(replies) == [0, 2];
    assert FailedIndices(replies) == [1];
  }
}
