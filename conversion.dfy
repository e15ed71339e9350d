/** The per-file conversion loop of the program's entry point: every entity
    the PBF reader returns is either written as a feature, recorded as a
    dependency position, or aborts the run. */
module Conversion {
  import opened Wrappers
  import opened TagFilter
  import opened Features

  /** An entity as the PBF reader returns it. */
  datatype OsmObj =
    | NodeObj(node: Node)
    | WayObj(way: Way)
    | RelationObj(relationId: int, relationTags: Tags)

  /** The features one step writes: none or one. */
  function Emitted(feature: Option<Feature>): seq<Feature>
  {
    if feature.Some? then [feature.value] else []
  }

  /** One iteration of the loop: the new dependency map and the feature
      written, or the reason the run aborts. */
  function Step(obj: OsmObj, filters: TagFilters, deps: NodeToCoords): Result<(NodeToCoords, Option<Feature>), Fatal>
  {
    match obj
    case NodeObj(node) =>
      (match NodeToFeature(node, filters)
       case Some(feature) => Success((deps, Some(feature)))
       case None => Success((deps[node.id := NodeToPoint(node)], None)))
    case WayObj(way) =>
      (match WayToFeature(way, deps)
       case Failure(e) => Failure(e)
       case Success(feature) => Success((deps, feature)))
    case RelationObj(id, _) => Failure(RelationFound(id))
  }

  /** What processing a sequence of entities leaves: the features written in
      order, the dependency map, and the abort reason if it stopped early. */
  datatype RunResult = RunResult(written: seq<Feature>, depNodes: NodeToCoords, fatal: Option<Fatal>)

  /** The loop as a function of the entities seen so far, starting from an
      empty dependency map. After an abort nothing more happens; features
      written before it stay written. */
  function Run(objs: seq<OsmObj>, filters: TagFilters): RunResult
    decreases |objs|
  {
    if objs == [] then RunResult([], map[], None)
    else
      var before := Run(objs[..|objs| - 1], filters);
      if before.fatal.Some? then before
      else
        match Step(objs[|objs| - 1], filters, before.depNodes)
        case Failure(e) => RunResult(before.written, before.depNodes, Some(e))
        case Success((deps, feature)) => RunResult(before.written + Emitted(feature), deps, None)
  }

  /** Once the run has aborted, later entities change nothing. */
  lemma {:induction false} AbortIsFinal(objs: seq<OsmObj>, k: int, filters: TagFilters)
    requires 0 <= k <= |objs|
    requires Run(objs[..k], filters).fatal.Some?
    ensures Run(objs, filters) == Run(objs[..k], filters)
    decreases |objs| - k
  {
    if k < |objs| {
      assert objs[..k + 1][..k] == objs[..k];
      AbortIsFinal(objs, k + 1, filters);
    } else {
      assert objs[..k] == objs;
    }
  }

  /** The body of the loop for one entity, as the loop executes it: a node
      that passes the filter yields its feature, one that fails is recorded
      in `depNodes`; a way yields its feature when closed; a relation aborts.
      It is the executable counterpart of the specification function `Step`,
      and its contract says the two agree. */
  method ConvertEntity(obj: OsmObj, filters: TagFilters, depNodes: NodeToCoords)
    returns (deps: NodeToCoords, feature: Option<Feature>, fatal: Option<Fatal>)
    ensures fatal.None? <==> Step(obj, filters, depNodes).Success?
    ensures fatal.Some? ==> fatal.value == Step(obj, filters, depNodes).error
    ensures fatal.None? ==> Step(obj, filters, depNodes).value == (deps, feature)
  {
    deps, feature, fatal := depNodes, None, None;
    match obj {
      case NodeObj(node) =>
        feature := NodeToFeature(node, filters);
        if feature.None? {
          deps := depNodes[node.id := NodeToPoint(node)];
        }
      case WayObj(way) =>
        var built := WayToFeature(way, depNodes);
        if built.Failure? {
          fatal := Some(built.error);
        } else {
          feature := built.value;
        }
      case RelationObj(id, _) =>
        fatal := Some(RelationFound(id));
    }
  }

  /** The loop over one file's entities: `dep_nodes` and `count` start empty
      and zero, `count` is the number of features written, and what is
      written is what `Run` describes. */
  method ConvertFile(objs: seq<OsmObj>, filters: TagFilters)
    returns (written: seq<Feature>, count: nat, fatal: Option<Fatal>)
    ensures written == Run(objs, filters).written
    ensures fatal == Run(objs, filters).fatal
    ensures count == |written|
  {
    var depNodes: NodeToCoords := map[];
    written, count, fatal := [], 0, None;
    var i := 0;
    while i < |objs|
      invariant 0 <= i <= |objs|
      invariant count == |written|
      invariant Run(objs[..i], filters) == RunResult(written, depNodes, None)
      decreases |objs| - i
    {
      assert objs[..i + 1][..i] == objs[..i];
      var feature, failure;
      depNodes, feature, failure := ConvertEntity(objs[i], filters, depNodes);
      if failure.Some? {
        fatal := failure;
        AbortIsFinal(objs, i + 1, filters);
        return;
      }
      if feature.Some? {
        written := written + [feature.value];
        count := count + 1;
      }
      i := i + 1;
    }
    assert objs[..i] == objs;
  }

  /** What a whole invocation produces: the features written to the shared
      output, the count reported for each file that completed, and the abort
      reason if a file stopped the run. */
  datatype BatchResult = BatchResult(output: seq<Feature>, counts: seq<nat>, fatal: Option<Fatal>)

  /** The files in order, each with a fresh dependency map; a file that
      aborts ends the whole run, and no count is reported for it. */
  function RunFiles(files: seq<seq<OsmObj>>, filters: TagFilters): BatchResult
    decreases |files|
  {
    if files == [] then BatchResult([], [], None)
    else
      var before := RunFiles(files[..|files| - 1], filters);
      if before.fatal.Some? then before
      else
        var last := Run(files[|files| - 1], filters);
        if last.fatal.Some? then BatchResult(before.output + last.written, before.counts, last.fatal)
        else BatchResult(before.output + last.written, before.counts + [|last.written|], None)
  }

  /** Once a file has aborted the run, later files change nothing. */
  lemma {:induction false} BatchAbortIsFinal(files: seq<seq<OsmObj>>, k: int, filters: TagFilters)
    requires 0 <= k <= |files|
    requires RunFiles(files[..k], filters).fatal.Some?
    ensures RunFiles(files, filters) == RunFiles(files[..k], filters)
    decreases |files| - k
  {
    if k < |files| {
      assert files[..k + 1][..k] == files[..k];
      BatchAbortIsFinal(files, k + 1, filters);
    } else {
      assert files[..k] == files;
    }
  }

  /** The program: parse the filter strings once, then convert each file's
      entities in turn, appending to one output and reporting one count per
      file. */
  method Convert(specs: seq<string>, files: seq<seq<OsmObj>>)
    returns (output: seq<Feature>, counts: seq<nat>, fatal: Option<Fatal>)
    ensures RunFiles(files, ParseTagFilters(specs)) == BatchResult(output, counts, fatal)
  {
    var filters := ParseTagFilters(specs);
    output, counts, fatal := [], [], None;
    var k := 0;
    while k < |files|
      invariant 0 <= k <= |files|
      invariant RunFiles(files[..k], filters) == BatchResult(output, counts, None)
      decreases |files| - k
    {
      assert files[..k + 1][..k] == files[..k];
      var written, count, failure := ConvertFile(files[k], filters);
      output := output + written;
      if failure.Some? {
        fatal := failure;
        BatchAbortIsFinal(files, k + 1, filters);
        return;
      }
      counts := counts + [count];
      k := k + 1;
    }
    assert files[..k] == files;
  }
}
