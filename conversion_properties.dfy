/** What the per-file loop guarantees: which entities are written, what the
    dependency map holds, when the run aborts, and that files do not affect
    one another. */
module ConversionProperties {
  import opened Wrappers
  import opened Text
  import opened TagFilter
  import opened Features
  import opened Conversion

  /** Entity `i` is a node whose tags fail the filter. */
  predicate FailsFilterAt(objs: seq<OsmObj>, filters: TagFilters, i: int)
  {
    0 <= i < |objs| && objs[i].NodeObj? && !Matches(filters, objs[i].node.tags)
  }

  /** Entity `i` is a node whose tags pass the filter. */
  predicate PassesFilterAt(objs: seq<OsmObj>, filters: TagFilters, i: int)
  {
    0 <= i < |objs| && objs[i].NodeObj? && Matches(filters, objs[i].node.tags)
  }

  /** The number of nodes that pass the filter. */
  function MatchingNodes(objs: seq<OsmObj>, filters: TagFilters): nat
    decreases |objs|
  {
    if objs == [] then 0
    else
      var last := objs[|objs| - 1];
      MatchingNodes(objs[..|objs| - 1], filters) +
      (if last.NodeObj? && Matches(filters, last.node.tags) then 1 else 0)
  }

  /** The number of closed ways. */
  function ClosedWays(objs: seq<OsmObj>): nat
    decreases |objs|
  {
    if objs == [] then 0
    else
      var last := objs[|objs| - 1];
      ClosedWays(objs[..|objs| - 1]) + (if last.WayObj? && IsClosed(last.way) then 1 else 0)
  }

  /** Feature `f` comes from entity `i`: a node that passes the filter, or a
      closed way resolved against the positions recorded before it. */
  predicate OriginOf(objs: seq<OsmObj>, filters: TagFilters, i: int, f: Feature)
  {
    && 0 <= i < |objs|
    && match objs[i]
       case NodeObj(node) => Matches(filters, node.tags) && NodeToFeature(node, filters) == Some(f)
       case WayObj(way) => IsClosed(way) && WayToFeature(way, Run(objs[..i], filters).depNodes) == Success(Some(f))
       case RelationObj(_, _) => false
  }

  /** No two node entities share an identifier (the reader returns them
      keyed by identifier). */
  predicate UniqueNodeIds(objs: seq<OsmObj>)
  {
    forall i, j :: 0 <= i < j < |objs| && objs[i].NodeObj? && objs[j].NodeObj? ==>
      objs[i].node.id != objs[j].node.id
  }

  /** The reader excludes relations. */
  predicate NoRelations(objs: seq<OsmObj>)
  {
    forall i :: 0 <= i < |objs| ==> !objs[i].RelationObj?
  }

  /** The reader returns every node before every way. */
  predicate NodesBeforeWays(objs: seq<OsmObj>)
  {
    forall i, j :: 0 <= i < j < |objs| && objs[i].WayObj? ==> !objs[j].NodeObj?
  }

  /** Every node a closed way refers to was returned as a dependency, that
      is as a node that fails the filter. */
  predicate DependenciesSupplied(objs: seq<OsmObj>, filters: TagFilters)
  {
    forall i, k :: 0 <= i < |objs| && objs[i].WayObj? && IsClosed(objs[i].way) && 0 <= k < |objs[i].way.nodes| ==>
      Supplied(objs, filters, objs[i].way.nodes[k])
  }

  /** Some node failing the filter has identifier `id`. */
  predicate Supplied(objs: seq<OsmObj>, filters: TagFilters, id: int)
  {
    exists j :: 0 <= j < |objs| && FailsFilterAt(objs, filters, j) && objs[j].node.id == id
  }

  /** Entity `i` is the last node failing the filter with its identifier. */
  predicate LastRecordedAt(objs: seq<OsmObj>, filters: TagFilters, i: int)
  {
    && FailsFilterAt(objs, filters, i)
    && forall j :: i < j < |objs| && FailsFilterAt(objs, filters, j) ==> objs[j].node.id != objs[i].node.id
  }

  /** A run that did not abort took a successful step on its last entity
      after a prefix that did not abort. */
  lemma LastStep(objs: seq<OsmObj>, filters: TagFilters)
    requires objs != [] && Run(objs, filters).fatal.None?
    ensures var before := Run(objs[..|objs| - 1], filters);
      var step := Step(objs[|objs| - 1], filters, before.depNodes);
      && before.fatal.None?
      && step.Success?
      && Run(objs, filters).written == before.written + Emitted(step.value.1)
      && Run(objs, filters).depNodes == step.value.0
  {
  }

  /** A successful step writes one feature for a node that passes the
      filter or a closed way and none otherwise, and records exactly the
      nodes that fail the filter. */
  lemma StepEffect(obj: OsmObj, filters: TagFilters, deps: NodeToCoords)
    requires Step(obj, filters, deps).Success?
    ensures var (deps', feature) := Step(obj, filters, deps).value;
      && |Emitted(feature)| ==
           (if (obj.NodeObj? && Matches(filters, obj.node.tags)) || (obj.WayObj? && IsClosed(obj.way)) then 1 else 0)
      && deps' == (if obj.NodeObj? && !Matches(filters, obj.node.tags)
                   then deps[obj.node.id := NodeToPoint(obj.node)] else deps)
  {
    if obj.WayObj? {
      assert WayToFeature(obj.way, deps).Success?;
    }
  }

  /** A step on a node never aborts: it writes the node's feature when the
      filter passes and records the node's position otherwise. */
  lemma NodeStep(obj: OsmObj, filters: TagFilters, deps: NodeToCoords)
    requires obj.NodeObj?
    ensures var step := Step(obj, filters, deps);
      && step.Success?
      && (Matches(filters, obj.node.tags) ==>
            && NodeToFeature(obj.node, filters).Some?
            && step.value == (deps, NodeToFeature(obj.node, filters))
            && Emitted(step.value.1) == [NodeToFeature(obj.node, filters).value])
      && (!Matches(filters, obj.node.tags) ==> step.value == (deps[obj.node.id := NodeToPoint(obj.node)], None))
  {
  }

  /** A successful step on a closed way writes the feature the way resolves
      to against the positions recorded so far. */
  lemma WayStep(obj: OsmObj, filters: TagFilters, deps: NodeToCoords)
    requires obj.WayObj? && IsClosed(obj.way) && Step(obj, filters, deps).Success?
    ensures WayToFeature(obj.way, deps).Success? && WayToFeature(obj.way, deps).value.Some?
    ensures Emitted(Step(obj, filters, deps).value.1) == [WayToFeature(obj.way, deps).value.value]
  {
    WayToFeatureContract(obj.way, deps);
  }

  /** When no abort happens, one feature is written per node that passes the
      filter and per closed way, so `count` is their number. */
  lemma {:induction false} WrittenCount(objs: seq<OsmObj>, filters: TagFilters)
    requires Run(objs, filters).fatal.None?
    ensures |Run(objs, filters).written| == MatchingNodes(objs, filters) + ClosedWays(objs)
    decreases |objs|
  {
    if objs != [] {
      var prefix := objs[..|objs| - 1];
      var before := Run(prefix, filters);
      LastStep(objs, filters);
      WrittenCount(prefix, filters);
      var last := objs[|objs| - 1];
      StepEffect(last, filters, before.depNodes);
      var feature := Step(last, filters, before.depNodes).value.1;
      assert |Run(objs, filters).written| == |before.written| + |Emitted(feature)|;
      assert MatchingNodes(objs, filters) == MatchingNodes(prefix, filters) +
        (if last.NodeObj? && Matches(filters, last.node.tags) then 1 else 0);
      assert ClosedWays(objs) == ClosedWays(prefix) + (if last.WayObj? && IsClosed(last.way) then 1 else 0);
    }
  }

  /** A feature's origin in a prefix is its origin in the whole input. */
  lemma OriginExtends(objs: seq<OsmObj>, n: int, filters: TagFilters, i: int, f: Feature)
    requires 0 <= n <= |objs| && OriginOf(objs[..n], filters, i, f)
    ensures OriginOf(objs, filters, i, f)
  {
    assert objs[..n][i] == objs[i];
    assert objs[..n][..i] == objs[..i];
  }

  /** Every written feature comes from a node that passes the filter (and is
      exactly that node's feature) or from a closed way. */
  lemma {:induction false} WrittenOrigin(objs: seq<OsmObj>, filters: TagFilters)
    ensures forall f :: f in Run(objs, filters).written ==> exists i :: OriginOf(objs, filters, i, f)
    decreases |objs|
  {
    if objs != [] {
      var n := |objs| - 1;
      var prefix := objs[..n];
      WrittenOrigin(prefix, filters);
      var before := Run(prefix, filters);
      ghost var extra: seq<Feature> := [];
      if before.fatal.None? && Step(objs[n], filters, before.depNodes).Success? {
        extra := Emitted(Step(objs[n], filters, before.depNodes).value.1);
        assert forall f :: f in extra ==> OriginOf(objs, filters, n, f);
      }
      assert Run(objs, filters).written == before.written + extra;
      forall f | f in Run(objs, filters).written
        ensures exists i :: OriginOf(objs, filters, i, f)
      {
        if f in before.written {
          var i :| OriginOf(prefix, filters, i, f);
          OriginExtends(objs, n, filters, i, f);
        } else {
          assert f in extra;
        }
      }
    }
  }

  /** Without an abort, every node that passes the filter is written as its
      feature. */
  lemma {:induction false} MatchingNodesWritten(objs: seq<OsmObj>, filters: TagFilters)
    requires Run(objs, filters).fatal.None?
    ensures forall i :: PassesFilterAt(objs, filters, i) ==>
      NodeToFeature(objs[i].node, filters).Some? &&
      NodeToFeature(objs[i].node, filters).value in Run(objs, filters).written
    decreases |objs|
  {
    if objs != [] {
      var n := |objs| - 1;
      var prefix := objs[..n];
      LastStep(objs, filters);
      MatchingNodesWritten(prefix, filters);
      var before := Run(prefix, filters);
      var written := Run(objs, filters).written;
      var emitted := Emitted(Step(objs[n], filters, before.depNodes).value.1);
      assert written == before.written + emitted;
      forall i | PassesFilterAt(objs, filters, i)
        ensures NodeToFeature(objs[i].node, filters).Some?
        ensures NodeToFeature(objs[i].node, filters).value in written
      {
        if i < n {
          assert prefix[i] == objs[i];
          assert PassesFilterAt(prefix, filters, i);
          assert NodeToFeature(objs[i].node, filters).value in before.written;
        } else {
          assert i == n;
          NodeStep(objs[n], filters, before.depNodes);
        }
      }
    }
  }

  /** Without an abort, every closed way is written as the feature it
      resolves to against the positions recorded before it. */
  lemma {:induction false} ClosedWaysWritten(objs: seq<OsmObj>, filters: TagFilters)
    requires Run(objs, filters).fatal.None?
    ensures forall i :: 0 <= i < |objs| && objs[i].WayObj? && IsClosed(objs[i].way) ==>
      var r := WayToFeature(objs[i].way, Run(objs[..i], filters).depNodes);
      r.Success? && r.value.Some? && r.value.value in Run(objs, filters).written
    decreases |objs|
  {
    if objs != [] {
      var n := |objs| - 1;
      var prefix := objs[..n];
      LastStep(objs, filters);
      ClosedWaysWritten(prefix, filters);
      var before := Run(prefix, filters);
      var written := Run(objs, filters).written;
      var emitted := Emitted(Step(objs[n], filters, before.depNodes).value.1);
      assert written == before.written + emitted;
      forall i | 0 <= i < |objs| && objs[i].WayObj? && IsClosed(objs[i].way)
        ensures WayToFeature(objs[i].way, Run(objs[..i], filters).depNodes).Success?
        ensures WayToFeature(objs[i].way, Run(objs[..i], filters).depNodes).value.Some?
        ensures WayToFeature(objs[i].way, Run(objs[..i], filters).depNodes).value.value in written
      {
        if i < n {
          assert prefix[i] == objs[i];
          assert prefix[..i] == objs[..i];
        } else {
          assert i == n;
          WayStep(objs[n], filters, before.depNodes);
        }
      }
    }
  }

  /** Without an abort, every node that fails the filter is recorded in the
      dependency map. */
  lemma {:induction false} FailingNodesRecorded(objs: seq<OsmObj>, filters: TagFilters)
    requires Run(objs, filters).fatal.None?
    ensures forall i :: FailsFilterAt(objs, filters, i) ==> objs[i].node.id in Run(objs, filters).depNodes
    decreases |objs|
  {
    if objs != [] {
      var n := |objs| - 1;
      var prefix := objs[..n];
      LastStep(objs, filters);
      StepEffect(objs[n], filters, Run(prefix, filters).depNodes);
      FailingNodesRecorded(prefix, filters);
      forall i | FailsFilterAt(objs, filters, i)
        ensures objs[i].node.id in Run(objs, filters).depNodes
      {
        if i < n {
          assert prefix[i] == objs[i];
          assert FailsFilterAt(prefix, filters, i);
        } else {
          assert i == n;
          NodeStep(objs[n], filters, Run(prefix, filters).depNodes);
        }
      }
    }
  }

  /** Only nodes that fail the filter are recorded in the dependency map. */
  lemma {:induction false} OnlyFailingNodesRecorded(objs: seq<OsmObj>, filters: TagFilters)
    requires Run(objs, filters).fatal.None?
    ensures forall id :: id in Run(objs, filters).depNodes ==>
      exists i :: FailsFilterAt(objs, filters, i) && objs[i].node.id == id
    decreases |objs|
  {
    if objs != [] {
      var n := |objs| - 1;
      var prefix := objs[..n];
      LastStep(objs, filters);
      StepEffect(objs[n], filters, Run(prefix, filters).depNodes);
      OnlyFailingNodesRecorded(prefix, filters);
      forall id | id in Run(objs, filters).depNodes
        ensures exists i :: FailsFilterAt(objs, filters, i) && objs[i].node.id == id
      {
        if id in Run(prefix, filters).depNodes {
          var i :| FailsFilterAt(prefix, filters, i) && prefix[i].node.id == id;
          assert prefix[i] == objs[i];
          assert FailsFilterAt(objs, filters, i);
        } else {
          assert FailsFilterAt(objs, filters, n);
        }
      }
    }
  }

  /** Without an abort, a recorded identifier holds the position of the last
      node that failed the filter with that identifier. */
  lemma {:induction false} RecordedPositions(objs: seq<OsmObj>, filters: TagFilters)
    requires Run(objs, filters).fatal.None?
    ensures forall i :: LastRecordedAt(objs, filters, i) ==>
      objs[i].node.id in Run(objs, filters).depNodes &&
      Run(objs, filters).depNodes[objs[i].node.id] == NodeToPoint(objs[i].node)
    decreases |objs|
  {
    if objs != [] {
      var n := |objs| - 1;
      var prefix := objs[..n];
      LastStep(objs, filters);
      StepEffect(objs[n], filters, Run(prefix, filters).depNodes);
      RecordedPositions(prefix, filters);
      forall i | LastRecordedAt(objs, filters, i)
        ensures objs[i].node.id in Run(objs, filters).depNodes
        ensures Run(objs, filters).depNodes[objs[i].node.id] == NodeToPoint(objs[i].node)
      {
        if i < n {
          assert prefix[i] == objs[i];
          assert LastRecordedAt(prefix, filters, i) by {
            forall j | i < j < |prefix| && FailsFilterAt(prefix, filters, j)
              ensures prefix[j].node.id != prefix[i].node.id
            {
              assert prefix[j] == objs[j];
              assert FailsFilterAt(objs, filters, j);
            }
          }
          assert FailsFilterAt(objs, filters, n) ==> objs[n].node.id != objs[i].node.id;
        } else {
          assert i == n;
          NodeStep(objs[n], filters, Run(prefix, filters).depNodes);
        }
      }
    }
  }

  /** For readers that return each node once: a node that passes the filter
      is written and not recorded, and a node that fails it is recorded with
      its position and never written. */
  lemma NodeWrittenXorRecorded(objs: seq<OsmObj>, filters: TagFilters, i: int)
    requires UniqueNodeIds(objs)
    requires Run(objs, filters).fatal.None?
    requires 0 <= i < |objs| && objs[i].NodeObj?
    ensures var r := Run(objs, filters); var node := objs[i].node;
      Matches(filters, node.tags) ==>
        NodeToFeature(node, filters).Some? && NodeToFeature(node, filters).value in r.written && node.id !in r.depNodes
    ensures var r := Run(objs, filters); var node := objs[i].node;
      !Matches(filters, node.tags) ==>
        node.id in r.depNodes && r.depNodes[node.id] == NodeToPoint(node) &&
        forall f :: f in r.written ==> f.id != NodeFeatureId(node.id)
  {
    var r := Run(objs, filters);
    var node := objs[i].node;
    if Matches(filters, node.tags) {
      MatchingNodesWritten(objs, filters);
      OnlyFailingNodesRecorded(objs, filters);
      assert PassesFilterAt(objs, filters, i);
    } else {
      assert LastRecordedAt(objs, filters, i);
      RecordedPositions(objs, filters);
      WrittenOrigin(objs, filters);
      forall f | f in r.written
        ensures f.id != NodeFeatureId(node.id)
      {
        var k :| 0 <= k < |r.written| && r.written[k] == f;
        var j :| OriginOf(objs, filters, j, f);
        match objs[j] {
          case NodeObj(other) =>
            assert j != i;
            FeatureIdsDistinct(other.id, node.id);
          case WayObj(way) =>
            WayToFeatureContract(way, Run(objs[..j], filters).depNodes);
            FeatureIdsDistinct(node.id, way.id);
        }
      }
    }
  }

  /** A relation anywhere in the input aborts the run. */
  lemma {:induction false} RelationAborts(objs: seq<OsmObj>, filters: TagFilters, i: int)
    requires 0 <= i < |objs| && objs[i].RelationObj?
    ensures Run(objs, filters).fatal.Some?
    decreases |objs|
  {
    var prefix := objs[..|objs| - 1];
    if i < |objs| - 1 {
      assert prefix[i] == objs[i];
      RelationAborts(prefix, filters, i);
    }
  }

  /** The reader's contract holds of every prefix of its result. */
  lemma ContractOnPrefix(objs: seq<OsmObj>, filters: TagFilters, n: int)
    requires 0 <= n <= |objs|
    requires NoRelations(objs) && NodesBeforeWays(objs) && DependenciesSupplied(objs, filters)
    ensures NoRelations(objs[..n]) && NodesBeforeWays(objs[..n]) && DependenciesSupplied(objs[..n], filters)
  {
    var prefix := objs[..n];
    assert forall i :: 0 <= i < n ==> prefix[i] == objs[i];
    forall i, k | 0 <= i < |prefix| && prefix[i].WayObj? && IsClosed(prefix[i].way) && 0 <= k < |prefix[i].way.nodes|
      ensures Supplied(prefix, filters, prefix[i].way.nodes[k])
    {
      var j := SupplyingNode(objs, filters, i, k);
      assert prefix[j] == objs[j];
      assert FailsFilterAt(prefix, filters, j);
    }
    assert NoRelations(prefix);
    assert NodesBeforeWays(prefix);
  }

  /** The node that supplies position `k` of the closed way at `i`; it comes
      before the way. */
  lemma SupplyingNode(objs: seq<OsmObj>, filters: TagFilters, i: int, k: int) returns (j: int)
    requires NodesBeforeWays(objs) && DependenciesSupplied(objs, filters)
    requires 0 <= i < |objs| && objs[i].WayObj? && IsClosed(objs[i].way) && 0 <= k < |objs[i].way.nodes|
    ensures 0 <= j < i && FailsFilterAt(objs, filters, j) && objs[j].node.id == objs[i].way.nodes[k]
  {
    j :| 0 <= j < |objs| && FailsFilterAt(objs, filters, j) && objs[j].node.id == objs[i].way.nodes[k];
  }

  /** Under the reader's contract (no relations, nodes before ways, every
      node of a closed way supplied as a node that fails the filter) the run
      does not abort. */
  lemma {:induction false} NoAbortUnderReaderContract(objs: seq<OsmObj>, filters: TagFilters)
    requires NoRelations(objs)
    requires NodesBeforeWays(objs)
    requires DependenciesSupplied(objs, filters)
    ensures Run(objs, filters).fatal.None?
    decreases |objs|
  {
    if objs != [] {
      var n := |objs| - 1;
      var prefix := objs[..n];
      ContractOnPrefix(objs, filters, n);
      NoAbortUnderReaderContract(prefix, filters);
      var deps := Run(prefix, filters).depNodes;
      assert !objs[n].RelationObj?;
      if objs[n].WayObj? && IsClosed(objs[n].way) {
        var way := objs[n].way;
        FailingNodesRecorded(prefix, filters);
        forall k | 0 <= k < |way.nodes|
          ensures way.nodes[k] in deps
        {
          var j := SupplyingNode(objs, filters, n, k);
          assert prefix[j] == objs[j];
          assert FailsFilterAt(prefix, filters, j);
        }
        assert WayToFeature(way, deps).Success?;
      }
      assert Step(objs[n], filters, deps).Success?;
    }
  }

  /** With unique node identifiers, a node passing the filter is never
      recorded, wherever it sits relative to the prefix run so far. */
  lemma PassingNodeNotRecorded(objs: seq<OsmObj>, filters: TagFilters, n: int, j: int)
    requires UniqueNodeIds(objs) && PassesFilterAt(objs, filters, j)
    requires 0 <= n <= |objs| && Run(objs[..n], filters).fatal.None?
    ensures objs[j].node.id !in Run(objs[..n], filters).depNodes
  {
    var prefix := objs[..n];
    OnlyFailingNodesRecorded(prefix, filters);
    forall m | FailsFilterAt(prefix, filters, m)
      ensures prefix[m].node.id != objs[j].node.id
    {
      assert prefix[m] == objs[m];
    }
  }

  /** A closed way that refers to a node passing the filter aborts the run,
      at the way at the latest, wherever the two sit in the input: such a
      node is written, never recorded, so the way cannot resolve it. */
  lemma MatchingDependencyAborts(objs: seq<OsmObj>, filters: TagFilters, i: int, j: int, k: int)
    requires UniqueNodeIds(objs) && PassesFilterAt(objs, filters, j)
    requires 0 <= i < |objs| && objs[i].WayObj? && IsClosed(objs[i].way)
    requires 0 <= k < |objs[i].way.nodes| && objs[i].way.nodes[k] == objs[j].node.id
    ensures Run(objs[..i + 1], filters).fatal.Some?
    ensures Run(objs, filters).fatal.Some?
  {
    var upTo := objs[..i + 1];
    assert upTo[..i] == objs[..i];
    var before := Run(objs[..i], filters);
    if before.fatal.None? {
      PassingNodeNotRecorded(objs, filters, i, j);
      WayToFeatureContract(objs[i].way, before.depNodes);
      assert upTo[i] == objs[i];
      assert Step(upTo[i], filters, before.depNodes).Failure?;
    } else {
      AbortIsFinal(upTo, i, filters);
    }
    AbortIsFinal(objs, i + 1, filters);
  }

  /** The smallest case: a node passing the filter followed by a closed way
      that starts at it. The run aborts on that node, and the node's feature
      stays written. */
  lemma MatchingDependencyAbortsExample(node: Node, way: Way, filters: TagFilters)
    requires Matches(filters, node.tags)
    requires IsClosed(way) && |way.nodes| > 0 && way.nodes[0] == node.id
    ensures var r := Run([NodeObj(node), WayObj(way)], filters);
      && r.fatal == Some(MissingWayNode(way.id, node.id))
      && r.written == [NodeToFeature(node, filters).value]
  {
    var objs := [NodeObj(node), WayObj(way)];
    var feature := NodeToFeature(node, filters).value;
    assert objs[..1] == [NodeObj(node)];
    assert [NodeObj(node)][..0] == [];
    assert Run([NodeObj(node)], filters) == RunResult([feature], map[], None);
    assert ResolveRing(way.nodes, map[]) == Failure(node.id);
    assert Step(WayObj(way), filters, map[]) == Failure(MissingWayNode(way.id, node.id));
  }

  /** The concatenation of every file's features, each file run on its own. */
  function AllWritten(files: seq<seq<OsmObj>>, filters: TagFilters): seq<Feature>
    decreases |files|
  {
    if files == [] then []
    else AllWritten(files[..|files| - 1], filters) + Run(files[|files| - 1], filters).written
  }

  /** Files do not affect one another: when no file aborts, the output is
      each file's own features in order and the count reported for file `k`
      is the number of features written for `files[k]` alone. */
  lemma {:induction false} FilesIndependent(files: seq<seq<OsmObj>>, filters: TagFilters)
    requires RunFiles(files, filters).fatal.None?
    ensures RunFiles(files, filters).output == AllWritten(files, filters)
    ensures |RunFiles(files, filters).counts| == |files|
    ensures forall k :: 0 <= k < |files| ==>
      RunFiles(files, filters).counts[k] == |Run(files[k], filters).written| &&
      Run(files[k], filters).fatal.None?
    decreases |files|
  {
    if files != [] {
      var n := |files| - 1;
      var prefix := files[..n];
      var before := RunFiles(prefix, filters);
      var last := Run(files[n], filters);
      assert before.fatal.None? && last.fatal.None?;
      assert RunFiles(files, filters) == BatchResult(before.output + last.written, before.counts + [|last.written|], None);
      assert AllWritten(files, filters) == AllWritten(prefix, filters) + last.written;
      FilesIndependent(prefix, filters);
      forall k | 0 <= k < |files|
        ensures RunFiles(files, filters).counts[k] == |Run(files[k], filters).written|
        ensures Run(files[k], filters).fatal.None?
      {
        var counts := RunFiles(files, filters).counts;
        if k < n {
          assert prefix[k] == files[k];
          assert counts[k] == before.counts[k];
        } else {
          assert k == n;
          assert counts[k] == |last.written|;
        }
      }
    }
  }
}
