/** Conversion of OSM nodes and ways into GeoJSON Feature values (RFC 7946):
    a Point for a node (section 3.1.2), a single-ring Polygon for a closed way
    (section 3.1.6), the tags copied verbatim into the properties. */
module Features {
  import opened Wrappers
  import opened Text
  import opened TagFilter

  /** A GeoJSON position `[longitude, latitude]` (section 3.1.1 of RFC 7946).
      Each coordinate is the node's fixed-point value in units of 1e-7
      degree; the scaling to a floating-point number is not modelled. */
  type Position = seq<int>

  /** An OSM node: identifier, tags and fixed-point coordinates. */
  datatype Node = Node(id: int, tags: Tags, decimicroLat: int, decimicroLon: int)

  /** An OSM way: identifier, tags and the ordered identifiers of its nodes. */
  datatype Way = Way(id: int, tags: Tags, nodes: seq<int>)

  /** A JSON value as produced from a tag value: always a string. */
  datatype JsonValue = JsonString(text: string)

  type Properties = map<string, JsonValue>

  datatype Geometry =
    | Point(coordinates: Position)
    | Polygon(rings: seq<seq<Position>>)

  /** A GeoJSON Feature (section 3.2 of RFC 7946); its bounding box and
      foreign members are always absent and are left out. */
  datatype Feature = Feature(id: string, geometry: Geometry, properties: Option<Properties>)

  /** The positions of the nodes a way may refer to, by node identifier. */
  type NodeToCoords = map<int, Position>

  /** The reasons a run aborts. */
  datatype Fatal =
    | MissingWayNode(wayId: int, nodeId: int)  // "Could not find node in way"
    | RelationFound(relationId: int)           // "Found relation when excluded"

  /** `node_to_point`: longitude first, then latitude. */
  function NodeToPoint(node: Node): (p: Position)
    ensures |p| == 2 && p[0] == node.decimicroLon && p[1] == node.decimicroLat
  {
    [node.decimicroLon, node.decimicroLat]
  }

  /** The properties object for a tag map: every tag, its value as a JSON
      string. */
  function PropertiesOf(tags: Tags): Properties
  {
    map k | k in tags :: JsonString(tags[k])
  }

  /** Reads the tags back from a properties object. */
  function TagsOf(props: Properties): Tags
  {
    map k | k in props :: props[k].text
  }

  /** The properties carry the tags unchanged: reading them back gives the
      same tag map. */
  lemma PropertiesRoundTrip(tags: Tags)
    ensures TagsOf(PropertiesOf(tags)) == tags
  {
    var back := TagsOf(PropertiesOf(tags));
    assert back.Keys == tags.Keys;
    assert forall k | k in tags :: back[k] == tags[k];
  }

  /** `tags_to_props`: builds the properties object one tag at a time. It
      always returns a value, with exactly the tag keys, each mapped to its
      unchanged tag value. */
  method TagsToProps(tags: Tags) returns (props: Option<Properties>)
    ensures props.Some?
    ensures props.value.Keys == tags.Keys
    ensures forall k | k in tags :: props.value[k] == JsonString(tags[k])
    ensures props == Some(PropertiesOf(tags))
  {
    var properties: Properties := map[];
    var pending := tags.Keys;
    while pending != {}
      invariant pending <= tags.Keys
      invariant properties.Keys == tags.Keys - pending
      invariant forall k | k in properties :: properties[k] == JsonString(tags[k])
      decreases pending
    {
      var tag :| tag in pending;
      properties := properties[tag := JsonString(tags[tag])];
      pending := pending - {tag};
    }
    assert properties == PropertiesOf(tags);
    props := Some(properties);
  }

  /** `format!("node/{}", id)`. */
  function NodeFeatureId(id: int): string
  {
    "node/" + IntToDecimal(id)
  }

  /** `format!("way/{}", id)`. */
  function WayFeatureId(id: int): string
  {
    "way/" + IntToDecimal(id)
  }

  /** Feature identifiers tell entities apart: distinct nodes get distinct
      identifiers, distinct ways too, and no node shares one with a way. */
  lemma FeatureIdsDistinct(a: int, b: int)
    ensures NodeFeatureId(a) == NodeFeatureId(b) ==> a == b
    ensures WayFeatureId(a) == WayFeatureId(b) ==> a == b
    ensures NodeFeatureId(a) != WayFeatureId(b)
  {
    if NodeFeatureId(a) == NodeFeatureId(b) {
      assert NodeFeatureId(a)[5..] == IntToDecimal(a);
      assert NodeFeatureId(b)[5..] == IntToDecimal(b);
      IntToDecimalInjective(a, b);
    }
    if WayFeatureId(a) == WayFeatureId(b) {
      assert WayFeatureId(a)[4..] == IntToDecimal(a);
      assert WayFeatureId(b)[4..] == IntToDecimal(b);
      IntToDecimalInjective(a, b);
    }
    assert NodeFeatureId(a)[0] != WayFeatureId(b)[0];
  }

  /** `node_to_feature`. */
  function NodeToFeature(node: Node, filters: TagFilters): Option<Feature>
  {
    if !Matches(filters, node.tags) then None
    else Some(Feature(NodeFeatureId(node.id), Point(NodeToPoint(node)), Some(PropertiesOf(node.tags))))
  }

  /** No feature when the node's tags fail the filter; otherwise a Point at
      `[lon, lat]`, identified as `node/<id>`, whose properties carry the
      node's tags. */
  lemma NodeToFeatureContract(node: Node, filters: TagFilters)
    ensures var r := NodeToFeature(node, filters);
      && (r.None? <==> !Matches(filters, node.tags))
      && (r.Some? ==>
            && r.value.geometry.Point?
            && r.value.geometry.coordinates == [node.decimicroLon, node.decimicroLat]
            && r.value.id == NodeFeatureId(node.id)
            && r.value.properties.Some?
            && TagsOf(r.value.properties.value) == node.tags)
  {
    PropertiesRoundTrip(node.tags);
  }

  /** A way is closed when its first and last node identifiers are equal.
      Like `Way::is_closed`, which compares `first()` with `last()`, a way
      with no nodes counts as closed. */
  predicate IsClosed(way: Way)
  {
    |way.nodes| == 0 || way.nodes[0] == way.nodes[|way.nodes| - 1]
  }

  /** Looks every identifier up, in order, stopping at the first one missing
      from `deps`, which is returned as the error. */
  function ResolveRing(ids: seq<int>, deps: NodeToCoords): (r: Result<seq<Position>, int>)
    ensures r.Success? <==> forall i :: 0 <= i < |ids| ==> ids[i] in deps
    ensures r.Success? ==>
      |r.value| == |ids| && forall i :: 0 <= i < |ids| ==> r.value[i] == deps[ids[i]]
    ensures r.Failure? ==>
      exists i :: 0 <= i < |ids| && ids[i] == r.error && r.error !in deps &&
        forall j :: 0 <= j < i ==> ids[j] in deps
    decreases |ids|
  {
    if ids == [] then Success([])
    else if ids[0] !in deps then Failure(ids[0])
    else
      match ResolveRing(ids[1..], deps)
      case Failure(missing) =>
        assert forall i :: 1 <= i < |ids| ==> ids[1..][i - 1] == ids[i];
        Failure(missing)
      case Success(rest) =>
        assert forall i :: 1 <= i < |ids| ==> ids[1..][i - 1] == ids[i];
        Success([deps[ids[0]]] + rest)
  }

  /** `way_to_feature`. */
  function WayToFeature(way: Way, deps: NodeToCoords): Result<Option<Feature>, Fatal>
  {
    if !IsClosed(way) then Success(None)
    else
      match ResolveRing(way.nodes, deps)
      case Failure(missing) => Failure(MissingWayNode(way.id, missing))
      case Success(ring) => Success(Some(Feature(WayFeatureId(way.id), Polygon([ring]), Some(PropertiesOf(way.tags)))))
  }

  /** No feature for an open way, whatever its tags. A closed way becomes a
      Polygon with one ring holding, index for index, the position recorded
      for each of its node identifiers (the closing duplicate included),
      identified as `way/<id>`; the run aborts when one of those identifiers
      has no recorded position. */
  lemma WayToFeatureContract(way: Way, deps: NodeToCoords)
    ensures var r := WayToFeature(way, deps);
      && (r == Success(None) <==> !IsClosed(way))
      && (r.Failure? <==> IsClosed(way) && exists i :: 0 <= i < |way.nodes| && way.nodes[i] !in deps)
      && (r.Failure? ==>
            r.error.MissingWayNode? && r.error.wayId == way.id &&
            r.error.nodeId in way.nodes && r.error.nodeId !in deps)
      && (r.Success? && r.value.Some? ==>
            var f := r.value.value;
            && f.id == WayFeatureId(way.id)
            && f.geometry.Polygon?
            && |f.geometry.rings| == 1
            && |f.geometry.rings[0]| == |way.nodes|
            && (forall i :: 0 <= i < |way.nodes| ==> f.geometry.rings[0][i] == deps[way.nodes[i]])
            && f.properties.Some?
            && TagsOf(f.properties.value) == way.tags)
  {
    PropertiesRoundTrip(way.tags);
  }
}
