/** Worked scenarios of the whole conversion. */
module Scenarios {
  import opened Wrappers
  import opened Text
  import opened TagFilter
  import opened Features
  import opened Conversion

  /** `name=a|b` splits into its name and its two alternatives. */
  lemma TwoValueFilterEntry(name: string, a: string, b: string)
    requires '=' !in name && '=' !in a && '=' !in b && '|' !in a && '|' !in b
    ensures FilterName(name + "=" + a + "|" + b) == name
    ensures FilterValues(name + "=" + a + "|" + b) == {a, b}
  {
    var spec := name + "=" + a + "|" + b;
    var alternatives := a + "|" + b;
    assert '=' !in alternatives by {
      assert forall i :: 0 <= i < |alternatives| ==> alternatives[i] in a || alternatives[i] == '|' || alternatives[i] in b;
    }
    assert Join([name, alternatives], '=') == spec;
    SplitJoin([name, alternatives], '=');
    assert Join([a, b], '|') == alternatives;
    SplitJoin([a, b], '|');
    var segments := Split(spec, '=')[1..];
    assert segments == [alternatives] && segments[1..] == [];
    assert Alternatives(segments) == Elements(Split(alternatives, '|')) + Alternatives([]);
    assert Elements([a, b]) == {a, b};
  }

  /** A single filter `name=a|b` accepts exactly the entities whose tag
      `name` is `a` or `b`; a missing tag or any other value fails. */
  lemma TwoValueFilterMatches(name: string, a: string, b: string, tags: Tags)
    requires '=' !in name && '=' !in a && '=' !in b && '|' !in a && '|' !in b
    ensures Matches(ParseTagFilters([name + "=" + a + "|" + b]), tags) <==>
      name in tags && (tags[name] == a || tags[name] == b)
  {
    var spec := name + "=" + a + "|" + b;
    TwoValueFilterEntry(name, a, b);
    assert [spec][..0] == [];
    assert ParseTagFilters([spec]) == map[name := {a, b}];
    MatchesIff(map[name := {a, b}], tags);
  }

  /** Three nodes that fail the filter and a closed way over them: the nodes
      are recorded, not written, and the way becomes one Polygon whose ring
      holds their positions in the way's order, the first repeated at the
      end. */
  lemma ClosedRingScenario(a: Node, b: Node, c: Node, way: Way, filters: TagFilters)
    requires !Matches(filters, a.tags) && !Matches(filters, b.tags) && !Matches(filters, c.tags)
    requires a.id != b.id && a.id != c.id && b.id != c.id
    requires way.nodes == [a.id, b.id, c.id, a.id]
    ensures Run([NodeObj(a), NodeObj(b), NodeObj(c), WayObj(way)], filters).fatal == None
    ensures Run([NodeObj(a), NodeObj(b), NodeObj(c), WayObj(way)], filters).written ==
      [Feature(WayFeatureId(way.id),
               Polygon([[NodeToPoint(a), NodeToPoint(b), NodeToPoint(c), NodeToPoint(a)]]),
               Some(PropertiesOf(way.tags)))]
  {
    var objs := [NodeObj(a), NodeObj(b), NodeObj(c), WayObj(way)];
    var d1 := map[a.id := NodeToPoint(a)];
    var d2 := d1[b.id := NodeToPoint(b)];
    var d3 := d2[c.id := NodeToPoint(c)];
    assert objs[..1][..0] == [];
    assert Run(objs[..1], filters) == RunResult([], d1, None);
    assert objs[..2][..1] == objs[..1];
    assert Run(objs[..2], filters) == RunResult([], d2, None);
    assert objs[..3][..2] == objs[..2];
    assert Run(objs[..3], filters) == RunResult([], d3, None);
    var ring := [NodeToPoint(a), NodeToPoint(b), NodeToPoint(c), NodeToPoint(a)];
    assert forall i :: 0 <= i < 4 ==> way.nodes[i] in d3 && d3[way.nodes[i]] == ring[i];
    assert ResolveRing(way.nodes, d3).Success?;
    assert ResolveRing(way.nodes, d3).value == ring;
  }
}
