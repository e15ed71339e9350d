/** The tag-filter language: `name=v1|v2|...` strings parsed into a map from
    tag name to accepted values, and the AND-of-OR test of an entity's tags. */
module TagFilter {
  import opened Text

  /** An OSM entity's tags, key to value. */
  type Tags = map<string, string>

  /** Tag name to the set of values accepted for it. */
  type TagFilters = map<string, set<string>>

  /** The tag name of one filter string: the text before its first `=`. */
  function FilterName(spec: string): string
  {
    Split(spec, '=')[0]
  }

  /** The distinct elements of a sequence of strings. */
  function Elements(pieces: seq<string>): set<string>
  {
    set p | p in pieces
  }

  /** The `|`-separated alternatives of every segment, gathered into one set. */
  function Alternatives(segments: seq<string>): set<string>
    decreases |segments|
  {
    if segments == [] then {}
    else Elements(Split(segments[0], '|')) + Alternatives(segments[1..])
  }

  /** The accepted values of one filter string: every `=`-separated segment
      after the name, each split again on `|`. */
  function FilterValues(spec: string): set<string>
  {
    Alternatives(Split(spec, '=')[1..])
  }

  /** `i` is the last position in `specs` whose filter names `name`. */
  predicate IsLastFor(specs: seq<string>, i: int, name: string)
  {
    && 0 <= i < |specs|
    && FilterName(specs[i]) == name
    && forall j :: i < j < |specs| ==> FilterName(specs[j]) != name
  }

  /** `AppArgs::parse_tag_filters`: one entry per filter string, collected
      into a map in order, so for a repeated name the later string overwrites. */
  function ParseTagFilters(specs: seq<string>): (filters: TagFilters)
    ensures filters.Keys == set i | 0 <= i < |specs| :: FilterName(specs[i])
    decreases |specs|
  {
    if specs == [] then map[]
    else
      var before := ParseTagFilters(specs[..|specs| - 1]);
      assert forall i :: 0 <= i < |specs| - 1 ==> specs[..|specs| - 1][i] == specs[i];
      before[FilterName(specs[|specs| - 1]) := FilterValues(specs[|specs| - 1])]
  }

  /** When several filter strings share a name, the map holds the values of
      the last of them. */
  lemma {:induction false} ParseTagFiltersLastWins(specs: seq<string>, i: int, name: string)
    requires IsLastFor(specs, i, name)
    ensures name in ParseTagFilters(specs)
    ensures ParseTagFilters(specs)[name] == FilterValues(specs[i])
    decreases |specs|
  {
    if i < |specs| - 1 {
      var prefix := specs[..|specs| - 1];
      assert IsLastFor(prefix, i, name) by {
        assert forall j :: i < j < |prefix| ==> prefix[j] == specs[j];
      }
      ParseTagFiltersLastWins(prefix, i, name);
      assert FilterName(specs[|specs| - 1]) != name;
    }
  }

  /** `Tags::contains`: the entity has tag `key` with exactly `value`. */
  predicate Contains(tags: Tags, key: string, value: string)
  {
    key in tags && tags[key] == value
  }

  /** `matches_tag_filters`: `all` over the filter entries of `any` over each
      entry's accepted values. */
  predicate Matches(filters: TagFilters, tags: Tags)
  {
    forall name | name in filters :: exists value | value in filters[name] :: Contains(tags, name, value)
  }

  /** An entity matches exactly when it carries every filtered tag with one
      of that tag's accepted values. */
  lemma MatchesIff(filters: TagFilters, tags: Tags)
    ensures Matches(filters, tags) <==>
      forall name :: name in filters ==> name in tags && tags[name] in filters[name]
  {
    if forall name :: name in filters ==> name in tags && tags[name] in filters[name] {
      forall name | name in filters
        ensures exists value | value in filters[name] :: Contains(tags, name, value)
      {
        assert Contains(tags, name, tags[name]);
      }
    }
  }

  /** With no filter entries every tag map matches (an `all` over nothing). */
  lemma EmptyFiltersMatchAll(tags: Tags)
    ensures Matches(map[], tags)
  {
  }

  lemma {:induction false} AlternativesMembership(segments: seq<string>, x: string)
    ensures x in Alternatives(segments) <==>
      exists j :: 0 <= j < |segments| && x in Split(segments[j], '|')
    decreases |segments|
  {
    if segments != [] {
      AlternativesMembership(segments[1..], x);
      if x in Alternatives(segments[1..]) {
        var j :| 0 <= j < |segments[1..]| && x in Split(segments[1..][j], '|');
        assert segments[1..][j] == segments[j + 1];
      }
      if exists j :: 0 <= j < |segments| && x in Split(segments[j], '|') {
        var j :| 0 <= j < |segments| && x in Split(segments[j], '|');
        if j > 0 {
          assert segments[1..][j - 1] == segments[j];
        }
      }
    }
  }

  /** A value is accepted exactly when it is one of the `|`-pieces of some
      `=`-segment after the name. */
  lemma FilterValuesMembership(spec: string, x: string)
    ensures x in FilterValues(spec) <==>
      exists j :: 1 <= j < |Split(spec, '=')| && x in Split(Split(spec, '=')[j], '|')
  {
    var segments := Split(spec, '=')[1..];
    AlternativesMembership(segments, x);
    if exists j :: 0 <= j < |segments| && x in Split(segments[j], '|') {
      var j :| 0 <= j < |segments| && x in Split(segments[j], '|');
      assert Split(spec, '=')[j + 1] == segments[j];
    }
    if exists j :: 1 <= j < |Split(spec, '=')| && x in Split(Split(spec, '=')[j], '|') {
      var j :| 1 <= j < |Split(spec, '=')| && x in Split(Split(spec, '=')[j], '|');
      assert segments[j - 1] == Split(spec, '=')[j];
    }
  }

  /** The value set is empty exactly when the filter string has no `=`. */
  lemma ValuesEmptyIffNoEquals(spec: string)
    ensures FilterValues(spec) == {} <==> '=' !in spec
  {
    if '=' !in spec {
      SplitFree(spec, '=');
    } else {
      var parts := Split(spec, '=');
      FirstPiece(spec, '=');
      if |parts| == 1 {
        JoinSplit(spec, '=');
      }
      var first := Split(parts[1], '|')[0];
      FilterValuesMembership(spec, first);
    }
  }

  /** The name is the prefix of the filter string before its first `=`, or
      the whole string when it has none. */
  lemma FilterNameIsPrefix(spec: string)
    ensures FilterName(spec) <= spec
    ensures '=' !in FilterName(spec)
    ensures '=' !in spec ==> FilterName(spec) == spec
    ensures '=' in spec ==> spec[|FilterName(spec)|] == '='
  {
    FirstPiece(spec, '=');
  }

  /** A filter string without `=` accepts nothing, so once it is the last one
      for its name no tag map matches the parsed filters. */
  lemma NoEqualsNeverMatches(specs: seq<string>, i: int, tags: Tags)
    requires 0 <= i < |specs| && IsLastFor(specs, i, FilterName(specs[i])) && '=' !in specs[i]
    ensures !Matches(ParseTagFilters(specs), tags)
  {
    var name := FilterName(specs[i]);
    ValuesEmptyIffNoEquals(specs[i]);
    ParseTagFiltersLastWins(specs, i, name);
  }

  lemma ChainedSplit(name: string, x: string, y: string, z: string)
    requires '=' !in name && '=' !in x && '=' !in y && '=' !in z
    ensures Split(name + "=" + x + "=" + y + "|" + z, '=') == [name, x, y + "|" + z]
  {
    var last := y + "|" + z;
    assert '=' !in last by {
      assert forall i :: 0 <= i < |last| ==> last[i] in y || last[i] == '|' || last[i] in z;
    }
    assert [name, x, last][1..] == [x, last] && [x, last][1..] == [last];
    assert Join([x, last], '=') == x + "=" + last;
    assert Join([name, x, last], '=') == name + "=" + (x + "=" + last);
    assert name + "=" + (x + "=" + last) == name + "=" + x + "=" + y + "|" + z;
    SplitJoin([name, x, last], '=');
  }

  /** Every `=`-segment after the name contributes its alternatives:
      `name=x=y|z` accepts `x`, `y` and `z`. */
  lemma ChainedSegments(name: string, x: string, y: string, z: string)
    requires '=' !in name && '=' !in x && '=' !in y && '=' !in z
    requires '|' !in x && '|' !in y && '|' !in z
    ensures FilterName(name + "=" + x + "=" + y + "|" + z) == name
    ensures FilterValues(name + "=" + x + "=" + y + "|" + z) == {x, y, z}
  {
    var last := y + "|" + z;
    ChainedSplit(name, x, y, z);
    SplitFree(x, '|');
    assert Join([y, z], '|') == last;
    SplitJoin([y, z], '|');
    var segments := [x, last];
    assert segments[1..] == [last] && segments[1..][1..] == [];
    assert Alternatives(segments) == Elements([x]) + (Elements([y, z]) + Alternatives([]));
    assert Elements([y, z]) == {y, z};
  }

  /** Worked example: `a=b=c|d` names `a` and accepts `b`, `c` and `d`. */
  lemma ChainedSegmentsExample()
    ensures FilterName("a=b=c|d") == "a"
    ensures FilterValues("a=b=c|d") == {"b", "c", "d"}
  {
    ChainedSegments("a", "b", "c", "d");
    assert "a" + "=" + "b" + "=" + "c" + "|" + "d" == "a=b=c|d";
  }

  /** Worked example: `a=` names `a` and accepts only the empty value. */
  lemma EmptyValueExample()
    ensures FilterName("a=") == "a"
    ensures FilterValues("a=") == {""}
  {
    assert Join(["a", ""], '=') == "a=";
    SplitJoin(["a", ""], '=');
    assert ["a", ""][1..] == [""] && [""][1..] == [];
  }
}
