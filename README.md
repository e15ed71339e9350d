# osm-to-geojson, modelled in Dafny

osm-to-geojson reads OpenStreetMap PBF extracts and writes one GeoJSON Feature
(RFC 7946) per line for every entity whose tags pass a filter. The command
line gives filter strings of the form `name=v1|v2|...`. An entity passes
when, for every filtered tag name, it carries that tag with one of the
accepted values. A node that passes becomes a Point feature. A closed way
becomes a Polygon feature with one ring. Its positions come from the
dependency nodes the reader returned alongside it. A relation aborts the
run.

This project models the core of `src/main.rs`:

- **wrappers.dfy**: `Option` and `Result`.
- **text.dfy**: `str::split` on one character, with its inverse `Join`. Also
  the decimal rendering of identifiers used by `format!("node/{}", id)`.
- **tag_filter.dfy**: parsing of filter strings (`parse_tag_filters`) and
  the all/any test (`matches_tag_filters`).
- **features.dfy**: `node_to_point`, `node_to_feature`, `way_to_feature`
  and `tags_to_props`.
  - The first three are functions.
  - `tags_to_props` is a method whose loop builds the properties map.
- **conversion.dfy**: the per-file loop of `main`.
  - One iteration is the method `ConvertEntity`.
  - The loop over one file is the method `ConvertFile`. Its locals are
    `dep_nodes` and `count`.
  - The loop over all files is the method `Convert`.
  - Each method is proved against a specification function: `Step`, `Run`
    or `RunFiles`. A panic in the source is a `Fatal` result.
- **conversion_properties.dfy**: what the loop guarantees.
  - Which nodes are written.
  - Which nodes are recorded, and with what position.
  - That `count` is the number of features written.
  - When a run aborts.
  - That files do not influence each other.
- **scenarios.dfy**: whole runs on small symbolic inputs.

Behaviour of the code that is easy to overlook and that the model keeps as
written:

- A filter string without `=` yields an empty set of accepted values. So,
  when it is the last string for its name, nothing matches
  (`NoEqualsNeverMatches`). The syntax does not prevent that.
- `way_to_feature` does not re-check the way's tags. Every closed way the
  reader returns is written whatever its tags, unless the run aborts at or
  before it (`ClosedWaysWritten`).
- A way with no nodes counts as closed. `Way::is_closed` compares `first()`
  with `last()`, which are both `None` for such a way.
- A closed way one of whose nodes passes the filter aborts the run, wherever
  the two appear in the input. That node is written instead of recorded, so
  the way cannot resolve it (`MatchingDependencyAborts`).

## Model

| member | source | states |
|---|---|---|
| Text.Split | src/main.rs:86 | `split('=')` yields at least one piece, no piece contains the separator, and there is one more piece than there are separators |
| Text.JoinSplit | src/main.rs:86 | joining the pieces of `split` with the separator gives back the original string |
| Text.SplitJoin | src/main.rs:90 | splitting a join of separator-free pieces gives back exactly those pieces |
| Text.SplitFree | src/main.rs:90 | a string without the separator splits into itself alone |
| Text.FirstPiece | src/main.rs:86-87 | the first piece is a separator-free prefix; it is the whole string iff the separator does not occur, and otherwise it is followed by the separator |
| Text.NatToDecimal | src/main.rs:122 | the decimal rendering of an identifier is non-empty and made of digits |
| Text.DecimalRoundTrip | src/main.rs:122 | reading back the decimal rendering gives the identifier |
| Text.IntToDecimalInjective | src/main.rs:122 | distinct identifiers (negative ones included) render differently |
| TagFilter.ParseTagFilters | src/main.rs:82-97 | the parsed map's keys are exactly the names of the filter strings |
| TagFilter.ParseTagFiltersLastWins | src/main.rs:94-96 | for a name given several times, the map holds the values of the last string with that name |
| TagFilter.FilterNameIsPrefix | src/main.rs:86-87 | the name is the prefix of the string before its first `=`, or the whole string when there is no `=` |
| TagFilter.AlternativesMembership | src/main.rs:89-92 | a value is gathered iff it is one of the bar-separated alternatives of one of the segments |
| TagFilter.FilterValuesMembership | src/main.rs:89-92 | a value is accepted iff it is a bar-separated alternative of some `=`-segment after the name |
| TagFilter.ValuesEmptyIffNoEquals | src/main.rs:86-92 | the accepted set is empty iff the filter string has no `=` |
| TagFilter.NoEqualsNeverMatches | src/main.rs:82-106 | when the last string for a name has no `=`, no tag map passes the parsed filters |
| TagFilter.ChainedSegments | src/main.rs:89-92 | a string of a name, `=`, `x`, `=`, then `y` and `z` separated by a bar, names `name` and accepts exactly `x`, `y` and `z` |
| TagFilter.ChainedSegmentsExample | src/main.rs:89-92 | the string `a=b=c`, a bar, then `d`, names `a` and accepts exactly `b`, `c` and `d` |
| TagFilter.EmptyValueExample | src/main.rs:89-92 | `a=` names `a` and accepts only the empty value |
| TagFilter.MatchesIff | src/main.rs:100-106 | tags pass iff every filtered name is present with one of its accepted values |
| TagFilter.EmptyFiltersMatchAll | src/main.rs:101 | an empty filter map accepts every tag map |
| Features.NodeToPoint | src/main.rs:108-110 | a position has two coordinates, longitude first, then latitude |
| Features.PropertiesRoundTrip | src/main.rs:157-168 | reading the tags back from the properties gives the original tags |
| Features.TagsToProps | src/main.rs:157-168 | always `Some`; exactly the tag keys, each mapped to its unchanged value as a JSON string |
| Features.FeatureIdsDistinct | src/main.rs:122-145 | `node/<id>` and `way/<id>` identifiers are injective, and no node identifier equals a way identifier |
| Features.NodeToFeatureContract | src/main.rs:112-128 | `None` iff the tags fail the filter; otherwise a Point at `[lon, lat]` with id `node/<id>` whose properties carry the node's tags |
| Features.ResolveRing | src/main.rs:135-140 | succeeds iff every node identifier has a recorded position; the ring matches them index for index; on failure it reports the first missing identifier |
| Features.WayToFeatureContract | src/main.rs:130-151 | no feature iff the way is open; abort iff it is closed and a node is missing; otherwise one Polygon ring with the recorded position of each node in order, id `way/<id>`, and the way's tags as properties |
| Conversion.AbortIsFinal | src/main.rs:37-56 | after a panic the rest of the entities change nothing |
| Conversion.ConvertEntity | src/main.rs:38-55 | one iteration: a passing node writes its feature, a failing node records its position, a way writes its feature when closed, a relation or a missing way node aborts |
| Conversion.ConvertFile | src/main.rs:35-56 | the loop writes what `Run` describes, aborts when it does, and `count` equals the number of features written |
| Conversion.BatchAbortIsFinal | src/main.rs:23-59 | once a file aborts, later files change nothing |
| Conversion.Convert | src/main.rs:14-59 | the filters are parsed once and each file is converted in turn into one shared output, as `RunFiles` describes |
| ConversionProperties.StepEffect | src/main.rs:38-53 | a step writes one feature exactly for a passing node or a closed way, and records exactly a failing node |
| ConversionProperties.WrittenCount | src/main.rs:36-52 | without an abort, `count` is the number of passing nodes plus the number of closed ways |
| ConversionProperties.WrittenOrigin | src/main.rs:37-53 | every written feature is a passing node's own feature, or the feature a closed way resolves to against the positions recorded before it |
| ConversionProperties.MatchingNodesWritten | src/main.rs:39-43 | without an abort, every passing node's feature is written |
| ConversionProperties.ClosedWaysWritten | src/main.rs:48-52 | without an abort, every closed way is written as the Polygon it resolves to against the positions recorded before it |
| ConversionProperties.FailingNodesRecorded | src/main.rs:44-46 | without an abort, every failing node's identifier is recorded |
| ConversionProperties.OnlyFailingNodesRecorded | src/main.rs:44-46 | only identifiers of failing nodes are recorded |
| ConversionProperties.RecordedPositions | src/main.rs:45 | a recorded identifier maps to the position of the last failing node with that identifier |
| ConversionProperties.NodeWrittenXorRecorded | src/main.rs:39-47 | with unique node identifiers, a node is either written (and not recorded) or recorded with its position (and no written feature carries its identifier), never both |
| ConversionProperties.RelationAborts | src/main.rs:54 | a relation anywhere in the input aborts the file's run |
| ConversionProperties.SupplyingNode | src/main.rs:29-33 | with nodes before ways, the node supplying a way's dependency comes before the way |
| ConversionProperties.NoAbortUnderReaderContract | src/main.rs:29-56 | with no relations, nodes before ways, and every node of a closed way supplied as a failing node, the run does not abort |
| ConversionProperties.MatchingDependencyAborts | src/main.rs:39-49 | with unique node identifiers, a closed way that refers to any node passing the filter makes the run abort, at that way at the latest, wherever the node and the way appear |
| ConversionProperties.MatchingDependencyAbortsExample | src/main.rs:39-49 | for a passing node followed by a closed way that starts at it, the run aborts on that node's identifier, after the node's own feature was written |
| ConversionProperties.FilesIndependent | src/main.rs:23-58 | without an abort, the output is the concatenation of each file run alone, and the count for each file is that file's own number of features (dependency positions are fresh per file) |
| Scenarios.TwoValueFilterEntry | src/main.rs:82-97 | a name, `=`, then `a` and `b` separated by a bar, names `name` and accepts exactly `a` and `b` |
| Scenarios.TwoValueFilterMatches | src/main.rs:82-106 | a single filter naming `name` with the alternatives `a` and `b` accepts exactly the tag maps whose `name` is `a` or `b` |
| Scenarios.ClosedRingScenario | src/main.rs:35-56 | three failing nodes and a closed way over them give one Polygon whose ring is their positions in the way's order, closing on the first |

## Left out

- Command-line parsing with structopt (`AppArgs`, lines 62-79). The filter strings and the files' entities are the parameters of `Convert`.
- File I/O: opening and creating files, `println!` progress messages, and `write_geojson`. Writing a feature is modelled as appending it to a sequence. Errors when opening or writing files are not modelled.
- The PBF reader and `get_objs_and_deps` (lines 27-33). Their result is the entity sequence given to `ConvertFile`. What they guarantee is stated as preconditions of the lemmas that need it, never of `ConvertFile`, which takes any sequence. `UniqueNodeIds` comes from the result being keyed by identifier. `NoRelations` and `NodesBeforeWays` come from the reader's filter and its identifier-ordered map.
- Serialization of a feature to JSON text (`to_string`). A feature is a Dafny value.
- ConversionProperties.NoAbortUnderReaderContract: its hypothesis `DependenciesSupplied` asks for more than the reader promises. It requires every node of a closed way to be supplied as a node that fails the filter, while the reader supplies a way's nodes whatever their tags. The gap is exactly the case `MatchingDependencyAborts` shows to abort.
- Features.NodeToPoint: positions are the node's fixed-point coordinates in units of 1e-7 degree. The scaling to `f64` that `lon()`/`lat()` perform is floating point and is not modelled.
- Features.IsClosed: the library's `Way::is_open` is not part of this model. Its behaviour is restated as "first identifier equals last identifier, or no nodes".
- Features.TagsToProps: `to_value(value).expect(...)` cannot fail for a string, so the model has no failure path for it.
- Conversion.ConvertFile: `count` is a `usize`. The model counts with an unbounded `nat` because reaching the 64-bit limit would need more features than memory can hold.
- Node and way identifiers are `i64` and coordinates `i32` in the reader. The model uses unbounded integers because no arithmetic is done on them.
- `bbox` and `foreign_members` are always `None` and are left out of `Feature`. The `Geometry` wrapper, always present, is folded into the feature.
- Hash-map iteration order is not modelled. The properties map and the filter map are Dafny maps. `matches_tag_filters` and `tags_to_props` do not depend on iteration order.
