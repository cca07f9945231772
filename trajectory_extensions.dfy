/** Whether a trajectory query materialises its station child data
    (src/Witsml.Server/Data/Trajectories/TrajectoryExtensions.cs). */
module TrajectoryExtensions {

  /** The values of the WITSML `returnElements` query option; `Other`
      holds any text that is none of them, which the source's string
      comparisons all reject. */
  datatype ReturnElements =
    | All
    | IdOnly
    | HeaderOnly
    | DataOnly
    | StationLocationOnly
    | LatestChangeOnly
    | Requested
    | Other(Text: string)

  /** What the query parser exposes to this decision: the requested
      `returnElements` option and the names of the elements that appear in
      the query template. */
  datatype QueryParser = QueryParser(ReturnElements: ReturnElements, ElementNames: set<string>)

  /** The element name of a trajectory station. */
  const TrajectoryStation: string := "trajectoryStation"

  /** `parser.Contains(name)`: the query template names the element. */
  predicate Contains(parser: QueryParser, name: string)
  {
    name in parser.ElementNames
  }

  /** The options whose response carries child data whatever the template
      names. */
  predicate AlwaysReturnsData(option: ReturnElements)
  {
    option == All || option == DataOnly || option == StationLocationOnly
  }

  /** True when trajectory stations are to be included in the response:
      for `all`, `data-only` and `station-location-only`, and for
      `requested` when the template names a trajectory station. */
  function IncludeTrajectoryStations(parser: QueryParser): (r: bool)
    ensures r ==> AlwaysReturnsData(parser.ReturnElements) || parser.ReturnElements == Requested
    ensures AlwaysReturnsData(parser.ReturnElements) ==> r
  {
    All == parser.ReturnElements ||
    DataOnly == parser.ReturnElements ||
    StationLocationOnly == parser.ReturnElements ||
    (Requested == parser.ReturnElements && Contains(parser, TrajectoryStation))
  }

  /** `all`, `data-only` and `station-location-only` include stations
      whatever the template names. */
  lemma DataOptionsIncludeStations(names: set<string>)
    ensures IncludeTrajectoryStations(QueryParser(All, names))
    ensures IncludeTrajectoryStations(QueryParser(DataOnly, names))
    ensures IncludeTrajectoryStations(QueryParser(StationLocationOnly, names))
  {
  }

  /** `requested` includes stations exactly when the template names a
      trajectory station. */
  lemma RequestedFollowsTemplate(names: set<string>)
    ensures IncludeTrajectoryStations(QueryParser(Requested, names)) <==> "trajectoryStation" in names
  {
  }

  /** Every other option (`id-only`, `header-only`, `latest-change-only`,
      or an unrecognised value) never includes stations, even when the
      template names them. */
  lemma HeaderOptionsExcludeStations(parser: QueryParser)
    requires !AlwaysReturnsData(parser.ReturnElements) && parser.ReturnElements != Requested
    ensures !IncludeTrajectoryStations(parser)
  {
  }

  /** The template matters only through whether it names a trajectory
      station, and only for `requested`. */
  lemma TemplateMattersOnlyForRequested(parser: QueryParser, names: set<string>)
    requires parser.ReturnElements != Requested || (TrajectoryStation in names <==> TrajectoryStation in parser.ElementNames)
    ensures IncludeTrajectoryStations(parser) == IncludeTrajectoryStations(QueryParser(parser.ReturnElements, names))
  {
  }

  /** Naming more elements in the template never removes stations. */
  lemma MoreElementsNeverExclude(parser: QueryParser, extra: set<string>)
    ensures IncludeTrajectoryStations(parser) ==>
      IncludeTrajectoryStations(QueryParser(parser.ReturnElements, parser.ElementNames + extra))
  {
  }
}
