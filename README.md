# A verified model of three decision modules of the WITSML store

This project models, in Dafny, three small pure parts of the PDS WITSML
store's data-object engine:

- **Index ranges** (`src/Witsml/Range.cs`). `Parse` reads optional start and
  end values into a range. For a depth range these are numbers. For a time
  range they are date/times, kept as Unix seconds with a time-zone offset.
  `StartsAfter`, `EndsBefore` and `Contains` compare a value with a range
  for an increasing or a decreasing index. `ComputeRange` maps an index to
  the fixed-width, aligned chunk that holds it.
- **Trajectory station inclusion**
  (`src/Witsml.Server/Data/Trajectories/TrajectoryExtensions.cs`).
  `IncludeTrajectoryStations` decides from the `returnElements` option, and
  for `requested` from the query template, whether station data is
  returned.
- **Authorization gate**
  (`src/Witsml.Server/Data/Security/UserAuthorizationProvider.cs`).
  `IsAuthorized` passes everyone when user authorization is disabled.
  Otherwise the first registered adapter decides, and with no adapter the
  answer is `false`. `CheckEtpAccess` and `CheckSoapAccess` turn a denial
  into `InsufficientOperationRights`.

Files:

- `wrappers.dfy` holds `Option`, which stands for C# `null`, and `Outcome`, which stands for a thrown `WitsmlException`.
- `functions.dfy` holds the API functions of `src/Witsml/Functions.cs`.
- `range.dfy` holds module `Ranges`.
- `trajectory_extensions.dfy` holds module `TrajectoryExtensions`.
- `user_authorization_provider.dfy` holds module `UserAuthorizationProvider`.

The source's ambient inputs are explicit parameters:

- the culture-dependent `double.TryParse` and `DateTimeOffset.TryParse` (a `Parsers` record);
- `WitsmlSettings.IsUserAuthorizationEnabled`;
- `WitsmlOperationContext.Current`;
- the imported list of authorization adapters.

Two facts about the code are worth stating up front:

- The first adapter's decision is final, a denial included (`FirstAdapterIsFinal`).
- The template is checked only for `requested`. `all`, `data-only` and
  `station-location-only` include stations unconditionally.

## Model

| member | source | states |
|---|---|---|
| `Ranges.Parse` | src/Witsml/Range.cs:36-70 | A bound is present iff its input is non-null and parses; its value is the parsed number, or the Unix seconds of the parsed time. A depth range has no offset. A time range takes its offset from the end if the end parses, else from the start. With no bound there is no offset. Parse is total: it never fails. |
| `Ranges.ParseBoundsAreIndependent` | src/Witsml/Range.cs:38-69 | The parsed start depends only on the start input, and the parsed end only on the end input. |
| `Ranges.TimeRangeOffsetPresence` | src/Witsml/Range.cs:41-57 | A time range carries an offset iff at least one of its bounds parsed. |
| `Ranges.StartsAfter` | src/Witsml/Range.cs:80-88 | An absent start never makes a range start after a value. |
| `Ranges.EndsBefore` | src/Witsml/Range.cs:98-106 | An absent end never makes a range end before a value. |
| `Ranges.Contains` | src/Witsml/Range.cs:115-123 | Contains holds only when both bounds are present. |
| `Ranges.InclusiveAddsOnlyTheBound` | src/Witsml/Range.cs:80-106 | The inclusive StartsAfter/EndsBefore holds iff the exclusive one holds or the value equals the bound, in either direction. |
| `Ranges.InclusiveIsWeaker` | src/Witsml/Range.cs:80-106 | An exclusive StartsAfter (EndsBefore) result of true implies the inclusive one for the same range, value and direction. |
| `Ranges.ContainsIffNotOutside` | src/Witsml/Range.cs:80-123 | A range contains a value iff both bounds are present and it neither starts after nor ends before the value (exclusive), in either direction. |
| `Ranges.UnboundedRange` | src/Witsml/Range.cs:80-123 | A range with both bounds absent neither starts after, ends before nor contains any value. |
| `Ranges.DirectionDuality` | src/Witsml/Range.cs:80-123 | Each comparison with a decreasing index equals the increasing one on the negated bounds and the negated value. |
| `Ranges.NegatedIsInvolution` | src/Witsml/Range.cs:80-123 | Negating a range's bounds twice gives the range back, so the direction duality holds both ways. |
| `Ranges.Floor` | src/Witsml/Range.cs:134 | Math.Floor: the result is the integer k with k <= x < k + 1. |
| `Ranges.Ceiling` | src/Witsml/Range.cs:134 | Math.Ceiling: the result is the integer k with k - 1 < x <= k. |
| `Ranges.CeilingIsNegatedFloor` | src/Witsml/Range.cs:134 | Ceiling(x) = -Floor(-x). |
| `Ranges.ComputeRange` | src/Witsml/Range.cs:132-136 | The chunk start is a multiple of the chunk size and carries no offset. Increasing: End = Start + size and Start <= index < End. Decreasing: End = Start - size and End < index <= Start. |
| `Ranges.ChunkIsUnique` | src/Witsml/Range.cs:132-136 | For an increasing index, any aligned chunk [s, s + size) that holds the index is the one ComputeRange returns, so each index maps to exactly one chunk. Its start is s = floor(index/size) * size. |
| `Ranges.DecreasingChunkIsUnique` | src/Witsml/Range.cs:132-136 | For a decreasing index, any aligned chunk (s - size, s] that holds the index is the one ComputeRange returns. Its start is s = ceil(index/size) * size. |
| `Ranges.ComputeRangeDuality` | src/Witsml/Range.cs:134-135 | The decreasing chunk of an index is the increasing chunk of the negated index, with both bounds negated. |
| `Ranges.ChunksAreAdjacent` | src/Witsml/Range.cs:132-136 | The increasing chunks tile the axis: the chunk of a chunk's End starts at that End. |
| `Ranges.ChunkBoundsDuality` | src/Witsml/Range.cs:132-136 | Taken as a range, the decreasing chunk of an index is the increasing chunk of the negated index with both bounds negated, which links the chunk duality to the comparisons' direction duality. |
| `Ranges.ChunkContainsIndex` | src/Witsml/Range.cs:115-136 | Taken as a range, the computed chunk contains its index in the chunk's direction. It does not start after the index, and it does not end before it even inclusively. |
| `TrajectoryExtensions.IncludeTrajectoryStations` | src/Witsml.Server/Data/Trajectories/TrajectoryExtensions.cs:35-45 | Stations are included only for all, data-only, station-location-only or requested. They are always included for the first three. |
| `TrajectoryExtensions.DataOptionsIncludeStations` | src/Witsml.Server/Data/Trajectories/TrajectoryExtensions.cs:41-43 | all, data-only and station-location-only include stations, whatever the template names. |
| `TrajectoryExtensions.RequestedFollowsTemplate` | src/Witsml.Server/Data/Trajectories/TrajectoryExtensions.cs:44 | requested includes stations iff the template names "trajectoryStation". |
| `TrajectoryExtensions.HeaderOptionsExcludeStations` | src/Witsml.Server/Data/Trajectories/TrajectoryExtensions.cs:41-44 | Every other option (id-only, header-only, latest-change-only, or an unrecognised string) excludes stations, whatever the template names. |
| `TrajectoryExtensions.TemplateMattersOnlyForRequested` | src/Witsml.Server/Data/Trajectories/TrajectoryExtensions.cs:41-44 | Two templates give the same result under the same option unless the option is requested and exactly one of them names a trajectory station. |
| `TrajectoryExtensions.MoreElementsNeverExclude` | src/Witsml.Server/Data/Trajectories/TrajectoryExtensions.cs:41-44 | Naming more elements in the template never turns inclusion off. |
| `UserAuthorizationProvider.Select` | src/Witsml.Server/Data/Security/UserAuthorizationProvider.cs:84-85 | LINQ Select: the result has the input's length, and each element is the function applied to the input element at the same position. |
| `UserAuthorizationProvider.FirstOrDefault` | src/Witsml.Server/Data/Security/UserAuthorizationProvider.cs:86 | LINQ FirstOrDefault on bool: the first element, or false for an empty sequence. |
| `UserAuthorizationProvider.IsAuthorized` | src/Witsml.Server/Data/Security/UserAuthorizationProvider.cs:72-87 | Disabled authorization gives true. Enabled with no adapters gives false. Enabled with adapters gives the first adapter's decision for (user, request, endpoint type). |
| `UserAuthorizationProvider.CheckEtpAccess` | src/Witsml.Server/Data/Security/UserAuthorizationProvider.cs:48-54 | Fails iff IsAuthorized(Etp) is false, and then with InsufficientOperationRights. Otherwise it passes. |
| `UserAuthorizationProvider.CheckSoapAccess` | src/Witsml.Server/Data/Security/UserAuthorizationProvider.cs:59-65 | Fails iff IsAuthorized(Soap) is false, and then with InsufficientOperationRights. Otherwise it passes. |
| `UserAuthorizationProvider.DisabledAuthorizationAdmitsEveryone` | src/Witsml.Server/Data/Security/UserAuthorizationProvider.cs:74-75 | With authorization disabled, both gates pass for every user, request and adapter list. |
| `UserAuthorizationProvider.FirstAdapterIsFinal` | src/Witsml.Server/Data/Security/UserAuthorizationProvider.cs:84-86 | Adapters after the first never change the outcome. When enabled, the outcome is the first adapter's decision, a denial included. |
| `UserAuthorizationProvider.NoAdapterDeniesEveryone` | src/Witsml.Server/Data/Security/UserAuthorizationProvider.cs:84-86 | Enabled with no adapters registered, both gates fail with InsufficientOperationRights. |
| `UserAuthorizationProvider.GatesAgreeWhenEndpointIsIgnored` | src/Witsml.Server/Data/Security/UserAuthorizationProvider.cs:48-65 | The ETP and SOAP gates give the same outcome when the first adapter decides the same for both endpoint types. |

## Left out

- `double` is modelled as the mathematical `real`. NaN, infinities and rounding of `index / rangeSize` are not modelled.
- `Range<T>` is defined outside the modelled files. It is modelled as a record with `Start`, `End` and `Offset`, and `ComputeRange` builds it with no offset.
- `double.TryParse`, `DateTimeOffset.TryParse` and `ToUnixTimeSeconds` are library calls. They are parameters, and a parsed time carries its Unix seconds and offset as fields. An input object is modelled as its `ToString()` text, and a missing object as `None`.
- Ranges.ComputeRange: requires `rangeSize > 0`, which callers pass as the configured chunk size. It does not model the 32-bit overflow of the `(int)` cast or of `rangeIndex * rangeSize`, because chunk numbers in practice fit in `int`.
- The C# default arguments (`increasing = true`, `inclusive = false`) are not modelled. The model's functions take every argument explicitly.
- `WitsmlQueryParser` is not part of this model. Its `ReturnElements()` is the option value itself. Its `Contains(name)` is membership of the name in the set of element names of the template. The option values are those of the WITSML `returnElements` option, and any other string is kept as `Other(text)`, for which the source's comparisons all give `false`.
- The logging calls in `IsAuthorized` and `IncludeTrajectoryStations` are not modelled. The endpoint description obtained with `GetDescription()` is used only in logging, so it is not modelled either.
- A null operation context or a null adapter list, both of which raise in C#, are not modelled. The context and the list are always present.
- The identifier-based station merge, the growing-object timeout state and the validator rule pipeline are not modelled.
- The generic CRUD data provider and the generated per-type providers and validators are wiring over collaborators that are not part of this model.
