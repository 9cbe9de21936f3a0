# AiLogger, modelled in Dafny

`AiLogger` is a small logging helper over the Application Insights SDK. It
keeps a metadata dictionary whose `Application`, `Component` and optional
`Module` entries are seeded at construction and protected. From those entries
it derives a metric namespace (`App.Comp[.Module]`) and an identifier for
every metric. It decodes W3C `traceparent` headers into the client's
operation context, and it stamps the metadata on every trace, event,
exception and dependency it sends.

The project has seven modules:

- `Wrappers` defines `Option`, `Result` and `Outcome`. A thrown exception is a
  `Failure`/`Fail` value.
- `Text` models the .NET string primitives the class uses:
  - `string.IsNullOrWhiteSpace` and `IsNullOrEmpty`;
  - an ASCII case fold standing in for the ignore-case comparers;
  - `string.Split(char)`, which keeps empty segments, with its inverse `Join`.
- `HexNumber` models `int.TryParse(s, NumberStyles.HexNumber, InvariantCulture, out v)`:
  - surrounding white space is allowed;
  - trailing NULs are allowed;
  - leading zeros are skipped;
  - at most 8 significant digits;
  - the value is reinterpreted as a two's-complement `int`;
  - the `out` value is 0 on failure.
- `TraceParent` models the split-and-parse of a `traceparent` header, plus the
  `version-traceId-parentId-flags` encoder as its inverse.
- `MetricNames` models the namespace and `MetricIdentifier` construction.
- `MetadataMaps` models the stored dictionary (exact keys) and the
  ignore-case dictionary a write builds from the caller's map. The merge is
  specified independently of enumeration order by the predicate `Merged`.
  `KeepProtected` is what a reset keeps.
- `Logging` holds the class `AiLogger`. Its fields are the logger's own state
  and the telemetry client's context: operation, user and cloud-role fields,
  plus the sequence `sent` of records handed to `Track*`, in order. It also
  holds `Create`, which folds the eight constructors into one factory:
  - `Origin` says whether the configuration is created from an
    instrumentation key (owned, later released) or shared;
  - `Extra` says which overload family supplies the module, role and
    instance.

The class invariant `Valid()` has two parts:

- Every protected name is a seeded name, is stored with a non-blank value, and
  has no second spelling that folds like it.
- An owned configuration is held until it is released once.

Construction establishes `Valid()`. Every metadata mutator preserves it, along
with the protected entries themselves.

The model follows the code, including these behaviours one might not expect:

- `AddMetadata` does not validate the name or the value. A null name fails
  only because the dictionary refuses a null key (`ArgumentNull("key")`).
- The stored dictionary compares keys exactly. Only the protected-name check
  of `AddMetadata`/`RemoveMetadata` ignores case, and `ResetMetadata` keeps
  keys that are spelled exactly like a protected name.
- Version and flags are accepted as any 32-bit hexadecimal number, not only as
  two hex digits.
- A failed header leaves the operation context unchanged, but it can still
  change the decoded version/flags fields, because they are `out` arguments.
- The three- and five-argument constructors over a shared
  `TelemetryConfiguration` leave the metric namespace null.
- The `IConfiguration` constructors write a non-blank `Instance` into the
  cloud role *name*.
- The five-argument constructors fail when either Role or Instance is null.

## Model

| member | source | states |
|---|---|---|
| Text.IsNullOrWhiteSpace | Nuget/AiLogger/Source/AiLogger.cs:48-51 | a string is blank when it is null or every character is white space in the `Char.IsWhiteSpace` sense, so the empty string is blank |
| Text.IsNullOrEmpty | Nuget/AiLogger/Source/AiLogger.cs:214-216 | a string is null or empty exactly when it is null or has no characters; white space does not count as empty |
| Text.Fold | Nuget/AiLogger/Source/AiLogger.cs:161 | the case fold keeps the length of the name |
| Text.FoldIdempotent | Nuget/AiLogger/Source/AiLogger.cs:161 | folding twice is folding once, so the ignore-case comparison is an equivalence on names |
| Text.Split | Nuget/AiLogger/Source/AiLogger.cs:233 | `Split` always yields at least one segment |
| Text.SplitLength | Nuget/AiLogger/Source/AiLogger.cs:233-234 | the number of segments is the number of separators plus one, empty segments included |
| Text.SplitSegmentsFree | Nuget/AiLogger/Source/AiLogger.cs:233 | no segment contains the separator |
| Text.JoinSplit | Nuget/AiLogger/Source/AiLogger.cs:233 | rejoining the segments with the separator gives back the header |
| Text.SplitJoin | Nuget/AiLogger/Source/AiLogger.cs:233 | splitting a join of separator-free segments gives back exactly those segments |
| Text.SplitPrefix | Nuget/AiLogger/Source/AiLogger.cs:233 | a separator-free prefix only extends the first segment |
| HexNumber.ToInt32 | Nuget/AiLogger/Source/AiLogger.cs:237 | a 32-bit pattern becomes the `int` congruent to it modulo 2^32, within the `int` range |
| HexNumber.ParseHexInt32 | Nuget/AiLogger/Source/AiLogger.cs:237-240 | a successful hex parse always yields a 32-bit `int` |
| HexNumber.ParsedOrZero | Nuget/AiLogger/Source/AiLogger.cs:237-239 | the value `TryParse` leaves in its `out` argument: the parsed value on success, zero on failure |
| HexNumber.Hex2 | Nuget/AiLogger/Source/AiLogger.cs:237-240 | the two-digit encoding of a version or flags byte is two characters long |
| HexNumber.Hex2Value | Nuget/AiLogger/Source/AiLogger.cs:237-240 | the digits of the two-digit encoding of a byte have that byte as their hexadecimal value |
| HexNumber.LeadingWhiteIgnored | Nuget/AiLogger/Source/AiLogger.cs:237-240 | leading white space never changes what a field parses to, success or failure |
| HexNumber.DigitsThenWhite | Nuget/AiLogger/Source/AiLogger.cs:237-240 | hex digits followed only by white space, with a value below 2^32, parse to that value reinterpreted as an `int` |
| HexNumber.Hex2RoundTrip | Nuget/AiLogger/Source/AiLogger.cs:237-240 | parsing the two-digit encoding of a byte gives back that byte, in either letter case |
| HexNumber.PaddedByteAccepted | Nuget/AiLogger/Source/AiLogger.cs:237-240 | white space around a two-digit field does not change the value parsed |
| HexNumber.NonHexRejected | Nuget/AiLogger/Source/AiLogger.cs:237-238 | a field that starts with a character that is neither white space nor a hex digit is refused |
| HexNumber.OverflowRejected | Nuget/AiLogger/Source/AiLogger.cs:237-240 | digits worth 2^32 or more, followed only by white space, are refused, so at most eight significant digits are accepted |
| HexNumber.TrailingJunkRejected | Nuget/AiLogger/Source/AiLogger.cs:237-240 | digits followed by a character that is neither a hex digit, white space nor NUL are refused, whatever comes after |
| HexNumber.BlankRejected | Nuget/AiLogger/Source/AiLogger.cs:237-240 | an empty or all-white field is refused |
| HexNumber.NulTail | Nuget/AiLogger/Source/AiLogger.cs:237-240 | NULs after the digits and their trailing white space are tolerated: the field parses as the digits alone would, refused only on overflow |
| HexNumber.TailRejected | Nuget/AiLogger/Source/AiLogger.cs:237-240 | after the digits and any white space, a tail that does not start with white space and is not all NULs is refused, such as `0 1` or `1` NUL `x` |
| HexNumber.AllOnesIsMinusOne | Nuget/AiLogger/Source/AiLogger.cs:237 | `ffffffff` parses to -1: the value is reinterpreted as a signed 32-bit number, not refused |
| TraceParent.Decode | Nuget/AiLogger/Source/AiLogger.cs:233-240 | a header is refused for its part count exactly when it does not split into four segments; an accepted header has hyphen-free trace and parent ids and 32-bit version and flags |
| TraceParent.DecodePartCount | Nuget/AiLogger/Source/AiLogger.cs:233-235 | a header is refused for its part count exactly when it does not contain three hyphens |
| TraceParent.DecodeSegments | Nuget/AiLogger/Source/AiLogger.cs:233-245 | an accepted header is the hyphen-join of its four fields, the ids hold no hyphen, and version and flags are the hex values of parts 0 and 3 |
| TraceParent.DecodeFormat | Nuget/AiLogger/Source/AiLogger.cs:231-245 | decoding an encoded header gives back version, trace id, parent id and flags |
| TraceParent.ExampleHeaderIsFormatted | Nuget/AiLogger/Source/AiLogger.cs:231-245 | the sample header `00-4bf9…4736-00f0…02b7-01` is the encoding of (0, trace id, parent id, 1) |
| TraceParent.W3CExample | Nuget/AiLogger/Source/AiLogger.cs:231-245 | the sample header decodes to version 0, its trace id, its parent id and flags 1 |
| TraceParent.ThreePartsRefused | Nuget/AiLogger/Source/AiLogger.cs:234-235 | `00-abc-def` is refused for its part count |
| TraceParent.NonHexVersionRefused | Nuget/AiLogger/Source/AiLogger.cs:237-238 | a four-part header with version `zz` is refused for its version |
| MetricNames.Namespace | Nuget/AiLogger/Source/AiLogger.cs:79-98 | the namespace starts with Application and a dot and ends with Component, or with a dot and the Module, and is exactly as long as those parts and the dots between them |
| MetricNames.Identifier | Nuget/AiLogger/Source/AiLogger.cs:318-329 | the metric name is always kept; the namespace is left as it is exactly when the suffix is null or blank, and otherwise grows by a dot and the suffix |
| MetricNames.NamespaceIsJoin | Nuget/AiLogger/Source/AiLogger.cs:79-98 | the namespace is the dot-join of Application, Component and the optional Module |
| MetricNames.NamespaceSegments | Nuget/AiLogger/Source/AiLogger.cs:79-98 | for dot-free names, splitting the namespace on dots gives back the dimensions |
| MetricNames.NamespaceInjective | Nuget/AiLogger/Source/AiLogger.cs:79-98 | for dot-free names, different (Application, Component, Module) triples give different namespaces |
| MetricNames.BlankSuffixIgnored | Nuget/AiLogger/Source/AiLogger.cs:324-329 | a null or white-space suffix looks up the same identifier as no suffix: the namespace and the name unchanged |
| MetricNames.SuffixSegments | Nuget/AiLogger/Source/AiLogger.cs:324-329 | a non-blank dot-free suffix appends exactly one segment to the namespace and keeps the metric name |
| MetricNames.NullNamespaceSuffix | Nuget/AiLogger/Source/AiLogger.cs:328 | with a null namespace, the interpolation renders the suffixed namespace as `.suffix` |
| MetadataMaps.FoldUnique | Nuget/AiLogger/Source/AiLogger.cs:201 | what an ignore-case dictionary can hold: no two keys equal up to case |
| MetadataMaps.IsProtected | Nuget/AiLogger/Source/AiLogger.cs:161-174 | the ignore-case `Contains` over the protected names: some protected name compares equal to the name ignoring case |
| MetadataMaps.Merged | Nuget/AiLogger/Source/AiLogger.cs:199-204 | the properties a write sends: keys unique up to case, every caller key present, every stored name present under some spelling, caller values kept where no stored name folds like the key, and stored values wherever one does |
| MetadataMaps.KeepProtected | Nuget/AiLogger/Source/AiLogger.cs:183-194 | a reset keeps exactly the stored keys spelled like a protected name, with their values |
| MetadataMaps.SetIgnoreCase | Nuget/AiLogger/Source/AiLogger.cs:201-203 | an indexer write into an ignore-case dictionary keeps keys unique up to case and adds no key other than the written one; afterwards some spelling of the written key is present, every key that folds like it holds the new value (an existing spelling is kept), and every other entry is left alone |
| MetadataMaps.StoredWins | Nuget/AiLogger/Source/AiLogger.cs:199-204 | after the merge, a stored name with no second spelling stored is present in the sent properties under some spelling, and every sent key that folds like it carries the stored value, whatever the caller passed |
| MetadataMaps.MergedEmptyCaller | Nuget/AiLogger/Source/AiLogger.cs:199-204 | with no two stored keys equal up to case, merging an empty caller map sends exactly the stored metadata |
| MetadataMaps.KeepProtectedIdempotent | Nuget/AiLogger/Source/AiLogger.cs:183-194 | a second reset changes nothing |
| MetadataMaps.KeepProtectedExact | Nuget/AiLogger/Source/AiLogger.cs:183-194 | when every protected name is stored, a reset keeps exactly the protected names, with their values |
| MetadataMaps.KeepProtectedMatchesIgnoreCase | Nuget/AiLogger/Source/AiLogger.cs:157-194 | with no second spelling of a protected name stored, the reset's exact test keeps exactly the keys that the ignore-case test of `AddMetadata` protects |
| Logging.ConstructionError | Nuget/AiLogger/Source/AiLogger.cs:86-110 | every construction failure is an `ArgumentNullException`; construction fails exactly when the instrumentation key is null, Application or Component is blank, or an extra argument is refused, and a null key is reported first |
| Logging.ExtraError | Nuget/AiLogger/Source/AiLogger.cs:62-110 | the extra arguments fail only with `Module`, `Role` or `Instance`, never in the three-argument constructors; the four-argument constructors refuse a null or blank module, the configuration constructors only a non-null blank one; the five-argument constructors fail exactly when Role or Instance is null, and a null Role is reported first |
| Logging.InitialNamespace | Nuget/AiLogger/Source/AiLogger.cs:62-143 | a constructor sets a namespace exactly when it was given an instrumentation key or a module, and that namespace is the dot-join of Application, Component and the module |
| Logging.InitialRoleName | Nuget/AiLogger/Source/AiLogger.cs:62-127 | the three- and four-argument constructors set no role name; the five-argument ones set it to Role; a configuration constructor writes a non-blank Instance over it, else uses a non-blank Role, and falls back on the namespace when both are blank |
| Logging.MetadataInvariant | Nuget/AiLogger/Source/AiLogger.cs:46-194 | the metadata part of the class invariant: every protected name is a seeded name, is stored with a non-blank value, and has no second spelling stored that compares equal to it ignoring case |
| Logging.SeedValid | Nuget/AiLogger/Source/AiLogger.cs:46-59 | the seeded Application, Component and Module entries satisfy the metadata invariant |
| Logging.AiLogger.Valid | Nuget/AiLogger/Source/AiLogger.cs:34-367 | the class invariant: the metadata invariant holds, and an owned configuration is either still held or released exactly once, never before disposal |
| Logging.AiLogger.Accepts | Nuget/AiLogger/Source/AiLogger.cs:197-208 | a write accepts a null caller map, and otherwise only one whose keys are unique up to case, since the ignore-case dictionary constructor throws on a duplicate |
| Logging.AiLogger.Init | Nuget/AiLogger/Source/AiLogger.cs:34-44 | a fresh logger has no metadata, no namespace, zero version and flags, empty client context, nothing sent, and holds a configuration exactly when it owns one |
| Logging.AiLogger.AddMetadataInternal | Nuget/AiLogger/Source/AiLogger.cs:46-59 | a blank name and then a blank value are refused with nothing changed; otherwise the entry is written and, on request, its name becomes protected |
| Logging.AiLogger.SeedBase | Nuget/AiLogger/Source/AiLogger.cs:95-98 | Application then Component are seeded as protected entries, and the first blank one is refused; on success the namespace is `App.Comp` for a logger built from an instrumentation key and stays null over a shared configuration |
| Logging.AiLogger.SeedExtra | Nuget/AiLogger/Source/AiLogger.cs:62-154 | the module, role and instance arguments are refused, seeded and applied to namespace and cloud role as each constructor family does |
| Logging.AiLogger.Create | Nuget/AiLogger/Source/AiLogger.cs:62-154 | construction fails exactly when a required argument is missing, with the first such argument's exception; otherwise the logger is fresh, valid, seeded, has the derived namespace and cloud role, and owns the configuration exactly when built from an instrumentation key |
| Logging.AiLogger.AddMetadata | Nuget/AiLogger/Source/AiLogger.cs:157-167 | a name that folds like a protected name is refused, and a null name is refused with `key`, both with nothing changed; otherwise that entry is overwritten and nothing else changes; the invariant and the protected entries are kept |
| Logging.AiLogger.RemoveMetadata | Nuget/AiLogger/Source/AiLogger.cs:170-180 | a protected or null name is refused with nothing changed; otherwise exactly that key is removed, or nothing if absent; the invariant and the protected entries are kept |
| Logging.AiLogger.ResetMetadata | Nuget/AiLogger/Source/AiLogger.cs:183-194 | the remaining metadata is the old metadata restricted to exactly-spelled protected names; the invariant and the protected entries are kept |
| Logging.AiLogger.SetOperationState | Nuget/AiLogger/Source/AiLogger.cs:248-251 | TraceState is written as an ordinary entry, even with a null value, and the invariant and the protected entries are kept |
| Logging.AiLogger.ClearOperationState | Nuget/AiLogger/Source/AiLogger.cs:262-269 | exactly the TraceState entry is removed; the invariant and the protected entries are kept |
| Logging.AiLogger.SetOperationContext | Nuget/AiLogger/Source/AiLogger.cs:223-228 | the operation id, name and parent id become the arguments, and the rest of the client context is unchanged |
| Logging.AiLogger.SetOperationContextFromHeader | Nuget/AiLogger/Source/AiLogger.cs:231-245 | a null header raises a null reference; otherwise the call succeeds exactly when the header decodes; on success the id, parent id and name are parts 1 and 2 and the name, and version and flags are the decoded values; on failure the operation context is unchanged, and version/flags are zeroed or overwritten as the `out` arguments leave them |
| Logging.AiLogger.ClearOperationContext | Nuget/AiLogger/Source/AiLogger.cs:254-259 | the operation id, name and parent id become null, and the rest of the client context is unchanged |
| Logging.AiLogger.SetUserContext | Nuget/AiLogger/Source/AiLogger.cs:272-278 | the four user fields become the arguments, and the rest of the client context is unchanged |
| Logging.AiLogger.ClearUserContext | Nuget/AiLogger/Source/AiLogger.cs:281-287 | the four user fields become null, and the rest of the client context is unchanged |
| Logging.AiLogger.PropertiesFor | Nuget/AiLogger/Source/AiLogger.cs:199-207 | without a caller map the stored metadata itself is sent; a caller map with two keys equal up to case is refused; otherwise the result is the caller map with every stored entry written over it (`Merged`) |
| Logging.AiLogger.WriteTrace | Nuget/AiLogger/Source/AiLogger.cs:197-208 | the call fails exactly when the caller map has two keys equal up to case, sending nothing; otherwise exactly one trace with the message, the severity and the merged properties is appended |
| Logging.AiLogger.WriteEvent | Nuget/AiLogger/Source/AiLogger.cs:290-301 | as for traces, with one event record |
| Logging.AiLogger.WriteException | Nuget/AiLogger/Source/AiLogger.cs:304-315 | as for traces, with one exception record |
| Logging.AiLogger.WriteRequest | Nuget/AiLogger/Source/AiLogger.cs:211-220 | exactly one request record is appended, carrying the URL and the id only when they are non-empty, and no metadata |
| Logging.AiLogger.WriteDependency | Nuget/AiLogger/Source/AiLogger.cs:332-350 | exactly one dependency record is appended, whose properties are the whole stored metadata and whose result code is set only when it is not blank |
| Logging.AiLogger.GetMetric | Nuget/AiLogger/Source/AiLogger.cs:318-321 | the identifier is the logger's namespace with the given name |
| Logging.AiLogger.GetMetricWithSuffix | Nuget/AiLogger/Source/AiLogger.cs:324-329 | a null or blank suffix gives the same identifier as `GetMetric`; otherwise the namespace is rendered, a dot and the suffix appended, and the name kept |
| Logging.AiLogger.DisposeCore | Nuget/AiLogger/Source/AiLogger.cs:353-367 | only the first call has an effect: it marks the logger disposed and, when disposing, releases a held configuration once and drops it |
| Logging.AiLogger.Dispose | Nuget/AiLogger/Source/AiLogger.cs:370-374 | disposal is idempotent; the configuration is released at most once, exactly when it is owned, and afterwards none is held |

## Left out

- Locking (`lock(this)`) and thread safety: the class is modelled sequentially.
- The Application Insights SDK: `TelemetryClient`, `TelemetryConfiguration`,
  metric lookup and the `Track*` transport. The client is represented by its
  context fields, by the records handed to it (`sent`) and by metric
  identifiers. The SDK's stamping of context onto records is not modelled.
- `new Uri(Url)` in `WriteRequest`: the URL is kept as a string, attached only
  when non-empty. The `UriFormatException` a malformed URL raises is not
  modelled.
- The `IConfiguration` indexer: its values are optional string arguments of
  `Create` (`Extra.FromSettings` and the `Origin` key).
- A null `TelemetryConfiguration` handed to the shared-configuration
  constructors, which the SDK refuses, is not modelled.
- `DateTime`, `TimeSpan` and `Exception` are opaque values (`Ticks`,
  `ExceptionHandle`).
- `GC.SuppressFinalize` has no observable effect on the model.
- Culture-sensitive and ordinal ignore-case comparison are both approximated
  by ASCII case folding (`Text.Fold`). Non-ASCII case pairs are treated as
  distinct.
- Pass-through strings that the class never inspects (messages, event and
  dependency names, status codes) are modelled as non-null strings.
- The caller map's keys are non-null strings, since a `Dictionary` cannot hold
  a null key. They are compared ignoring case when the map is copied
  (`FoldUnique`).
- The enumeration order of `Dictionary.Keys`: the loops pick keys in an
  unspecified order, and their contracts do not depend on the order.
- `IAiLogger.cs` (signatures only), the dependency-injection registration
  extension and the cloud-role telemetry initializer are not part of this
  model.
- Logging.AiLogger.GetMetric: states the identifier pair only. Which `Metric`
  object the SDK returns for it is SDK behaviour.
