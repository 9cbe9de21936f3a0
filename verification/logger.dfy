/**
 * The `AiLogger` object: a metadata dictionary whose Application, Component
 * and (optional) Module entries are protected, the metric namespace derived
 * from them, the decoded `traceparent` fields, and the telemetry client it
 * writes to. The client is represented by the context fields the logger sets
 * and by the sequence of records handed to it, in order.
 */
module Logging {
  import opened Wrappers
  import opened Text
  import opened HexNumber
  import opened TraceParent
  import opened MetricNames
  import opened MetadataMaps

  /** The exceptions the logger raises, by the condition that raises them. */
  datatype LoggerError =
    | ArgumentNull(paramName: string)      // ArgumentNullException
    | InvalidMetadataName                  // ArgumentException: a seeded name is null or white space
    | ProtectedMetadata(name: string)      // ArgumentException: a protected name is written or removed
    | DuplicateKey                         // ArgumentException: caller keys equal ignoring case
    | InvalidHeader(fault: HeaderFault)    // ArgumentException: a malformed traceparent header
    | NullReference                        // NullReferenceException: a null header is split

  datatype SeverityLevel = Verbose | Information | Warning | Error | Critical

  /** A `DateTime` or `TimeSpan`, passed through untouched. */
  type Ticks = int

  /** An `Exception` object, passed through untouched. */
  type ExceptionHandle = nat

  /** An item handed to the telemetry client's `Track*` methods. */
  datatype Record =
    | TraceRecord(message: string, severity: SeverityLevel, properties: Metadata)
    | EventRecord(eventName: string, properties: Metadata)
    | ExceptionRecord(exception: ExceptionHandle, properties: Metadata)
    | RequestRecord(requestName: string, start: Ticks, duration: Ticks, statusCode: string,
                    success: bool, url: NString, id: NString)
    | DependencyRecord(target: string, typeName: string, dependencyName: string, data: string,
                       timestamp: Ticks, duration: Ticks, resultCode: NString, success: bool,
                       properties: Metadata)

  /** The telemetry client's context: the operation, the user and the cloud role it stamps on what it sends. */
  datatype ClientContext = ClientContext(
    operationId: NString, operationName: NString, operationParentId: NString,
    userId: NString, userAuthenticatedId: NString, userAccountId: NString, userAgent: NString,
    roleName: NString, roleInstance: NString)

  const EmptyContext: ClientContext := ClientContext(None, None, None, None, None, None, None, None, None)

  /** Where the telemetry configuration comes from. */
  datatype Origin =
    | FromInstrumentationKey(instrumentationKey: NString)  // created, owned and later released
    | SharedConfiguration                                   // handed in; never released here

  /** The constructor family, beyond Application and Component. */
  datatype Extra =
    | Plain                                                        // 3-argument constructors
    | WithModule(moduleValue: NString)                             // 4-argument constructors
    | WithRole(role: NString, instance: NString)                   // 5-argument constructors
    | FromSettings(moduleValue: NString, role: NString, instance: NString)  // IConfiguration constructors

  const SeededNames: set<string> := {"Application", "Component", "Module"}
  const TraceStateKey: string := "TraceState"

  /** The seeded names and TraceState differ pairwise in length, so none folds like another. */
  lemma SeededFoldDistinct(a: string, b: string)
    requires a in SeededNames && (b in SeededNames || b == TraceStateKey) && a != b
    ensures Fold(a) != Fold(b)
  {
    assert |a| != |b|;
    FoldLengthDistinct(a, b);
  }

  /** Every protected name is a seeded one, is stored with a non-blank value, and has no other spelling stored. */
  ghost predicate MetadataInvariant(m: Metadata, protectedNames: seq<string>) {
    && (forall q :: q in protectedNames ==> q in SeededNames)
    && (forall q :: q in protectedNames ==> q in m && !IsNullOrWhiteSpace(m[q]))
    && NoShadow(m, protectedNames)
  }

  /** The seeded entries satisfy the metadata invariant. */
  lemma SeedValid(app: string, comp: string, moduleName: NString)
    requires !IsNullOrWhiteSpace(Some(app)) && !IsNullOrWhiteSpace(Some(comp))
    requires moduleName.Some? ==> !IsNullOrWhiteSpace(moduleName)
    ensures MetadataInvariant(SeedMetadata(app, comp, moduleName), SeedNames(moduleName))
  {
    var m, p := SeedMetadata(app, comp, moduleName), SeedNames(moduleName);
    forall k, q | k in m && q in p && Fold(k) == Fold(q)
      ensures k == q
    {
      if k != q {
        SeededFoldDistinct(q, k);
      }
    }
  }

  /** The exception a constructor raises, checked in the order the constructors check. */
  function ConstructionError(origin: Origin, app: NString, comp: NString, extra: Extra): (r: Option<LoggerError>)
    ensures r.Some? ==> r.value.ArgumentNull?
    ensures r.None? <==>
      && !(origin.FromInstrumentationKey? && origin.instrumentationKey.None?)
      && !IsNullOrWhiteSpace(app) && !IsNullOrWhiteSpace(comp) && ExtraError(extra).None?
    ensures origin.FromInstrumentationKey? && origin.instrumentationKey.None? ==> r == Some(ArgumentNull("InstrumentationKey"))
  {
    if origin.FromInstrumentationKey? && origin.instrumentationKey.None? then Some(ArgumentNull("InstrumentationKey"))
    else if IsNullOrWhiteSpace(app) then Some(ArgumentNull("Application"))
    else if IsNullOrWhiteSpace(comp) then Some(ArgumentNull("Component"))
    else ExtraError(extra)
  }

  /** The exception raised by the arguments beyond Application and Component. */
  function ExtraError(extra: Extra): (r: Option<LoggerError>)
    ensures r.Some? ==> r.value.ArgumentNull? && r.value.paramName in {"Module", "Role", "Instance"}
    ensures extra.Plain? ==> r.None?
    ensures extra.WithModule? ==> (r.Some? <==> IsNullOrWhiteSpace(extra.moduleValue))
    ensures extra.FromSettings? ==> (r.Some? <==> extra.moduleValue.Some? && IsNullOrWhiteSpace(extra.moduleValue))
    ensures extra.WithRole? ==> (r.Some? <==> extra.role.None? || extra.instance.None?)
    ensures extra.WithRole? && extra.role.None? ==> r == Some(ArgumentNull("Role"))
  {
    match extra
    case Plain => None
    case WithModule(m) => if IsNullOrWhiteSpace(m) then Some(ArgumentNull("Module")) else None
    case WithRole(role, instance) =>
      if role.None? then Some(ArgumentNull("Role"))
      else if instance.None? then Some(ArgumentNull("Instance"))
      else None
    case FromSettings(m, _, _) => if m.Some? && IsNullOrWhiteSpace(m) then Some(ArgumentNull("Module")) else None
  }

  /** The module a constructor seeds, if any. */
  function ModuleOf(extra: Extra): NString {
    match extra
    case WithModule(m) => m
    case FromSettings(m, _, _) => m
    case _ => None
  }

  function SeedMetadata(app: string, comp: string, moduleName: NString): Metadata {
    var base := map["Application" := Some(app), "Component" := Some(comp)];
    if moduleName.Some? then base["Module" := moduleName] else base
  }

  function SeedNames(moduleName: NString): seq<string> {
    if moduleName.Some? then ["Application", "Component", "Module"] else ["Application", "Component"]
  }

  /** The namespace a constructor leaves: the shared-configuration constructors without a module set none. */
  function InitialNamespace(origin: Origin, app: string, comp: string, extra: Extra): (r: NString)
    ensures r.Some? <==> origin.FromInstrumentationKey? || ModuleOf(extra).Some?
    ensures r.Some? ==> r.value == Namespace(app, comp, ModuleOf(extra))
  {
    if ModuleOf(extra).Some? then Some(Namespace(app, comp, ModuleOf(extra)))
    else if origin.FromInstrumentationKey? then Some(Namespace(app, comp, None))
    else None
  }

  /**
   * The cloud role name, given the namespace the constructor has derived: an
   * IConfiguration constructor falls back on the namespace when Role is blank,
   * and then writes a non-blank Instance over the role name.
   */
  function InitialRoleName(extra: Extra, ns: NString): (r: NString)
    ensures extra.Plain? || extra.WithModule? ==> r.None?
    ensures extra.FromSettings? && !IsNullOrWhiteSpace(extra.instance) ==> r == extra.instance
    ensures extra.FromSettings? && IsNullOrWhiteSpace(extra.instance) && IsNullOrWhiteSpace(extra.role) ==> r == ns
    ensures extra.FromSettings? && IsNullOrWhiteSpace(extra.instance) && !IsNullOrWhiteSpace(extra.role) ==> r == extra.role
    ensures extra.WithRole? ==> r == extra.role
  {
    match extra
    case WithRole(role, _) => role
    case FromSettings(_, role, instance) =>
      if !IsNullOrWhiteSpace(instance) then instance
      else if !IsNullOrWhiteSpace(role) then role
      else ns
    case _ => None
  }

  function InitialRoleInstance(extra: Extra): NString {
    if extra.WithRole? then extra.instance else None
  }

  class AiLogger {
    var metadata: Metadata
    var protectedNames: seq<string>
    var metricNamespace: NString
    var traceParentVersion: int
    var traceParentFlags: int

    // The telemetry client's context and the records handed to it.
    var context: ClientContext
    var sent: seq<Record>

    // The configuration created from an instrumentation key, while it is held.
    const ownsConfig: bool
    var clientConfig: bool
    var configReleases: nat
    var disposed: bool

    ghost predicate MetadataValid()
      reads this`metadata, this`protectedNames
    {
      MetadataInvariant(metadata, protectedNames)
    }

    /** An owned configuration is either still held or has been released exactly once. */
    ghost predicate ConfigValid()
      reads this`clientConfig, this`configReleases, this`disposed
    {
      && configReleases + (if clientConfig then 1 else 0) == (if ownsConfig then 1 else 0)
      && (!disposed ==> configReleases == 0)
    }

    ghost predicate Valid()
      reads this
    {
      MetadataValid() && ConfigValid()
    }

    /** The protected entries, as a reset would keep them. */
    ghost function ProtectedEntries(): Metadata
      reads this`metadata, this`protectedNames
    {
      KeepProtected(metadata, protectedNames)
    }

    /** The state every constructor starts from, before seeding. */
    constructor Init(owns: bool)
      ensures ownsConfig == owns && clientConfig == owns && configReleases == 0 && !disposed
      ensures metadata == map[] && protectedNames == [] && metricNamespace == None
      ensures traceParentVersion == 0 && traceParentFlags == 0
      ensures context == EmptyContext && sent == []
      ensures Valid()
    {
      metadata, protectedNames, metricNamespace := map[], [], None;
      traceParentVersion, traceParentFlags := 0, 0;
      context, sent := EmptyContext, [];
      ownsConfig, clientConfig, configReleases, disposed := owns, owns, 0, false;
    }

    /** Stores a seeded entry, refusing a blank name or value, and protects it on request. */
    method AddMetadataInternal(name: string, value: NString, protectedMetadata: bool) returns (o: Outcome<LoggerError>)
      modifies this`metadata, this`protectedNames
      ensures IsNullOrWhiteSpace(Some(name)) ==>
        o == Fail(InvalidMetadataName) && metadata == old(metadata) && protectedNames == old(protectedNames)
      ensures !IsNullOrWhiteSpace(Some(name)) && IsNullOrWhiteSpace(value) ==>
        o == Fail(ArgumentNull(name)) && metadata == old(metadata) && protectedNames == old(protectedNames)
      ensures !IsNullOrWhiteSpace(Some(name)) && !IsNullOrWhiteSpace(value) ==>
        && o == Pass
        && metadata == old(metadata)[name := value]
        && protectedNames == old(protectedNames) + (if protectedMetadata then [name] else [])
    {
      if IsNullOrWhiteSpace(Some(name)) {
        return Fail(InvalidMetadataName);
      }
      if !IsNullOrWhiteSpace(value) {
        metadata := metadata[name := value];
        if protectedMetadata {
          protectedNames := protectedNames + [name];
        }
        o := Pass;
      } else {
        o := Fail(ArgumentNull(name));
      }
    }

    /** The state a successful construction leaves. */
    ghost predicate Seeded(origin: Origin, app: NString, comp: NString, extra: Extra)
      requires ConstructionError(origin, app, comp, extra).None?
      reads this
    {
      && ownsConfig == origin.FromInstrumentationKey? && clientConfig == ownsConfig
      && configReleases == 0 && !disposed
      && metadata == SeedMetadata(app.value, comp.value, ModuleOf(extra))
      && protectedNames == SeedNames(ModuleOf(extra))
      && metricNamespace == InitialNamespace(origin, app.value, comp.value, extra)
      && context == EmptyContext.(
           roleName := InitialRoleName(extra, InitialNamespace(origin, app.value, comp.value, extra)),
           roleInstance := InitialRoleInstance(extra))
      && traceParentVersion == 0 && traceParentFlags == 0 && sent == []
    }

    /**
     * The three-argument constructors: seed the protected Application and
     * Component entries, in that order, and set the namespace only when the
     * configuration is created from an instrumentation key.
     */
    method SeedBase(origin: Origin, app: NString, comp: NString) returns (o: Outcome<LoggerError>)
      requires metadata == map[] && protectedNames == [] && metricNamespace == None
      modifies this`metadata, this`protectedNames, this`metricNamespace
      ensures o.Fail? <==> IsNullOrWhiteSpace(app) || IsNullOrWhiteSpace(comp)
      ensures o.Fail? ==>
        o.error == (if IsNullOrWhiteSpace(app) then ArgumentNull("Application") else ArgumentNull("Component"))
      ensures o.Pass? ==>
        && metadata == SeedMetadata(app.value, comp.value, None) && protectedNames == SeedNames(None)
        && metricNamespace == InitialNamespace(origin, app.value, comp.value, Plain)
    {
      assert !IsNullOrWhiteSpace(Some("Application")) by { assert !IsWhiteSpace("Application"[0]); }
      assert !IsNullOrWhiteSpace(Some("Component")) by { assert !IsWhiteSpace("Component"[0]); }
      o := AddMetadataInternal("Application", app, true);
      if o.Fail? {
        return;
      }
      o := AddMetadataInternal("Component", comp, true);
      if o.Pass? && origin.FromInstrumentationKey? {
        metricNamespace := Some(Namespace(app.value, comp.value, None));
      }
    }

    /** Applies the module, role and instance arguments after the base entries are seeded. */
    method SeedExtra(origin: Origin, app: string, comp: string, extra: Extra) returns (o: Outcome<LoggerError>)
      requires metadata == SeedMetadata(app, comp, None) && protectedNames == SeedNames(None)
      requires metricNamespace == InitialNamespace(origin, app, comp, Plain)
      requires context == EmptyContext
      modifies this`metadata, this`protectedNames, this`metricNamespace, this`context
      ensures o.Fail? <==> ExtraError(extra).Some?
      ensures o.Fail? ==> o.error == ExtraError(extra).value
      ensures o.Pass? ==>
        && metadata == SeedMetadata(app, comp, ModuleOf(extra))
        && protectedNames == SeedNames(ModuleOf(extra))
        && metricNamespace == InitialNamespace(origin, app, comp, extra)
        && context == EmptyContext.(roleName := InitialRoleName(extra, metricNamespace),
                                    roleInstance := InitialRoleInstance(extra))
    {
      assert !IsNullOrWhiteSpace(Some("Module")) by { assert !IsWhiteSpace("Module"[0]); }
      o := Pass;
      match extra {
        case Plain =>
        case WithModule(m) =>
          o := AddMetadataInternal("Module", m, true);
          if o.Pass? {
            metricNamespace := Some(Namespace(app, comp, m));
          }
        case WithRole(role, instance) =>
          if role.None? {
            return Fail(ArgumentNull("Role"));
          }
          if instance.None? {
            return Fail(ArgumentNull("Instance"));
          }
          context := context.(roleName := role, roleInstance := instance);
        case FromSettings(m, role, instance) =>
          if m.Some? {
            o := AddMetadataInternal("Module", m, true);
            if o.Fail? {
              return;
            }
            metricNamespace := Some(Namespace(app, comp, m));
          }
          if !IsNullOrWhiteSpace(role) {
            context := context.(roleName := role);
          } else {
            context := context.(roleName := metricNamespace);
          }
          if !IsNullOrWhiteSpace(instance) {
            context := context.(roleName := instance);
          }
      }
    }

    /** The constructors: validate, seed the protected metadata, derive the namespace and the cloud role. */
    static method Create(origin: Origin, app: NString, comp: NString, extra: Extra)
      returns (r: Result<AiLogger, LoggerError>)
      ensures r.Failure? <==> ConstructionError(origin, app, comp, extra).Some?
      ensures r.Failure? ==> r.error == ConstructionError(origin, app, comp, extra).value
      ensures r.Success? ==> fresh(r.value) && r.value.Seeded(origin, app, comp, extra)
      ensures r.Success? ==> r.value.Valid()
    {
      if origin.FromInstrumentationKey? && origin.instrumentationKey.None? {
        return Failure(ArgumentNull("InstrumentationKey"));
      }
      var logger := new AiLogger.Init(origin.FromInstrumentationKey?);
      var o := logger.SeedBase(origin, app, comp);
      if o.Fail? {
        return Failure(o.error);
      }
      o := logger.SeedExtra(origin, app.value, comp.value, extra);
      if o.Fail? {
        return Failure(o.error);
      }
      SeedValid(app.value, comp.value, ModuleOf(extra));
      r := Success(logger);
    }

    /** Writes a metadata entry unless its name is, ignoring case, a protected one. */
    method AddMetadata(name: NString, value: NString) returns (o: Outcome<LoggerError>)
      requires Valid()
      modifies this`metadata
      ensures Valid() && ProtectedEntries() == old(ProtectedEntries())
      ensures name.Some? && IsProtected(protectedNames, name.value) ==>
        o == Fail(ProtectedMetadata(name.value)) && metadata == old(metadata)
      ensures name.None? ==> o == Fail(ArgumentNull("key")) && metadata == old(metadata)
      ensures name.Some? && !IsProtected(protectedNames, name.value) ==>
        o == Pass && metadata == old(metadata)[name.value := value]
    {
      if name.Some? && IsProtected(protectedNames, name.value) {
        return Fail(ProtectedMetadata(name.value));
      }
      if name.None? {
        return Fail(ArgumentNull("key"));
      }
      metadata := metadata[name.value := value];
      o := Pass;
    }

    /** Removes a metadata entry unless its name is, ignoring case, a protected one; an absent name is no error. */
    method RemoveMetadata(name: NString) returns (o: Outcome<LoggerError>)
      requires Valid()
      modifies this`metadata
      ensures Valid() && ProtectedEntries() == old(ProtectedEntries())
      ensures name.Some? && IsProtected(protectedNames, name.value) ==>
        o == Fail(ProtectedMetadata(name.value)) && metadata == old(metadata)
      ensures name.None? ==> o == Fail(ArgumentNull("key")) && metadata == old(metadata)
      ensures name.Some? && !IsProtected(protectedNames, name.value) ==>
        o == Pass && metadata == old(metadata) - {name.value}
    {
      if name.Some? && IsProtected(protectedNames, name.value) {
        return Fail(ProtectedMetadata(name.value));
      }
      if name.None? {
        return Fail(ArgumentNull("key"));
      }
      metadata := metadata - {name.value};
      o := Pass;
    }

    /** Removes every entry whose key is not, spelled exactly, a protected name. */
    method ResetMetadata()
      requires Valid()
      modifies this`metadata
      ensures Valid() && ProtectedEntries() == old(ProtectedEntries())
      ensures metadata == KeepProtected(old(metadata), protectedNames)
    {
      var keys := metadata.Keys;
      while keys != {}
        invariant keys <= old(metadata).Keys
        invariant metadata == map k | k in old(metadata) && (k in keys || k in protectedNames) :: old(metadata)[k]
        decreases keys
      {
        var key :| key in keys;
        if key !in protectedNames {
          metadata := metadata - {key};
        }
        keys := keys - {key};
      }
    }

    /** Stores the raw `tracestate` header as the ordinary entry TraceState. */
    method SetOperationState(traceStateHeader: NString)
      requires Valid()
      modifies this`metadata
      ensures Valid() && ProtectedEntries() == old(ProtectedEntries())
      ensures metadata == old(metadata)[TraceStateKey := traceStateHeader]
    {
      forall q | q in protectedNames
        ensures Fold(q) != Fold(TraceStateKey)
      {
        SeededFoldDistinct(q, TraceStateKey);
      }
      UpdateUnprotected(metadata, protectedNames, TraceStateKey, traceStateHeader);
      metadata := metadata[TraceStateKey := traceStateHeader];
    }

    /** Removes the TraceState entry, spelled exactly, if there is one. */
    method ClearOperationState()
      requires Valid()
      modifies this`metadata
      ensures Valid() && ProtectedEntries() == old(ProtectedEntries())
      ensures metadata == old(metadata) - {TraceStateKey}
    {
      if TraceStateKey in metadata {
        metadata := metadata - {TraceStateKey};
      }
    }

    /** Sets the operation context as given, without validation. */
    method SetOperationContext(traceId: NString, name: NString, parentId: NString)
      modifies this`context
      ensures context == old(context).(operationId := traceId, operationName := name, operationParentId := parentId)
    {
      context := context.(operationId := traceId, operationName := name, operationParentId := parentId);
    }

    /**
     * Sets the operation context from a `traceparent` header. The version and
     * flags fields are `out` arguments of `TryParse`, so a failed parse still
     * leaves zero in the field it was parsing into.
     */
    method SetOperationContextFromHeader(traceParentHeader: NString, name: NString) returns (o: Outcome<LoggerError>)
      modifies this`context, this`traceParentVersion, this`traceParentFlags
      ensures traceParentHeader.None? ==>
        && o == Fail(NullReference)
        && traceParentVersion == old(traceParentVersion) && traceParentFlags == old(traceParentFlags)
      ensures traceParentHeader.Some? ==> match Decode(traceParentHeader.value)
        case Success(f) =>
          && o == Pass
          && context == old(context).(operationId := Some(f.traceId), operationName := name,
                                      operationParentId := Some(f.parentId))
          && traceParentVersion == f.version && traceParentFlags == f.flags
        case Failure(fault) =>
          && o == Fail(InvalidHeader(fault))
          && (fault == WrongPartCount ==>
                traceParentVersion == old(traceParentVersion) && traceParentFlags == old(traceParentFlags))
          && (fault == InvalidVersion ==>
                traceParentVersion == 0 && traceParentFlags == old(traceParentFlags))
          && (fault == InvalidFlags ==>
                traceParentVersion == ParsedOrZero(Split(traceParentHeader.value, '-')[0]) && traceParentFlags == 0)
      ensures o.Fail? ==> context == old(context)
    {
      if traceParentHeader.None? {
        return Fail(NullReference);
      }
      var parts := Split(traceParentHeader.value, '-');
      if |parts| != 4 {
        return Fail(InvalidHeader(WrongPartCount));
      }
      var version := ParseHexInt32(parts[0]);
      traceParentVersion := version.GetOr(0);
      if version.None? {
        return Fail(InvalidHeader(InvalidVersion));
      }
      var flags := ParseHexInt32(parts[3]);
      traceParentFlags := flags.GetOr(0);
      if flags.None? {
        return Fail(InvalidHeader(InvalidFlags));
      }
      context := context.(operationId := Some(parts[1]), operationParentId := Some(parts[2]), operationName := name);
      o := Pass;
    }

    /** Clears the operation id, name and parent id; TraceState is left alone. */
    method ClearOperationContext()
      modifies this`context
      ensures context == old(context).(operationId := None, operationName := None, operationParentId := None)
    {
      context := context.(operationId := None, operationName := None, operationParentId := None);
    }

    method SetUserContext(id: NString, authenticatedId: NString, accountId: NString, agent: NString)
      modifies this`context
      ensures context == old(context).(userId := id, userAuthenticatedId := authenticatedId,
                                       userAccountId := accountId, userAgent := agent)
    {
      context := context.(userId := id, userAccountId := accountId);
      context := context.(userAuthenticatedId := authenticatedId, userAgent := agent);
    }

    method ClearUserContext()
      modifies this`context
      ensures context == old(context).(userId := None, userAuthenticatedId := None,
                                       userAccountId := None, userAgent := None)
    {
      context := context.(userId := None, userAccountId := None);
      context := context.(userAuthenticatedId := None, userAgent := None);
    }

    /** A caller map is usable when it has no two keys equal ignoring case. */
    predicate Accepts(caller: Option<Metadata>) {
      caller.None? || FoldUnique(caller.value)
    }

    /** The properties a trace, event or exception is sent with. */
    ghost predicate SentProperties(caller: Option<Metadata>, properties: Metadata)
      reads this`metadata
    {
      if caller.None? then properties == metadata else Merged(caller.value, metadata, properties)
    }

    /**
     * The properties of a trace, event or exception: without a caller map the
     * stored metadata itself; otherwise an ignore-case copy of the caller map
     * with every stored entry written over it.
     */
    method PropertiesFor(caller: Option<Metadata>) returns (r: Result<Metadata, LoggerError>)
      ensures caller.None? ==> r == Success(metadata)
      ensures caller.Some? && !FoldUnique(caller.value) ==> r == Failure(DuplicateKey)
      ensures caller.Some? && FoldUnique(caller.value) ==> r.Success? && Merged(caller.value, metadata, r.value)
    {
      if caller.None? {
        return Success(metadata);
      }
      if !FoldUnique(caller.value) {
        return Failure(DuplicateKey);
      }
      var data := caller.value;
      var pending := metadata.Keys;
      ghost var copied: Metadata := map[];
      MergedStart(caller.value);
      while pending != {}
        invariant CopiedFrom(metadata, pending, copied)
        invariant Merged(caller.value, copied, data)
        decreases pending
      {
        var key :| key in pending;
        CopiedStep(metadata, pending, copied, key);
        MergedStep(caller.value, copied, data, key, metadata[key]);
        data := SetIgnoreCase(data, key, metadata[key]);
        copied := copied[key := metadata[key]];
        pending := pending - {key};
      }
      CopiedAll(metadata, copied);
      r := Success(data);
    }

    method WriteTrace(message: string, severity: SeverityLevel, caller: Option<Metadata>) returns (o: Outcome<LoggerError>)
      modifies this`sent
      ensures o.Fail? <==> !Accepts(caller)
      ensures o.Fail? ==> o.error == DuplicateKey && sent == old(sent)
      ensures o.Pass? ==> exists p :: SentProperties(caller, p) && sent == old(sent) + [TraceRecord(message, severity, p)]
    {
      var properties := PropertiesFor(caller);
      if properties.Failure? {
        return Fail(properties.error);
      }
      sent := sent + [TraceRecord(message, severity, properties.value)];
      o := Pass;
    }

    method WriteEvent(eventName: string, caller: Option<Metadata>) returns (o: Outcome<LoggerError>)
      modifies this`sent
      ensures o.Fail? <==> !Accepts(caller)
      ensures o.Fail? ==> o.error == DuplicateKey && sent == old(sent)
      ensures o.Pass? ==> exists p :: SentProperties(caller, p) && sent == old(sent) + [EventRecord(eventName, p)]
    {
      var properties := PropertiesFor(caller);
      if properties.Failure? {
        return Fail(properties.error);
      }
      sent := sent + [EventRecord(eventName, properties.value)];
      o := Pass;
    }

    method WriteException(exception: ExceptionHandle, caller: Option<Metadata>) returns (o: Outcome<LoggerError>)
      modifies this`sent
      ensures o.Fail? <==> !Accepts(caller)
      ensures o.Fail? ==> o.error == DuplicateKey && sent == old(sent)
      ensures o.Pass? ==> exists p :: SentProperties(caller, p) && sent == old(sent) + [ExceptionRecord(exception, p)]
    {
      var properties := PropertiesFor(caller);
      if properties.Failure? {
        return Fail(properties.error);
      }
      sent := sent + [ExceptionRecord(exception, properties.value)];
      o := Pass;
    }

    /** A request record carries no metadata; the URL and id are attached only when non-empty. */
    method WriteRequest(name: string, start: Ticks, duration: Ticks, statusCode: string, isSuccess: bool,
                        url: NString, requestId: NString)
      modifies this`sent
      ensures sent == old(sent) + [RequestRecord(name, start, duration, statusCode, isSuccess,
                                                 if IsNullOrEmpty(url) then None else url,
                                                 if IsNullOrEmpty(requestId) then None else requestId)]
    {
      var attachedUrl: NString := None;
      var id: NString := None;
      if !IsNullOrEmpty(url) {
        attachedUrl := url;
      }
      if !IsNullOrEmpty(requestId) {
        id := requestId;
      }
      sent := sent + [RequestRecord(name, start, duration, statusCode, isSuccess, attachedUrl, id)];
    }

    /** A dependency record carries every stored entry; the result code only when not blank. */
    method WriteDependency(target: string, typeName: string, name: string, data: string,
                           start: Ticks, duration: Ticks, resultCode: NString, success: bool)
      modifies this`sent
      ensures sent == old(sent) + [DependencyRecord(target, typeName, name, data, start, duration,
                                                    if IsNullOrWhiteSpace(resultCode) then None else resultCode,
                                                    success, metadata)]
    {
      var code: NString := None;
      if !IsNullOrWhiteSpace(resultCode) {
        code := resultCode;
      }
      var properties: Metadata := map[];
      var pending := metadata.Keys;
      while pending != {}
        invariant pending <= metadata.Keys
        invariant properties == map k | k in metadata && k !in pending :: metadata[k]
        decreases pending
      {
        var key :| key in pending;
        properties := properties[key := metadata[key]];
        pending := pending - {key};
      }
      assert properties == metadata;
      sent := sent + [DependencyRecord(target, typeName, name, data, start, duration, code, success, properties)];
    }

    /** The metric identified by the logger's namespace and `name`. */
    function GetMetric(name: string): (id: MetricId)
      reads this`metricNamespace
      ensures id.ns == metricNamespace && id.name == name
    {
      MetricId(metricNamespace, name)
    }

    /** The metric under the namespace extended by `suffix`; a null or blank suffix extends nothing. */
    function GetMetricWithSuffix(name: string, suffix: NString): (id: MetricId)
      reads this`metricNamespace
      ensures IsNullOrWhiteSpace(suffix) ==> id == GetMetric(name)
      ensures !IsNullOrWhiteSpace(suffix) ==>
        id.name == name && id.ns == Some(Rendered(metricNamespace) + "." + suffix.value)
    {
      Identifier(metricNamespace, name, suffix)
    }

    /** `Dispose(disposing)`: the first call marks the logger disposed and, when disposing, releases the owned configuration. */
    method DisposeCore(disposing: bool)
      requires ConfigValid()
      modifies this`clientConfig, this`configReleases, this`disposed
      ensures ConfigValid() && disposed
      ensures old(disposed) || !disposing ==>
        clientConfig == old(clientConfig) && configReleases == old(configReleases)
      ensures !old(disposed) && disposing ==>
        !clientConfig && configReleases == old(configReleases) + (if old(clientConfig) then 1 else 0)
    {
      if !disposed {
        if disposing {
          if clientConfig {
            configReleases := configReleases + 1;
            clientConfig := false;
          }
        }
        disposed := true;
      }
    }

    /** `Dispose()`: idempotent; the owned configuration is released once, a shared one never. */
    method Dispose()
      requires ConfigValid()
      modifies this`clientConfig, this`configReleases, this`disposed
      ensures ConfigValid() && disposed && configReleases <= 1
      ensures old(disposed) ==> clientConfig == old(clientConfig) && configReleases == old(configReleases)
      ensures !old(disposed) ==> !clientConfig && configReleases == (if ownsConfig then 1 else 0)
    {
      DisposeCore(true);
    }
  }
}
