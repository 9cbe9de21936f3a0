/**
 * Metric namespaces and identifiers: every metric is looked up under the
 * namespace `Application.Component[.Module]`, optionally extended per call by
 * `.Suffix`, and the metric's own name.
 */
module MetricNames {
  import opened Wrappers
  import opened Text

  /** The `(namespace, name)` pair a metric is looked up by; the namespace may be null. */
  datatype MetricId = MetricId(ns: NString, name: string)

  /** `$"{Application}.{Component}"`, or `$"{Application}.{Component}.{Module}"` when a module is given. */
  function Namespace(app: string, comp: string, moduleName: Option<string>): (r: string)
    ensures |r| == |app| + 1 + |comp| + (if moduleName.Some? then 1 + |moduleName.value| else 0)
    ensures r[..|app|] == app && r[|app|] == '.'
    ensures moduleName.None? ==> r[|r| - |comp|..] == comp
    ensures moduleName.Some? ==> r[|r| - |moduleName.value| - 1..] == "." + moduleName.value
  {
    match moduleName
    case None => app + "." + comp
    case Some(m) => app + "." + comp + "." + m
  }

  /** String interpolation renders a null reference as the empty string. */
  function Rendered(s: NString): string {
    s.GetOr("")
  }

  /** The identifier `GetMetric(name, suffix)` looks up under namespace `ns`. */
  function Identifier(ns: NString, name: string, suffix: NString): (r: MetricId)
    ensures r.name == name
    ensures r.ns == ns <==> IsNullOrWhiteSpace(suffix)
    ensures !IsNullOrWhiteSpace(suffix) ==> r.ns.Some? && |r.ns.value| == |Rendered(ns)| + 1 + |suffix.value|
  {
    if IsNullOrWhiteSpace(suffix) then MetricId(ns, name)
    else MetricId(Some(Rendered(ns) + "." + suffix.value), name)
  }

  /** The dimensions a namespace is built from, in order. */
  function Dimensions(app: string, comp: string, moduleName: Option<string>): seq<string> {
    match moduleName
    case None => [app, comp]
    case Some(m) => [app, comp, m]
  }

  predicate DotFree(s: string) {
    '.' !in s
  }

  lemma NamespaceIsJoin(app: string, comp: string, moduleName: Option<string>)
    ensures Join(Dimensions(app, comp, moduleName), '.') == Namespace(app, comp, moduleName)
  {
    JoinAppend([app], comp, '.');
    if moduleName.Some? {
      JoinAppend([app, comp], moduleName.value, '.');
    }
  }

  /** A namespace splits on '.' back into its dot-free dimensions. */
  lemma NamespaceSegments(app: string, comp: string, moduleName: Option<string>)
    requires DotFree(app) && DotFree(comp) && (moduleName.Some? ==> DotFree(moduleName.value))
    ensures Split(Namespace(app, comp, moduleName), '.') == Dimensions(app, comp, moduleName)
  {
    var d := Dimensions(app, comp, moduleName);
    forall i | 0 <= i < |d| ensures '.' !in d[i] { }
    SplitJoin(d, '.');
    NamespaceIsJoin(app, comp, moduleName);
  }

  /** Dot-free dimensions are recovered from the namespace: distinct dimensions give distinct namespaces. */
  lemma NamespaceInjective(app: string, comp: string, moduleName: Option<string>,
                           app': string, comp': string, moduleName': Option<string>)
    requires DotFree(app) && DotFree(comp) && (moduleName.Some? ==> DotFree(moduleName.value))
    requires DotFree(app') && DotFree(comp') && (moduleName'.Some? ==> DotFree(moduleName'.value))
    requires Namespace(app, comp, moduleName) == Namespace(app', comp', moduleName')
    ensures app == app' && comp == comp' && moduleName == moduleName'
  {
    NamespaceSegments(app, comp, moduleName);
    NamespaceSegments(app', comp', moduleName');
    var d, d' := Dimensions(app, comp, moduleName), Dimensions(app', comp', moduleName');
    assert d == d';
    assert |d| == |d'|;
  }

  /** A null or white-space suffix looks up the same identifier as no suffix. */
  lemma BlankSuffixIgnored(ns: NString, name: string, suffix: NString)
    requires IsNullOrWhiteSpace(suffix)
    ensures Identifier(ns, name, suffix) == Identifier(ns, name, None) == MetricId(ns, name)
  {
  }

  /** A real suffix becomes one more dimension of the namespace; the name is kept apart. */
  lemma SuffixSegments(app: string, comp: string, moduleName: Option<string>, name: string, suffix: string)
    requires DotFree(app) && DotFree(comp) && (moduleName.Some? ==> DotFree(moduleName.value))
    requires DotFree(suffix) && !IsNullOrWhiteSpace(Some(suffix))
    ensures var id := Identifier(Some(Namespace(app, comp, moduleName)), name, Some(suffix));
      && id.name == name && id.ns.Some?
      && Split(id.ns.value, '.') == Dimensions(app, comp, moduleName) + [suffix]
  {
    var d := Dimensions(app, comp, moduleName) + [suffix];
    forall i | 0 <= i < |d| ensures '.' !in d[i] { }
    SplitJoin(d, '.');
    JoinAppend(Dimensions(app, comp, moduleName), suffix, '.');
    NamespaceIsJoin(app, comp, moduleName);
  }

  /** With no namespace at all, a suffixed identifier's namespace is the suffix behind a bare '.'. */
  lemma NullNamespaceSuffix(name: string, suffix: string)
    requires !IsNullOrWhiteSpace(Some(suffix))
    ensures Identifier(None, name, Some(suffix)) == MetricId(Some("." + suffix), name)
  {
    assert Rendered(None) + "." + suffix == "." + suffix;
  }
}
