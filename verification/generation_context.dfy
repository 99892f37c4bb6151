/** The shared state of one source-generation run: every generator reads the
    package name, analyzer and configuration from it and records excluded
    resources, diagnostics, classes needed at compile time and side-channel
    values in it. Each mutation is a pure update of an immutable record. */
module GenerationContext {
  import opened Wrappers
  import opened StringOrder

  /** The deployment runtime a run targets. */
  datatype Runtime = Jit | Native

  /** Run parameters: raw option values and the target runtime. How values
      are parsed is not part of this model. */
  datatype Configuration = Configuration(values: map<string, string>, runtime: Runtime)

  /** Facts about the application computed before generation; opaque here. */
  datatype Analyzer = Analyzer(facts: map<string, string>)

  /** A loaded class. Classes are compared by identity, so two classes of the
      same name defined by different loaders are different classes. */
  datatype ClassRef = ClassRef(loader: nat, name: string)

  /** A directory or archive on the compilation classpath. */
  datatype Location = Location(path: string)

  /** The class token a side-channel value is stored under, compared by class
      identity like the keys of the underlying map. */
  datatype TypeTag = TypeTag(cls: ClassRef)

  /** A side-channel value. The union's tag replaces the unchecked cast of
      the typed accessor; no run-time check relates it to the `TypeTag`. */
  datatype Value =
    | Text(text: string)
    | Texts(items: seq<string>)
    | Flag(flag: bool)
    | Number(number: int)

  datatype Context = Context(
    packageName: string,
    analyzer: Analyzer,
    configuration: Configuration,
    excludedResources: SortedStrings,
    diagnostics: map<string, seq<string>>,
    classesRequiredAtCompilation: set<ClassRef>,
    store: map<TypeTag, Value>)

  /** A context as the pipeline creates it at the start of a run. */
  function NewContext(packageName: string, analyzer: Analyzer, configuration: Configuration): (ctx: Context)
    ensures ctx.packageName == packageName
    ensures ctx.analyzer == analyzer
    ensures ctx.configuration == configuration
    ensures Elements(ctx.excludedResources) == {}
    ensures ctx.diagnostics == map[]
    ensures forall c :: Messages(ctx, c) == []
    ensures ctx.classesRequiredAtCompilation == {}
    ensures forall t :: Get(ctx, t) == None
  {
    Context(packageName, analyzer, configuration, [], map[], {}, map[])
  }

  function GetRuntime(ctx: Context): (runtime: Runtime)
  {
    ctx.configuration.runtime
  }

  /** The messages recorded under `category`, oldest first. */
  function Messages(ctx: Context, category: string): (messages: seq<string>)
  {
    if category in ctx.diagnostics then ctx.diagnostics[category] else []
  }

  /** Excludes `path` from the final binary; the exclusions stay sorted. */
  function RegisterExcludedResource(ctx: Context, path: string): (r: Context)
    ensures Elements(r.excludedResources) == Elements(ctx.excludedResources) + {path}
    ensures path in ctx.excludedResources ==> r == ctx
    ensures r == ctx.(excludedResources := r.excludedResources)
  {
    ctx.(excludedResources := Insert(ctx.excludedResources, path))
  }

  function RegisterClassNeededAtCompileTime(ctx: Context, cls: ClassRef): (r: Context)
    ensures r.classesRequiredAtCompilation == ctx.classesRequiredAtCompilation + {cls}
    ensures r == ctx.(classesRequiredAtCompilation := r.classesRequiredAtCompilation)
  {
    ctx.(classesRequiredAtCompilation := ctx.classesRequiredAtCompilation + {cls})
  }

  /** Appends `message` to the list of `category`, creating the list on first use. */
  function AddDiagnostics(ctx: Context, category: string, message: string): (r: Context)
    ensures r.diagnostics.Keys == ctx.diagnostics.Keys + {category}
    ensures Messages(r, category) == Messages(ctx, category) + [message]
    ensures forall c :: c != category ==> Messages(r, c) == Messages(ctx, c)
    ensures r == ctx.(diagnostics := r.diagnostics)
  {
    ctx.(diagnostics := ctx.diagnostics[category := Messages(ctx, category) + [message]])
  }

  /** Stores `value` under `tag`, replacing whatever was stored there. */
  function Put(ctx: Context, tag: TypeTag, value: Value): (r: Context)
    ensures Get(r, tag) == Some(value)
    ensures forall t :: t != tag ==> Get(r, t) == Get(ctx, t)
    ensures r == ctx.(store := r.store)
  {
    ctx.(store := ctx.store[tag := value])
  }

  /** The value stored under `tag`, or `None` when nothing was stored. */
  function Get(ctx: Context, tag: TypeTag): (stored: Option<Value>)
  {
    if tag in ctx.store then Some(ctx.store[tag]) else None
  }

  lemma RegisterExcludedResourceIdempotent(ctx: Context, path: string)
    ensures RegisterExcludedResource(RegisterExcludedResource(ctx, path), path)
         == RegisterExcludedResource(ctx, path)
  {
  }

  /** The exclusions are a set: the order of two registrations is invisible,
      even in the iteration order. */
  lemma RegisterExcludedResourceCommutes(ctx: Context, p: string, q: string)
    ensures RegisterExcludedResource(RegisterExcludedResource(ctx, p), q)
         == RegisterExcludedResource(RegisterExcludedResource(ctx, q), p)
  {
    var a := RegisterExcludedResource(RegisterExcludedResource(ctx, p), q);
    var b := RegisterExcludedResource(RegisterExcludedResource(ctx, q), p);
    SortedUnique(a.excludedResources, b.excludedResources);
  }

  lemma RegisterClassIdempotent(ctx: Context, cls: ClassRef)
    ensures RegisterClassNeededAtCompileTime(RegisterClassNeededAtCompileTime(ctx, cls), cls)
         == RegisterClassNeededAtCompileTime(ctx, cls)
  {
  }

  lemma PutOverwrites(ctx: Context, tag: TypeTag, v1: Value, v2: Value)
    ensures Get(Put(Put(ctx, tag, v1), tag, v2), tag) == Some(v2)
    ensures Put(Put(ctx, tag, v1), tag, v2) == Put(ctx, tag, v2)
  {
  }

  // ---------------------------------------------------------------------
  // Runs: a generation run is a sequence of mutations of one context.
  // ---------------------------------------------------------------------

  datatype Mutation =
    | ExcludeResource(path: string)
    | RequireClass(cls: ClassRef)
    | Diagnose(category: string, message: string)
    | Store(tag: TypeTag, value: Value)

  function Apply(ctx: Context, m: Mutation): (r: Context)
  {
    match m
    case ExcludeResource(p) => RegisterExcludedResource(ctx, p)
    case RequireClass(c) => RegisterClassNeededAtCompileTime(ctx, c)
    case Diagnose(c, msg) => AddDiagnostics(ctx, c, msg)
    case Store(t, v) => Put(ctx, t, v)
  }

  /** Applies the mutations in order; none of them touches the fields fixed
      at construction. */
  function ApplyAll(ctx: Context, ms: seq<Mutation>): (r: Context)
    ensures r.packageName == ctx.packageName
    ensures r.analyzer == ctx.analyzer
    ensures r.configuration == ctx.configuration
    ensures GetRuntime(r) == GetRuntime(ctx)
    decreases |ms|
  {
    if |ms| == 0 then ctx else Apply(ApplyAll(ctx, ms[..|ms| - 1]), ms[|ms| - 1])
  }

  /** The paths a run excludes. */
  function ExcludedPaths(ms: seq<Mutation>): (paths: set<string>)
  {
    set m | m in ms && m.ExcludeResource? :: m.path
  }

  /** The classes a run requires. */
  function RequiredClasses(ms: seq<Mutation>): (classes: set<ClassRef>)
  {
    set m | m in ms && m.RequireClass? :: m.cls
  }

  /** The messages a run records under `category`, in call order. */
  function MessagesIn(ms: seq<Mutation>, category: string): (messages: seq<string>)
  {
    if |ms| == 0 then []
    else if ms[0].Diagnose? && ms[0].category == category then [ms[0].message] + MessagesIn(ms[1..], category)
    else MessagesIn(ms[1..], category)
  }

  /** The value of the last `Store` into `tag` in a run, if any. */
  function LastStored(ms: seq<Mutation>, tag: TypeTag): (stored: Option<Value>)
  {
    if |ms| == 0 then None
    else if ms[|ms| - 1].Store? && ms[|ms| - 1].tag == tag then Some(ms[|ms| - 1].value)
    else LastStored(ms[..|ms| - 1], tag)
  }

  lemma MessagesInSnoc(ms: seq<Mutation>, m: Mutation, category: string)
    ensures MessagesIn(ms + [m], category)
         == MessagesIn(ms, category) + (if m.Diagnose? && m.category == category then [m.message] else [])
  {
    if |ms| > 0 {
      assert (ms + [m])[1..] == ms[1..] + [m];
      MessagesInSnoc(ms[1..], m, category);
    }
  }

  /** After a run, the exclusions are the initial ones plus every excluded path. */
  lemma {:induction false} RunExcludedResources(ctx: Context, ms: seq<Mutation>)
    ensures Elements(ApplyAll(ctx, ms).excludedResources) == Elements(ctx.excludedResources) + ExcludedPaths(ms)
    decreases |ms|
  {
    if |ms| > 0 {
      var init := ms[..|ms| - 1];
      RunExcludedResources(ctx, init);
      assert ms == init + [ms[|ms| - 1]];
      assert ExcludedPaths(ms) == ExcludedPaths(init)
          + (if ms[|ms| - 1].ExcludeResource? then {ms[|ms| - 1].path} else {});
    }
  }

  /** The exclusion list depends only on which paths were registered, not on
      their order, their repetitions or the other mutations of the run. */
  lemma RunExclusionsOrderIndependent(ctx: Context, ms1: seq<Mutation>, ms2: seq<Mutation>)
    requires ExcludedPaths(ms1) == ExcludedPaths(ms2)
    ensures ApplyAll(ctx, ms1).excludedResources == ApplyAll(ctx, ms2).excludedResources
  {
    RunExcludedResources(ctx, ms1);
    RunExcludedResources(ctx, ms2);
    SortedUnique(ApplyAll(ctx, ms1).excludedResources, ApplyAll(ctx, ms2).excludedResources);
  }

  /** After a run, the required classes are the initial ones plus every required class. */
  lemma {:induction false} RunRequiredClasses(ctx: Context, ms: seq<Mutation>)
    ensures ApplyAll(ctx, ms).classesRequiredAtCompilation
         == ctx.classesRequiredAtCompilation + RequiredClasses(ms)
    decreases |ms|
  {
    if |ms| > 0 {
      var init := ms[..|ms| - 1];
      RunRequiredClasses(ctx, init);
      assert ms == init + [ms[|ms| - 1]];
      assert RequiredClasses(ms) == RequiredClasses(init)
          + (if ms[|ms| - 1].RequireClass? then {ms[|ms| - 1].cls} else {});
    }
  }

  lemma ApplyMessages(ctx: Context, m: Mutation, category: string)
    ensures Messages(Apply(ctx, m), category)
         == Messages(ctx, category) + (if m.Diagnose? && m.category == category then [m.message] else [])
  {
  }

  /** Diagnostics are append-only: each category lists its messages in call order. */
  lemma {:induction false} RunDiagnostics(ctx: Context, ms: seq<Mutation>, category: string)
    ensures Messages(ApplyAll(ctx, ms), category) == Messages(ctx, category) + MessagesIn(ms, category)
    decreases |ms|
  {
    if |ms| > 0 {
      var init, last := ms[..|ms| - 1], ms[|ms| - 1];
      RunDiagnostics(ctx, init, category);
      ApplyMessages(ApplyAll(ctx, init), last, category);
      assert ms == init + [last];
      MessagesInSnoc(init, last, category);
    }
  }

  /** Three calls to `addDiagnostics` on a fresh context, two of them in one category. */
  lemma DiagnosticsExample(packageName: string, analyzer: Analyzer, configuration: Configuration)
    ensures var ctx := ApplyAll(NewContext(packageName, analyzer, configuration),
                                [Diagnose("cat", "m1"), Diagnose("cat", "m2"), Diagnose("other", "m3")]);
            Messages(ctx, "cat") == ["m1", "m2"] && Messages(ctx, "other") == ["m3"]
  {
    var ms := [Diagnose("cat", "m1"), Diagnose("cat", "m2"), Diagnose("other", "m3")];
    var ctx0 := NewContext(packageName, analyzer, configuration);
    RunDiagnostics(ctx0, ms, "cat");
    RunDiagnostics(ctx0, ms, "other");
    assert ms[1..][1..][1..] == [];
  }

  /** The side channel holds the last value stored under each tag; a tag that
      the run never stores into keeps its initial content. */
  lemma {:induction false} RunSideChannel(ctx: Context, ms: seq<Mutation>, tag: TypeTag)
    ensures Get(ApplyAll(ctx, ms), tag)
         == if LastStored(ms, tag).Some? then LastStored(ms, tag) else Get(ctx, tag)
    decreases |ms|
  {
    if |ms| > 0 {
      RunSideChannel(ctx, ms[..|ms| - 1], tag);
    }
  }

  /** `get` on a tag that nothing was ever put under yields no value. */
  lemma NeverStoredIsAbsent(packageName: string, analyzer: Analyzer, configuration: Configuration,
                            ms: seq<Mutation>, tag: TypeTag)
    requires forall m :: m in ms ==> !(m.Store? && m.tag == tag)
    ensures Get(ApplyAll(NewContext(packageName, analyzer, configuration), ms), tag) == None
  {
  }

  // ---------------------------------------------------------------------
  // The extra compilation classpath.
  // ---------------------------------------------------------------------

  /** `order` lists every element of `s` exactly once: the unspecified
      iteration order of the class set. */
  ghost predicate IsEnumeration(order: seq<ClassRef>, s: set<ClassRef>)
  {
    Distinct(order) && forall c :: c in order <==> c in s
  }

  predicate Distinct(order: seq<ClassRef>)
  {
    forall i, j :: 0 <= i < j < |order| ==> order[i] != order[j]
  }

  /** The classes of `s` whose location resolves to `l`. */
  function LocatedAt(s: set<ClassRef>, locate: ClassRef -> Option<Location>, l: Location): (located: set<ClassRef>)
  {
    set c | c in s && locate(c) == Some(l)
  }

  /** The resolvable locations of `order`, in order, one entry per class. */
  function Locations(order: seq<ClassRef>, locate: ClassRef -> Option<Location>): (r: seq<Location>)
    ensures |r| <= |order|
    ensures forall l :: l in r <==> exists c :: c in order && locate(c) == Some(l)
  {
    if |order| == 0 then []
    else
      var rest := Locations(order[1..], locate);
      assert forall c :: c in order <==> c == order[0] || c in order[1..];
      match locate(order[0])
      case Some(l) => [l] + rest
      case None => rest
  }

  /** Splits the classes of `order` located at `l` into the head and the rest. */
  lemma LocatedSplit(order: seq<ClassRef>, locate: ClassRef -> Option<Location>, l: Location)
    requires |order| > 0 && order[0] !in order[1..]
    ensures var all := set c | c in order && locate(c) == Some(l);
            var rest := set c | c in order[1..] && locate(c) == Some(l);
            && order[0] !in rest
            && all == rest + (if locate(order[0]) == Some(l) then {order[0]} else {})
  {
  }

  lemma DistinctTail(order: seq<ClassRef>)
    requires |order| > 0 && Distinct(order)
    ensures Distinct(order[1..]) && order[0] !in order[1..]
  {
  }

  lemma {:induction false} LocationsCount(order: seq<ClassRef>, locate: ClassRef -> Option<Location>, l: Location)
    requires Distinct(order)
    ensures multiset(Locations(order, locate))[l] == |set c | c in order && locate(c) == Some(l)|
    decreases |order|
  {
    if |order| > 0 {
      var tail := order[1..];
      DistinctTail(order);
      LocationsCount(tail, locate, l);
      LocatedSplit(order, locate, l);
      var rest := set c | c in tail && locate(c) == Some(l);
      if locate(order[0]) == Some(l) {
        assert Locations(order, locate) == [l] + Locations(tail, locate);
        assert |rest + {order[0]}| == |rest| + 1;
      } else {
        assert multiset(Locations(order, locate))[l] == multiset(Locations(tail, locate))[l];
      }
    }
  }

  lemma {:induction false} DistinctCardinality(order: seq<ClassRef>)
    requires Distinct(order)
    ensures |set c | c in order| == |order|
    decreases |order|
  {
    if |order| > 0 {
      DistinctTail(order);
      DistinctCardinality(order[1..]);
      assert (set c | c in order) == (set c | c in order[1..]) + {order[0]};
    }
  }

  /** The extra classpath: one entry per registered class whose location
      resolves, duplicates kept; unresolvable classes are dropped. */
  function GetExtraClasspath(ctx: Context, order: seq<ClassRef>, locate: ClassRef -> Option<Location>): (r: seq<Location>)
    requires IsEnumeration(order, ctx.classesRequiredAtCompilation)
    ensures |r| <= |ctx.classesRequiredAtCompilation|
    ensures forall l :: l in r <==> exists c :: c in ctx.classesRequiredAtCompilation && locate(c) == Some(l)
    ensures forall l :: multiset(r)[l] == |LocatedAt(ctx.classesRequiredAtCompilation, locate, l)|
  {
    DistinctCardinality(order);
    assert (set c | c in order) == ctx.classesRequiredAtCompilation;
    var r := Locations(order, locate);
    forall l
      ensures multiset(r)[l] == |LocatedAt(ctx.classesRequiredAtCompilation, locate, l)|
    {
      LocationsCount(order, locate, l);
      assert (set c | c in order && locate(c) == Some(l)) == LocatedAt(ctx.classesRequiredAtCompilation, locate, l);
    }
    r
  }

  /** Two different classes loaded from one location each contribute an entry. */
  lemma SharedLocationListedTwice(ctx: Context, order: seq<ClassRef>, locate: ClassRef -> Option<Location>,
                                  c1: ClassRef, c2: ClassRef, l: Location)
    requires IsEnumeration(order, ctx.classesRequiredAtCompilation)
    requires c1 in ctx.classesRequiredAtCompilation && c2 in ctx.classesRequiredAtCompilation && c1 != c2
    requires locate(c1) == Some(l) && locate(c2) == Some(l)
    ensures multiset(GetExtraClasspath(ctx, order, locate))[l] >= 2
  {
    var at := LocatedAt(ctx.classesRequiredAtCompilation, locate, l);
    var pair := {c1, c2};
    assert pair <= at;
    assert at == pair + (at - pair);
    assert |at| == |pair| + |at - pair|;
  }

  /** Where a class's protection domain says the class was loaded from. */
  datatype Origin =
    | NoCodeSource                      // the domain has no code source (bootstrap classes)
    | CodeSource(url: Option<string>)   // the code source's location, which may be absent

  /** The location a class resolves to once its origin is known: `toFile`
      gives `None` when the URL cannot be turned into a file. Classes with
      no code source or no location resolve to nothing. */
  function Resolve(origin: ClassRef -> Origin, toFile: string -> Option<Location>): (locate: ClassRef -> Option<Location>)
  {
    c => match origin(c)
         case NoCodeSource => None
         case CodeSource(None) => None
         case CodeSource(Some(u)) => toFile(u)
  }

  /** The failure `getExtraClasspath` can raise. */
  datatype Fault = NullPointer

  /** The stream pipeline as written: the code source is dereferenced
      outside the guarded conversion, so a class without one raises. */
  function LocationsAsWritten(order: seq<ClassRef>, origin: ClassRef -> Origin, toFile: string -> Option<Location>)
    : (r: Result<seq<Location>, Fault>)
    ensures r.Failure? <==> exists c :: c in order && origin(c).NoCodeSource?
    ensures r.Success? ==> r.value == Locations(order, Resolve(origin, toFile))
  {
    if |order| == 0 then Success([])
    else if origin(order[0]).NoCodeSource? then Failure(NullPointer)
    else
      assert forall c :: c in order <==> c == order[0] || c in order[1..];
      match LocationsAsWritten(order[1..], origin, toFile)
      case Failure(e) => Failure(e)
      case Success(rest) =>
        Success((match Resolve(origin, toFile)(order[0]) case Some(l) => [l] case None => []) + rest)
  }

  function GetExtraClasspathAsWritten(ctx: Context, order: seq<ClassRef>, origin: ClassRef -> Origin,
                                      toFile: string -> Option<Location>): (r: Result<seq<Location>, Fault>)
    requires IsEnumeration(order, ctx.classesRequiredAtCompilation)
    ensures r.Failure? <==> exists c :: c in ctx.classesRequiredAtCompilation && origin(c).NoCodeSource?
    ensures r.Success? ==> r.value == GetExtraClasspath(ctx, order, Resolve(origin, toFile))
  {
    LocationsAsWritten(order, origin, toFile)
  }

  /** Registering a class that has no code source (any class of the
      bootstrap loader, such as `java.lang.String`) makes the pipeline as
      written fail, where dropping the class yields an empty classpath. */
  lemma BootstrapClassFailsAsWritten(packageName: string, analyzer: Analyzer, configuration: Configuration,
                                     toFile: string -> Option<Location>)
    ensures var cls := ClassRef(0, "java.lang.String");
            var ctx := RegisterClassNeededAtCompileTime(NewContext(packageName, analyzer, configuration), cls);
            var origin := (c: ClassRef) => NoCodeSource;
            && IsEnumeration([cls], ctx.classesRequiredAtCompilation)
            && GetExtraClasspathAsWritten(ctx, [cls], origin, toFile) == Failure(NullPointer)
            && GetExtraClasspath(ctx, [cls], Resolve(origin, toFile)) == []
  {
  }

  /** Registering a class twice still yields its location once, when no
      other registered class shares the location. */
  lemma RegisteredTwiceListedOnce(ctx: Context, cls: ClassRef, order: seq<ClassRef>,
                                  locate: ClassRef -> Option<Location>, l: Location)
    requires locate(cls) == Some(l)
    requires forall c :: c in ctx.classesRequiredAtCompilation && c != cls ==> locate(c) != Some(l)
    requires IsEnumeration(order, RegisterClassNeededAtCompileTime(RegisterClassNeededAtCompileTime(ctx, cls), cls)
                                    .classesRequiredAtCompilation)
    ensures multiset(GetExtraClasspath(RegisterClassNeededAtCompileTime(RegisterClassNeededAtCompileTime(ctx, cls), cls),
                                       order, locate))[l] == 1
  {
    var twice := RegisterClassNeededAtCompileTime(RegisterClassNeededAtCompileTime(ctx, cls), cls);
    assert LocatedAt(twice.classesRequiredAtCompilation, locate, l) == {cls};
  }
}
