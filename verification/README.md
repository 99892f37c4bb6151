# Micronaut AOT: generation context and known-missing-types generator

A Dafny model of two pieces of the ahead-of-time source generation core of
Micronaut AOT.

* **The source generation context** (`DefaultSourceGenerationContext`): the
  one piece of state every generator of a run shares. It holds the package
  name, the analyzer and the configuration, which never change. It also holds
  four collections that generators add to: the excluded resources (a
  `TreeSet`, so they are kept sorted), the diagnostics (a list of messages per
  category), the classes needed at compile time (a set), and a side channel
  with one value per class token. The model is an immutable record
  (`GenerationContext.Context`) with one pure update function per mutator. A
  run is a sequence of `Mutation`s folded over a context by `ApplyAll`. Lemmas
  relate the state after a run to simple descriptions of the run: which paths
  it excluded, which messages it logged per category, and the last value it
  stored under each tag. The extra classpath is derived from the class set
  through an abstract `locate` function.
* **The known-missing-types generator** (`KnownMissingTypesSourceGenerator`).
  It probes each configured type name with the class loader, modelled as an
  oracle `probe: string -> Probe`. It keeps, in input order, the names whose
  probe fails with "class not found" or "no class definition found". It then
  emits a static initializer made of a small statement datatype: declare the
  set, add one entry per missing name, install the set. Any other probe error
  aborts the generator.

Files: `wrappers.dfy` (`Option`, `Result`), `string_order.dfy` (the order of
`String.compareTo`, sorted duplicate-free sequences as a `TreeSet` iterates
them, sorted insertion), `generation_context.dfy`, `known_missing_types.dfy`.

The `try`/`catch` around the URI conversion
(`DefaultSourceGenerationContext.java:113-117`) drops a class whose URL does
not convert, or that has no location. A class with no code source is not
dropped: `CodeSource::getLocation` at line 111 is applied to a null code
source outside the `try` and throws. The model keeps both behaviours: the
code as written (`GetExtraClasspathAsWritten`) and the variant that drops such
classes too (`GetExtraClasspath`); see "## Findings".

## Model

| member | source | states |
|---|---|---|
| `GenerationContext.NewContext` | aot-core/src/main/java/io/micronaut/aot/core/sourcegen/DefaultSourceGenerationContext.java:55-69 | a new context keeps the given package name, analyzer and configuration and starts with no exclusions, an empty diagnostics map (no categories), no required classes and no side-channel values |
| `GenerationContext.ApplyAll` | aot-core/src/main/java/io/micronaut/aot/core/sourcegen/DefaultSourceGenerationContext.java:55-81 | no sequence of mutations changes the package name, analyzer or configuration, so the runtime reported stays the configuration's runtime |
| `GenerationContext.RegisterExcludedResource` | aot-core/src/main/java/io/micronaut/aot/core/sourcegen/DefaultSourceGenerationContext.java:96-98 | the excluded set becomes the old set plus the path; an already excluded path leaves the context unchanged; nothing but the exclusions changes |
| `GenerationContext.RegisterExcludedResourceIdempotent` | aot-core/src/main/java/io/micronaut/aot/core/sourcegen/DefaultSourceGenerationContext.java:96-98 | registering the same path twice equals registering it once |
| `GenerationContext.RegisterExcludedResourceCommutes` | aot-core/src/main/java/io/micronaut/aot/core/sourcegen/DefaultSourceGenerationContext.java:123-127 | two registrations in either order give the same context, including the same iteration order of the exclusions |
| `GenerationContext.RunExcludedResources` | aot-core/src/main/java/io/micronaut/aot/core/sourcegen/DefaultSourceGenerationContext.java:96-98 | after a run the excluded set is the initial set plus every path the run excluded |
| `GenerationContext.RunExclusionsOrderIndependent` | aot-core/src/main/java/io/micronaut/aot/core/sourcegen/DefaultSourceGenerationContext.java:123-127 | two runs that exclude the same set of paths yield the same sorted exclusion list, whatever the order or repetition of calls |
| `StringOrder.Insert` | aot-core/src/main/java/io/micronaut/aot/core/sourcegen/DefaultSourceGenerationContext.java:97 | adding to the sorted set keeps it strictly sorted, its elements become old plus the new one, a present element leaves it unchanged, a new one grows it by one |
| `StringOrder.SortedDistinct` | aot-core/src/main/java/io/micronaut/aot/core/sourcegen/DefaultSourceGenerationContext.java:57 | the sorted exclusion list holds no element twice |
| `StringOrder.SortedUnique` | aot-core/src/main/java/io/micronaut/aot/core/sourcegen/DefaultSourceGenerationContext.java:57 | a set of strings has exactly one strictly sorted, duplicate-free enumeration |
| `GenerationContext.RegisterClassNeededAtCompileTime` | aot-core/src/main/java/io/micronaut/aot/core/sourcegen/DefaultSourceGenerationContext.java:101-103 | the class set becomes the old set plus the class; nothing else changes |
| `GenerationContext.RegisterClassIdempotent` | aot-core/src/main/java/io/micronaut/aot/core/sourcegen/DefaultSourceGenerationContext.java:101-103 | registering a class twice equals registering it once |
| `GenerationContext.RunRequiredClasses` | aot-core/src/main/java/io/micronaut/aot/core/sourcegen/DefaultSourceGenerationContext.java:59-103 | after a run the class set is the initial set plus every class the run required |
| `GenerationContext.AddDiagnostics` | aot-core/src/main/java/io/micronaut/aot/core/sourcegen/DefaultSourceGenerationContext.java:136-138 | the category exists afterwards; its list is the old list (empty if absent) with the message appended; every other category keeps its list; nothing else changes |
| `GenerationContext.RunDiagnostics` | aot-core/src/main/java/io/micronaut/aot/core/sourcegen/DefaultSourceGenerationContext.java:136-138 | after a run each category's list is its initial list followed by the messages logged to it, in call order |
| `GenerationContext.DiagnosticsExample` | aot-core/src/main/java/io/micronaut/aot/core/sourcegen/DefaultSourceGenerationContext.java:136-138 | logging m1 and m2 to "cat" and m3 to "other" gives ["m1","m2"] and ["m3"] |
| `GenerationContext.Put` | aot-core/src/main/java/io/micronaut/aot/core/sourcegen/DefaultSourceGenerationContext.java:141-143 | get on the tag then yields the value; every other tag yields what it did before; nothing else changes |
| `GenerationContext.PutOverwrites` | aot-core/src/main/java/io/micronaut/aot/core/sourcegen/DefaultSourceGenerationContext.java:141-151 | a second put under a tag wins: get yields the second value, and the first put leaves no trace |
| `GenerationContext.RunSideChannel` | aot-core/src/main/java/io/micronaut/aot/core/sourcegen/DefaultSourceGenerationContext.java:141-151 | after a run get on a tag yields the last value the run stored under it, or the initial content if the run stored none |
| `GenerationContext.NeverStoredIsAbsent` | aot-core/src/main/java/io/micronaut/aot/core/sourcegen/DefaultSourceGenerationContext.java:148-150 | on a fresh context, get on a tag that no put used yields no value rather than failing |
| `GenerationContext.Locations` | aot-core/src/main/java/io/micronaut/aot/core/sourcegen/DefaultSourceGenerationContext.java:108-120 | the mapped-and-filtered stream is no longer than its input and holds exactly the locations some input class resolves to |
| `GenerationContext.LocationsCount` | aot-core/src/main/java/io/micronaut/aot/core/sourcegen/DefaultSourceGenerationContext.java:108-120 | over distinct classes, each location occurs as often as there are classes resolving to it |
| `GenerationContext.GetExtraClasspath` | aot-core/src/main/java/io/micronaut/aot/core/sourcegen/DefaultSourceGenerationContext.java:107-121 | for any iteration order of the class set: at most one entry per class; a location is listed iff some registered class resolves to it, as many times as such classes exist; unresolvable classes are dropped |
| `GenerationContext.SharedLocationListedTwice` | aot-core/src/main/java/io/micronaut/aot/core/sourcegen/DefaultSourceGenerationContext.java:107-121 | two different classes from one location both contribute an entry |
| `GenerationContext.RegisteredTwiceListedOnce` | aot-core/src/main/java/io/micronaut/aot/core/sourcegen/DefaultSourceGenerationContext.java:101-121 | a class registered twice whose location no other class shares is listed exactly once |
| `GenerationContext.LocationsAsWritten` | aot-core/src/main/java/io/micronaut/aot/core/sourcegen/DefaultSourceGenerationContext.java:108-120 | the stream as written fails iff some class has no code source; otherwise it equals the filtered mapping with absent locations and failed URI conversions dropped |
| `GenerationContext.GetExtraClasspathAsWritten` | aot-core/src/main/java/io/micronaut/aot/core/sourcegen/DefaultSourceGenerationContext.java:107-121 | the method as written fails iff a registered class has no code source, and otherwise agrees with the corrected derivation |
| `GenerationContext.BootstrapClassFailsAsWritten` | aot-core/src/main/java/io/micronaut/aot/core/sourcegen/DefaultSourceGenerationContext.java:109-111 | registering a class without a code source makes the method as written fail, where the corrected one returns an empty list |
| `KnownMissingTypes.GetConfigurationOptions` | aot-core/src/main/java/io/micronaut/aot/core/sourcegen/KnownMissingTypesSourceGenerator.java:56-58 | exactly one option is declared, keyed "known.missing.types.list" |
| `KnownMissingTypes.GeneratorIdentity` | aot-core/src/main/java/io/micronaut/aot/core/sourcegen/KnownMissingTypesSourceGenerator.java:38-58 | the id is "known.missing.types", a description is present, and the list option is among the declared options |
| `KnownMissingTypes.MissingOfMembers` | aot-core/src/main/java/io/micronaut/aot/core/sourcegen/KnownMissingTypesSourceGenerator.java:60-71 | a name is reported missing iff it is configured and its probe fails with class-not-found or no-class-def-found; a name that loads is never reported |
| `KnownMissingTypes.MissingOfMultiplicity` | aot-core/src/main/java/io/micronaut/aot/core/sourcegen/KnownMissingTypesSourceGenerator.java:60-71 | each missing name is reported as many times as it is configured, any other name zero times |
| `KnownMissingTypes.MissingOfSubsequence` | aot-core/src/main/java/io/micronaut/aot/core/sourcegen/KnownMissingTypesSourceGenerator.java:60-71 | the missing names keep the configured order: they form a subsequence of the input |
| `KnownMissingTypes.FindMissingClasses` | aot-core/src/main/java/io/micronaut/aot/core/sourcegen/KnownMissingTypesSourceGenerator.java:60-71 | if no probe fails in another way, every name is probed in order and the result is exactly the missing names; otherwise probing stops at the first such name, every earlier name having been probed, and its error propagates |
| `KnownMissingTypes.DecodeEncode` | aot-core/src/main/java/io/micronaut/aot/core/sourcegen/KnownMissingTypesSourceGenerator.java:78-84 | the names can be read back from the emitted body |
| `KnownMissingTypes.EncodeDecode` | aot-core/src/main/java/io/micronaut/aot/core/sourcegen/KnownMissingTypesSourceGenerator.java:78-84 | a body that reads back as some names is the body emitted for those names |
| `KnownMissingTypes.EncodeShape` | aot-core/src/main/java/io/micronaut/aot/core/sourcegen/KnownMissingTypesSourceGenerator.java:78-84 | the body is declare, one add per name in order, install: length names + 2; no names give exactly declare, install |
| `KnownMissingTypes.ExecuteAdds` | aot-core/src/main/java/io/micronaut/aot/core/sourcegen/KnownMissingTypesSourceGenerator.java:79-81 | running the add statements, in order, inserts exactly their names into the set being built and installs nothing |
| `KnownMissingTypes.InstalledSetOfEncode` | aot-core/src/main/java/io/micronaut/aot/core/sourcegen/KnownMissingTypesSourceGenerator.java:78-84 | running the emitted body statement by statement (declare resets the set, add inserts, install records it) installs exactly the set of the added names |
| `KnownMissingTypes.BuildBody` | aot-core/src/main/java/io/micronaut/aot/core/sourcegen/KnownMissingTypesSourceGenerator.java:78-84 | the statements appended one by one form declare, one add per name in order, install: length names + 2, and the names read back from it |
| `KnownMissingTypes.InstalledSetIsKnownMissing` | aot-core/src/main/java/io/micronaut/aot/core/sourcegen/KnownMissingTypesSourceGenerator.java:60-85 | running the emitted body installs a set, and it holds exactly the configured names whose probe reports them missing |
| `KnownMissingTypes.GenerateStaticInit` | aot-core/src/main/java/io/micronaut/aot/core/sourcegen/KnownMissingTypesSourceGenerator.java:73-86 | the method is named prepareKnownMissingTypes; its body is declare, one add per missing name in input order, install (length missing + 2), and running it installs exactly the missing names; an empty name list gives declare, install; any other probe failure aborts with the first such name and emits nothing |
| `KnownMissingTypes.ProbeExample` | aot-core/src/main/java/io/micronaut/aot/core/sourcegen/KnownMissingTypesSourceGenerator.java:60-85 | with "a.Known" loading and "b.Missing" not found, running the emitted body installs exactly {"b.Missing"} |

## Left out

- `javaFile` and every JavaPoet construct (method and type builders, `$T`/`$S` formatting): the emitted code is the `Statement` datatype.
- The plain getters (`getPackageName`, `getConfiguration`, `getAnalyzer`, `getExcludedResources`, `getDiagnostics`) are the record's fields. The live, mutable collections Java returns, which a caller could change behind the context's back, are not modelled.
- Class loading: the class loader is the oracle `probe`, and which loader the generator uses is not modelled.
- `ProtectionDomain`/`CodeSource`/URI-to-`File` conversion: `GetExtraClasspath` takes an abstract `locate` function, and the as-written variant takes an abstract `origin` plus a partial `toFile`.
- Iteration order of the class `HashSet` and the diagnostics `HashMap`: left unspecified, and given as the `order` parameter (any enumeration of the set) where a list is produced.
- `AbstractSourceGenerator.staticMethod` is not part of this model. `GenerateStaticInit` returns the method name and body, not whether the result is wrapped in an `Optional`.
- Parsing of the comma-separated option value (`Configuration.stringList`): the configured names are taken as given.
- The analyzer's contents, the configuration's values, and the run-time effect of installing the optimization.
- The unchecked cast in `get`: side-channel values are a tagged union, and nothing relates the union's tag to the `TypeTag`.
- Null arguments: the annotated non-null parameters are modelled as always present, so `put` never stores a null.
- `AddDiagnostics`: the category and message are always strings. Java also accepts a null category (a `HashMap` key) and a null message (a list element), which a Dafny `string` cannot express.
- Strings are sequences of Unicode scalar values, so strings holding unpaired UTF-16 surrogates, which Java allows, are not modelled.
- `StringOrder.Less` compares Unicode scalar values. `String.compareTo` compares UTF-16 code units. For strings both can represent, the two orders differ only between supplementary characters and characters U+E000 to U+FFFF.
- The pipeline driver, instance initializers, the option registry and other generators are not part of this model.

## Findings

| source | as written | input that shows it | evidently intended | confidence | as-written member | corrected member |
|---|---|---|---|---|---|---|
| aot-core/src/main/java/io/micronaut/aot/core/sourcegen/DefaultSourceGenerationContext.java:109-111 | `getCodeSource()` may return null. `CodeSource::getLocation` is applied to it outside the `try`, so `getExtraClasspath` throws `NullPointerException`. | registering `java.lang.String`, whose protection domain has no code source | a class that cannot be located is dropped, like one whose URL does not convert | medium; not executed | `GenerationContext.GetExtraClasspathAsWritten` (shown by `GenerationContext.BootstrapClassFailsAsWritten`) | `GenerationContext.GetExtraClasspath` |
