/** The generator that probes, at build time, whether a configured list of
    types exists, and emits a static initializer that installs the set of
    types known to be missing, so that the running application does not
    repeat the probes. */
module KnownMissingTypes {
  import opened Wrappers

  const Id: string := "known.missing.types"
  const Description: string := "Checks of existence of some types at build time instead of runtime"

  /** A declared configuration option: key, documentation and default value. */
  datatype ConfigOption = ConfigOption(key: string, description: string, defaultValue: string)

  const ListOption: ConfigOption := ConfigOption(
    "known.missing.types.list",
    "A list of types that the AOT analyzer needs to check for existence (comma separated)",
    "javax.inject.Inject,io.micronaut.SomeType")

  function GetId(): (id: string)
  {
    Id
  }

  function GetDescription(): (description: Option<string>)
  {
    Some(Description)
  }

  /** The generator reads exactly one option: the list of types to probe. */
  function GetConfigurationOptions(): (r: set<ConfigOption>)
    ensures |r| == 1
    ensures forall o :: o in r ==> o.key == "known.missing.types.list"
  {
    {ListOption}
  }

  lemma GeneratorIdentity()
    ensures GetId() == "known.missing.types"
    ensures GetDescription().Some?
    ensures ListOption in GetConfigurationOptions()
  {
  }

  // ---------------------------------------------------------------------
  // Probing
  // ---------------------------------------------------------------------

  /** What loading a class by name does in the build environment. */
  datatype Probe =
    | Loaded
    | ClassNotFound        // the loader does not know the name
    | NoClassDefFound      // the class exists but a dependency of it does not
    | OtherError(reason: string)

  /** The two failures that classify a name as known missing. */
  predicate KnownMissing(p: Probe)
  {
    p.ClassNotFound? || p.NoClassDefFound?
  }

  /** The error that aborts the generator: the name whose probe failed otherwise. */
  datatype Abort = Abort(name: string, reason: string)

  /** The names, in order and with repetitions, whose probe reports them missing. */
  function MissingOf(names: seq<string>, probe: string -> Probe): (missing: seq<string>)
  {
    if |names| == 0 then []
    else MissingOf(names[..|names| - 1], probe)
         + (if KnownMissing(probe(names[|names| - 1])) then [names[|names| - 1]] else [])
  }

  lemma MissingOfStep(names: seq<string>, i: nat, probe: string -> Probe)
    requires i < |names|
    ensures MissingOf(names[..i + 1], probe)
         == MissingOf(names[..i], probe) + (if KnownMissing(probe(names[i])) then [names[i]] else [])
  {
    assert names[..i + 1][..i] == names[..i];
  }

  /** `a` is `b` with some elements left out, the rest in order. */
  predicate IsSubsequence(a: seq<string>, b: seq<string>)
    decreases |b|
  {
    if |a| == 0 then true
    else if |b| == 0 then false
    else if a[|a| - 1] == b[|b| - 1] then IsSubsequence(a[..|a| - 1], b[..|b| - 1])
    else IsSubsequence(a, b[..|b| - 1])
  }

  /** A name is missing exactly when it is an input name whose probe fails
      with "not found" or "no class definition". */
  lemma {:induction false} MissingOfMembers(names: seq<string>, probe: string -> Probe)
    ensures forall x :: x in MissingOf(names, probe) <==> x in names && KnownMissing(probe(x))
    decreases |names|
  {
    if |names| > 0 {
      var init, last := names[..|names| - 1], names[|names| - 1];
      MissingOfMembers(init, probe);
      assert names == init + [last];
    }
  }

  /** Each missing name occurs as often as in the input; other names not at all. */
  lemma {:induction false} MissingOfMultiplicity(names: seq<string>, probe: string -> Probe)
    ensures forall x :: multiset(MissingOf(names, probe))[x]
                        == if KnownMissing(probe(x)) then multiset(names)[x] else 0
    decreases |names|
  {
    if |names| > 0 {
      var init, last := names[..|names| - 1], names[|names| - 1];
      MissingOfMultiplicity(init, probe);
      assert names == init + [last];
      assert multiset(names) == multiset(init) + multiset{last};
    }
  }

  /** The missing names keep the input order. */
  lemma {:induction false} MissingOfSubsequence(names: seq<string>, probe: string -> Probe)
    ensures IsSubsequence(MissingOf(names, probe), names)
    decreases |names|
  {
    if |names| > 0 {
      var init, last := names[..|names| - 1], names[|names| - 1];
      MissingOfSubsequence(init, probe);
      assert names == init + [last];
      var m := MissingOf(names, probe);
      if KnownMissing(probe(last)) {
        assert m == MissingOf(init, probe) + [last];
        assert m[..|m| - 1] == MissingOf(init, probe);
      } else {
        assert m == MissingOf(init, probe);
        SubsequenceOfLonger(m, init, last);
      }
    }
  }

  lemma {:induction false} SubsequenceOfLonger(a: seq<string>, b: seq<string>, x: string)
    requires IsSubsequence(a, b)
    ensures IsSubsequence(a, b + [x])
    decreases |b|, 1
  {
    var bx := b + [x];
    assert bx[..|bx| - 1] == b;
    if |a| > 0 && a[|a| - 1] == x {
      SubsequenceDropLast(a, b);
    }
  }

  lemma {:induction false} SubsequenceDropLast(a: seq<string>, b: seq<string>)
    requires |a| > 0 && IsSubsequence(a, b)
    ensures IsSubsequence(a[..|a| - 1], b)
    decreases |b|, 0
  {
    var a', b' := a[..|a| - 1], b[..|b| - 1];
    assert b' + [b[|b| - 1]] == b;
    if a[|a| - 1] != b[|b| - 1] {
      SubsequenceDropLast(a, b');
    }
    SubsequenceOfLonger(a', b', b[|b| - 1]);
  }

  /** Probes every name in order with the class loader and collects the
      known-missing ones; `probed` lists the names probed. A "not found"
      failure does not stop the loop; any other failure aborts it. */
  method FindMissingClasses(classNames: seq<string>, probe: string -> Probe)
    returns (probed: seq<string>, result: Result<seq<string>, Abort>)
    ensures result.Success? <==> forall i :: 0 <= i < |classNames| ==> !probe(classNames[i]).OtherError?
    ensures result.Success? ==> probed == classNames && result.value == MissingOf(classNames, probe)
    ensures result.Failure? ==>
              && 0 < |probed| <= |classNames|
              && probed == classNames[..|probed|]
              && (forall i :: 0 <= i < |probed| - 1 ==> !probe(probed[i]).OtherError?)
              && probe(probed[|probed| - 1]).OtherError?
              && result.error == Abort(probed[|probed| - 1], probe(probed[|probed| - 1]).reason)
  {
    var missing: seq<string> := [];
    probed := [];
    var i := 0;
    while i < |classNames|
      invariant i <= |classNames|
      invariant probed == classNames[..i]
      invariant missing == MissingOf(classNames[..i], probe)
      invariant forall k :: 0 <= k < i ==> !probe(classNames[k]).OtherError?
      decreases |classNames| - i
    {
      var name := classNames[i];
      probed := probed + [name];
      assert probed == classNames[..i + 1];
      MissingOfStep(classNames, i, probe);
      match probe(name) {
        case Loaded =>
        case ClassNotFound =>
          missing := missing + [name];
        case NoClassDefFound =>
          missing := missing + [name];
        case OtherError(reason) =>
          result := Failure(Abort(name, reason));
          return;
      }
      i := i + 1;
    }
    assert classNames[..i] == classNames;
    result := Success(missing);
  }

  // ---------------------------------------------------------------------
  // The emitted static initializer
  // ---------------------------------------------------------------------

  /** The statements of the generated initializer. */
  datatype Statement =
    | DeclareSet            // a fresh, empty set of type names
    | Add(name: string)     // adds one name to that set
    | InstallOptimization   // installs the set as the known-missing-types optimization

  datatype StaticInit = StaticInit(methodName: string, body: seq<Statement>)

  const MethodName: string := "prepareKnownMissingTypes"

  /** One `Add` per name, in order. */
  function Adds(names: seq<string>): (r: seq<Statement>)
    ensures |r| == |names|
    ensures forall i :: 0 <= i < |names| ==> r[i] == Add(names[i])
  {
    if |names| == 0 then [] else Adds(names[..|names| - 1]) + [Add(names[|names| - 1])]
  }

  /** The body for a list of missing names. */
  function Encode(missing: seq<string>): (body: seq<Statement>)
  {
    [DeclareSet] + Adds(missing) + [InstallOptimization]
  }

  /** The names of a run of `Add` statements, or `None` if another statement occurs. */
  function AddedNames(stmts: seq<Statement>): (r: Option<seq<string>>)
    ensures r.Some? <==> forall i :: 0 <= i < |stmts| ==> stmts[i].Add?
    ensures r.Some? ==> |r.value| == |stmts| && forall i :: 0 <= i < |stmts| ==> stmts[i] == Add(r.value[i])
  {
    if |stmts| == 0 then Some([])
    else if !stmts[|stmts| - 1].Add? then None
    else match AddedNames(stmts[..|stmts| - 1])
      case None => None
      case Some(names) => Some(names + [stmts[|stmts| - 1].name])
  }

  /** Reads the missing names back from a body of the shape declare, adds, install. */
  function Decode(body: seq<Statement>): (names: Option<seq<string>>)
  {
    if |body| >= 2 && body[0] == DeclareSet && body[|body| - 1] == InstallOptimization
    then AddedNames(body[1..|body| - 1])
    else None
  }

  lemma DecodeEncode(missing: seq<string>)
    ensures Decode(Encode(missing)) == Some(missing)
  {
    var body := Encode(missing);
    assert body[1..|body| - 1] == Adds(missing);
    var names := AddedNames(Adds(missing));
    assert names.value == missing;
  }

  /** A body that decodes is the encoding of what it decodes to. */
  lemma EncodeDecode(body: seq<Statement>, missing: seq<string>)
    requires Decode(body) == Some(missing)
    ensures Encode(missing) == body
  {
  }

  /** The shape of an encoded body: declare, one add per name in order, install. */
  lemma EncodeShape(missing: seq<string>)
    ensures var body := Encode(missing);
            && |body| == |missing| + 2
            && body[0] == DeclareSet
            && (forall i :: 0 <= i < |missing| ==> body[i + 1] == Add(missing[i]))
            && body[|body| - 1] == InstallOptimization
            && Decode(body) == Some(missing)
            && Installed(body) == Some(set x | x in missing)
    ensures missing == [] ==> Encode(missing) == [DeclareSet, InstallOptimization]
  {
    DecodeEncode(missing);
    InstalledSetOfEncode(missing);
  }

  /** The generated initializer while it runs: the set being built, and the
      set installed as the optimization once the install statement ran. */
  datatype Machine = Machine(current: set<string>, installed: Option<set<string>>)

  function Step(m: Machine, s: Statement): (r: Machine)
  {
    match s
    case DeclareSet => m.(current := {})
    case Add(n) => m.(current := m.current + {n})
    case InstallOptimization => m.(installed := Some(m.current))
  }

  /** Runs the statements in order. */
  function Execute(body: seq<Statement>, m: Machine): (r: Machine)
    decreases |body|
  {
    if |body| == 0 then m else Execute(body[1..], Step(m, body[0]))
  }

  /** The set a body installs when run from the start, if it installs one. */
  function Installed(body: seq<Statement>): (installed: Option<set<string>>)
  {
    Execute(body, Machine({}, None)).installed
  }

  lemma {:induction false} ExecuteAppend(a: seq<Statement>, b: seq<Statement>, m: Machine)
    ensures Execute(a + b, m) == Execute(b, Execute(a, m))
    decreases |a|
  {
    if |a| > 0 {
      assert (a + b)[1..] == a[1..] + b;
      ExecuteAppend(a[1..], b, Step(m, a[0]));
    } else {
      assert a + b == b;
    }
  }

  /** Running the adds of `names` inserts exactly those names and installs nothing. */
  lemma {:induction false} ExecuteAdds(names: seq<string>, m: Machine)
    ensures Execute(Adds(names), m) == m.(current := m.current + set x | x in names)
    decreases |names|
  {
    if |names| > 0 {
      var init, last := names[..|names| - 1], names[|names| - 1];
      ExecuteAdds(init, m);
      ExecuteAppend(Adds(init), [Add(last)], m);
      assert names == init + [last];
      assert (set x | x in names) == (set x | x in init) + {last};
    }
  }

  /** Running an encoded body installs exactly the set of its names. */
  lemma InstalledSetOfEncode(missing: seq<string>)
    ensures Installed(Encode(missing)) == Some(set x | x in missing)
  {
    var m0 := Machine({}, None);
    var adds := Adds(missing);
    assert Encode(missing) == ([DeclareSet] + adds) + [InstallOptimization];
    ExecuteAppend([DeclareSet] + adds, [InstallOptimization], m0);
    ExecuteAppend([DeclareSet], adds, m0);
    assert Execute([DeclareSet], m0) == Execute([], m0);
    ExecuteAdds(missing, m0);
    var built := Execute([DeclareSet] + adds, m0);
    assert built == Machine((set x | x in missing), None);
    assert Execute([InstallOptimization], built) == Execute([], Step(built, InstallOptimization));
  }

  /** At run time the installed set holds exactly the configured names that
      were found missing at build time. */
  lemma InstalledSetIsKnownMissing(names: seq<string>, probe: string -> Probe)
    ensures Installed(Encode(MissingOf(names, probe))).Some?
    ensures forall x :: x in Installed(Encode(MissingOf(names, probe))).value <==> x in names && KnownMissing(probe(x))
  {
    InstalledSetOfEncode(MissingOf(names, probe));
    MissingOfMembers(names, probe);
  }

  /** Emits the statements of the initializer body one by one: declare, an
      add per name in order, install. */
  method BuildBody(missing: seq<string>) returns (body: seq<Statement>)
    ensures |body| == |missing| + 2
    ensures Decode(body) == Some(missing)
    ensures body == Encode(missing)
  {
    body := [DeclareSet];
    var i := 0;
    while i < |missing|
      invariant i <= |missing|
      invariant body == [DeclareSet] + Adds(missing[..i])
    {
      assert missing[..i + 1] == missing[..i] + [missing[i]];
      body := body + [Add(missing[i])];
      i := i + 1;
    }
    assert missing[..i] == missing;
    body := body + [InstallOptimization];
    DecodeEncode(missing);
  }

  /** `generateStaticInit`: probes the configured names and emits the body
      declare, one add per missing name in input order, install. An abort
      while probing propagates and nothing is emitted. */
  method GenerateStaticInit(classNames: seq<string>, probe: string -> Probe)
    returns (result: Result<StaticInit, Abort>)
    ensures result.Success? <==> forall i :: 0 <= i < |classNames| ==> !probe(classNames[i]).OtherError?
    ensures result.Success? ==>
              var missing := MissingOf(classNames, probe);
              var body := result.value.body;
              && result.value.methodName == MethodName
              && |body| == |missing| + 2
              && body[0] == DeclareSet
              && (forall i :: 0 <= i < |missing| ==> body[i + 1] == Add(missing[i]))
              && body[|body| - 1] == InstallOptimization
              && Decode(body) == Some(missing)
              && Installed(body) == Some(set x | x in missing)
    ensures result.Failure? ==>
              exists k :: 0 <= k < |classNames|
                && (forall i :: 0 <= i < k ==> !probe(classNames[i]).OtherError?)
                && probe(classNames[k]).OtherError?
                && result.error == Abort(classNames[k], probe(classNames[k]).reason)
    ensures classNames == [] ==> result == Success(StaticInit(MethodName, [DeclareSet, InstallOptimization]))
  {
    var probed, found := FindMissingClasses(classNames, probe);
    if found.Failure? {
      var k := |probed| - 1;
      assert classNames[k] == probed[k];
      return Failure(found.error);
    }
    var body := BuildBody(found.value);
    EncodeShape(found.value);
    result := Success(StaticInit(MethodName, body));
  }

  /** Of the names "a.Known", which loads, and "b.Missing", which does not,
      only "b.Missing" ends up in the installed set. */
  lemma ProbeExample()
    ensures var probe := (n: string) => if n == "b.Missing" then ClassNotFound else Loaded;
            && MissingOf(["a.Known", "b.Missing"], probe) == ["b.Missing"]
            && Installed(Encode(MissingOf(["a.Known", "b.Missing"], probe))) == Some({"b.Missing"})
  {
    var probe := (n: string) => if n == "b.Missing" then ClassNotFound else Loaded;
    var names := ["a.Known", "b.Missing"];
    assert names[..1] == ["a.Known"] && names[..1][..0] == [];
    assert MissingOf(names, probe) == ["b.Missing"];
    InstalledSetOfEncode(["b.Missing"]);
    assert (set x | x in ["b.Missing"]) == {"b.Missing"};
  }
}
