/** The repository's sample project as worked examples: `Service1` is bound
    to the marked interface it implements, `Service2` to the interface its
    attribute names, and `Service3` registers itself, transient and keyed
    (the legacy sample has no key). Type names are parameters: any distinct
    names give the same outcome. */
module Samples {
  import opened Common
  import opened Descriptors
  import opened Output
  import opened DependenciesParser
  import CodeGenerator
  import Legacy = LegacyGenerator

  /** The sample's type names: a marked interface, an unmarked one, the
      three services and the class declaring the entry points. */
  datatype Names = Names(marked: Name, plain: Name, s1: Name, s2: Name, s3: Name, host: Name)

  predicate Distinct(n: Names) {
    && n.marked != n.plain && n.marked != n.s1 && n.marked != n.s2 && n.marked != n.s3 && n.marked != n.host
    && n.plain != n.s1 && n.plain != n.s2 && n.plain != n.s3 && n.plain != n.host
    && n.s1 != n.s2 && n.s1 != n.s3 && n.s1 != n.host
    && n.s2 != n.s3 && n.s2 != n.host
    && n.s3 != n.host
  }

  const SampleNs: Namespace := Ns("Sample", Ns("Generator", Ns("DependencyInjection", Ns("GaoWare", Global))))
  const NoFlags: TypeFlags := TypeFlags(false, false, false, false, false)

  function Interface(name: Name, markers: seq<Marker>): TypeDesc {
    TypeDesc(name, "I", SampleNs, Public, NoFlags, markers, [], 0)
  }

  function ServiceClass(name: Name, marker: Marker, iface: Name): TypeDesc {
    TypeDesc(name, "S", SampleNs, Public, NoFlags, [marker], [iface], 1)
  }

  // ---------------------------------------------------------------------
  // The current sample

  const Scoped1: Value := IntV(1)
  const Transient2: Value := IntV(2)

  function Types(n: Names): map<Name, TypeDesc> {
    map[
      n.marked := Interface(n.marked, [Marker(RegisterInterfaceAttribute, [], [])]),
      n.plain := Interface(n.plain, []),
      n.s1 := ServiceClass(n.s1, Marker(RegisterServiceAttribute, [Scoped1], []), n.marked),
      n.s2 := ServiceClass(n.s2, Marker(RegisterServiceAttribute, [Scoped1], [("InterfaceType", TypeV(n.plain))]), n.plain),
      n.s3 := ServiceClass(n.s3, Marker(RegisterServiceAttribute, [Transient2], [("ServiceKey", StrV("TestKey"))]), n.plain)
    ]
  }

  function ServiceDecl(n: Name): ClassDecl {
    ClassDecl(0, Some(n), [Some(RegisterServiceAttribute)], ["public"], [])
  }

  function Expected(n: Names): seq<DependencyService> {
    [ DependencyService(n.s1, Some(n.marked), None, 1),
      DependencyService(n.s2, Some(n.plain), None, 1),
      DependencyService(n.s3, None, Some("TestKey"), 2) ]
  }

  function Marker1(): Marker { Marker(RegisterServiceAttribute, [Scoped1], []) }
  function Marker2(n: Names): Marker { Marker(RegisterServiceAttribute, [Scoped1], [("InterfaceType", TypeV(n.plain))]) }
  function Marker3(): Marker { Marker(RegisterServiceAttribute, [Transient2], [("ServiceKey", StrV("TestKey"))]) }

  /** How each sample attribute decodes. */
  lemma SampleAttributes(n: Names)
    ensures ParseAttributeData(n.s1, Marker1()) == Some(DependencyService(n.s1, None, None, 1))
    ensures ParseAttributeData(n.s2, Marker2(n)) == Some(DependencyService(n.s2, Some(n.plain), None, 1))
    ensures ParseAttributeData(n.s3, Marker3()) == Some(Expected(n)[2])
  {
    assert !HasError(Marker2(n).namedArgs) by {
      assert Marker2(n).namedArgs[0].1 == TypeV(n.plain);
    }
    assert LastInterfaceType(Marker2(n).namedArgs) == Some(n.plain) by {
      assert Marker2(n).namedArgs[1..] == [];
    }
    assert !HasError(Marker3().namedArgs) by {
      assert Marker3().namedArgs[0].1 == StrV("TestKey");
    }
    assert LastNamed(Marker3().namedArgs, "ServiceKey") == Some(StrV("TestKey")) by {
      assert Marker3().namedArgs[1..] == [];
    }
  }

  lemma SampleLookups(n: Names)
    requires Distinct(n)
    ensures Types(n).Keys == {n.marked, n.plain, n.s1, n.s2, n.s3}
    ensures Types(n)[n.marked] == Interface(n.marked, [Marker(RegisterInterfaceAttribute, [], [])])
    ensures Types(n)[n.plain] == Interface(n.plain, [])
    ensures Types(n)[n.s1] == ServiceClass(n.s1, Marker1(), n.marked)
    ensures Types(n)[n.s2] == ServiceClass(n.s2, Marker2(n), n.plain)
    ensures Types(n)[n.s3] == ServiceClass(n.s3, Marker3(), n.plain)
  {
  }

  lemma SampleWellFormed(n: Names)
    requires Distinct(n)
    ensures WellFormed(Types(n))
    ensures forall x :: x in Types(n) ==> InheritCheckTerminates(Types(n), Types(n)[x])
  {
    var t := Types(n);
    SampleLookups(n);
    SampleAttributes(n);
    assert t[n.plain].interfaces == [];
    forall x | x in t ensures InheritCheckTerminates(t, t[x]) {
      if x == n.s2 {
        assert t[x].markers == [Marker2(n)];
      }
    }
  }

  /** The resolver's records for the three sample services. */
  lemma SampleRecords(n: Names)
    requires Distinct(n)
    ensures WellFormed(Types(n))
    ensures DeclarationsTerminate(Types(n), [ServiceDecl(n.s1), ServiceDecl(n.s2), ServiceDecl(n.s3)])
    ensures Records(Types(n), [ServiceDecl(n.s1), ServiceDecl(n.s2), ServiceDecl(n.s3)]) == Expected(n)
  {
    SampleWellFormed(n);
    SampleLookups(n);
    SampleAttributes(n);
    var t := Types(n);
    var ds := [ServiceDecl(n.s1), ServiceDecl(n.s2), ServiceDecl(n.s3)];
    assert CheckInterfaceHasAttribute(t, n.marked) == Some(n.marked) by {
      assert t[n.marked].markers[0].cls == RegisterInterfaceAttribute;
    }
    assert CheckInterfaceHasAttribute(t, n.plain) == None by {
      assert SearchFrom(t, n.plain, 0) == None;
    }
    assert SearchFrom(t, n.s1, 0) == Some(n.marked);
    assert SearchFrom(t, n.s3, 0) == None by {
      assert SearchFrom(t, n.s3, 1) == None;
    }
    assert LastServiceMarker([Marker1()]) == Some(Marker1());
    assert LastServiceMarker([Marker2(n)]) == Some(Marker2(n));
    assert LastServiceMarker([Marker3()]) == Some(Marker3());
    assert RecordOf(t, ds[0]) == Some(Expected(n)[0]);
    assert RecordOf(t, ds[1]) == Some(Expected(n)[1]);
    assert RecordOf(t, ds[2]) == Some(Expected(n)[2]);
    assert |ds[..1][..0]| == 0;
    assert Records(t, ds[..1]) == [Expected(n)[0]];
    assert ds[..2][..1] == ds[..1];
    assert Records(t, ds[..2]) == [Expected(n)[0], Expected(n)[1]];
    assert ds[..3] == ds;
  }

  /** The nullable `IServiceCollection? serviceCollection` parameter. */
  const Container: Param := Param("serviceCollection", ServiceCollectionType, ServiceCollectionType + "?", Annotated, NoRef, false)

  /** The registration calls the current generator writes for the sample:
      `serviceCollection?.AddScoped<ITestService, Service1>()`,
      `serviceCollection?.AddScoped<ITestServiceWithoutAttribute, Service2>()` and
      `serviceCollection?.AddKeyedTransient<Service3>("TestKey")`. */
  lemma SampleStatements(n: Names)
    ensures CodeGenerator.RegistrationStatements(Container, Expected(n)) == [
      Call("serviceCollection", true, FunctionName(Registration(false, Scoped)), [n.marked, n.s1], []),
      Call("serviceCollection", true, FunctionName(Registration(false, Scoped)), [n.plain, n.s2], []),
      Call("serviceCollection", true, FunctionName(Registration(true, Transient)), [n.s3], ["TestKey"])]
  {
  }

  /** `TestClass` with its two entry points `TestGenerator` and `TestGen`,
      both `public static partial void` over the nullable container. The
      parameter descriptor has no `this` modifier, so `TestGen`'s extension
      form is not told apart. */
  function EntryPoint(name: string): MethodDecl {
    MethodDecl(name, [DependencyRegistrationAttribute], [Container], "void", ["public", "static", "partial"])
  }

  function HostDecl(n: Names): ClassDecl {
    ClassDecl(0, Some(n.host), [], ["public", "static", "partial"],
      [Method(EntryPoint("TestGenerator")), Method(EntryPoint("TestGen"))])
  }

  function SampleCompilation(n: Names): Compilation {
    Compilation(Types(n)[n.host := Host(n)], {MetadataName(DependencyRegistrationAttribute), ServiceCollectionType})
  }

  /** The current generator's file for `TestClass`: `TestClass.g.cs` in the
      sample namespace, with both entry points filled with the three
      registrations. */
  lemma SampleArtifact(n: Names)
    ensures var body := CodeGenerator.RegistrationStatements(Container, Expected(n));
      CodeGenerator.GenerateClassOutput(SampleCompilation(n), HostDecl(n), Expected(n)) == Some(Artifact(
        "TestClass" + ".g.cs", Usings, Dotted(SampleNs),
        ClassOut("TestClass", ["public", "static", "partial"], true, [
          MethodOut("TestGenerator", ["public", "static", "partial"], [Container], "void", body),
          MethodOut("TestGen", ["public", "static", "partial"], [Container], "void", body)])))
  {
    var c := SampleCompilation(n);
    var d := HostDecl(n);
    var body := CodeGenerator.RegistrationStatements(Container, Expected(n));
    assert MetadataName(DependencyRegistrationAttribute) in c.available;
    assert ServiceCollectionType in c.available;
    assert DeclaredType(c.types, d) == Some(Host(n));
    assert d.members[0].Method? && CodeGenerator.IsEntryPoint(d.members[0].m) by {
      SampleEntryPoint("TestGenerator", Expected(n));
    }
    var r := CodeGenerator.GenerateClassOutput(c, d, Expected(n));
    assert r.Some?;
    SampleEmitted(n, Expected(n));
    assert r.value.ns == Dotted(SampleNs);
    assert r.value.hintName == "TestClass" + ".g.cs";
    assert r.value.usings == Usings;
    assert r.value.cls.name == "TestClass";
    assert r.value.cls.modifiers == ["public", "static", "partial"];
    assert r.value.cls.nullableDirectives;
    assert r.value.cls.methods == [
      MethodOut("TestGenerator", ["public", "static", "partial"], [Container], "void", body),
      MethodOut("TestGen", ["public", "static", "partial"], [Container], "void", body)];
  }

  /** Both members of `TestClass` are emitted, in declaration order. */
  lemma SampleEmitted(n: Names, services: seq<DependencyService>)
    ensures var body := CodeGenerator.RegistrationStatements(Container, services);
      CodeGenerator.EmittedMethods(HostDecl(n).members, services) == [
        MethodOut("TestGenerator", ["public", "static", "partial"], [Container], "void", body),
        MethodOut("TestGen", ["public", "static", "partial"], [Container], "void", body)]
  {
    var members := HostDecl(n).members;
    SampleEntryPoint("TestGenerator", services);
    SampleEntryPoint("TestGen", services);
    assert members[1..][1..] == [];
  }

  /** An entry point of `TestClass` is filled with the registrations. */
  lemma SampleEntryPoint(name: string, services: seq<DependencyService>)
    ensures CodeGenerator.MethodOutput(EntryPoint(name), services) ==
      Some(MethodOut(name, ["public", "static", "partial"], [Container], "void",
        CodeGenerator.RegistrationStatements(Container, services)))
  {
    assert CodeGenerator.ServiceCollectionParameter([Container]) == Some(Container);
  }


  // ---------------------------------------------------------------------
  // The legacy sample, where every attribute has the three constructor
  // arguments lifetime, key and interface type (the last two null unless given)

  function LegacyTypes(n: Names): map<Name, TypeDesc> {
    map[
      n.marked := Interface(n.marked, [Marker(RegisterInterfaceAttribute, [], [])]),
      n.plain := Interface(n.plain, []),
      n.s1 := ServiceClass(n.s1, Marker(RegisterServiceAttribute, [Scoped1, OtherV, OtherV], []), n.marked),
      n.s2 := ServiceClass(n.s2, Marker(RegisterServiceAttribute, [Scoped1, OtherV, TypeV(n.plain)], []), n.plain),
      n.s3 := ServiceClass(n.s3, Marker(RegisterServiceAttribute, [Transient2, OtherV, OtherV], []), n.plain)
    ]
  }

  function LegacyExpected(n: Names): seq<Legacy.DependencyService> {
    [ Legacy.DependencyService(n.s1, Some(n.marked), None, 1),
      Legacy.DependencyService(n.s2, Some(n.plain), None, 1),
      Legacy.DependencyService(n.s3, None, None, 2) ]
  }

  function LegacyMarker(lifetime: Value, iface: Value): Marker {
    Marker(RegisterServiceAttribute, [lifetime, OtherV, iface], [])
  }

  lemma LegacyLookups(n: Names)
    requires Distinct(n)
    ensures LegacyTypes(n).Keys == {n.marked, n.plain, n.s1, n.s2, n.s3}
    ensures LegacyTypes(n)[n.marked] == Interface(n.marked, [Marker(RegisterInterfaceAttribute, [], [])])
    ensures LegacyTypes(n)[n.plain] == Interface(n.plain, [])
    ensures LegacyTypes(n)[n.s1] == ServiceClass(n.s1, LegacyMarker(Scoped1, OtherV), n.marked)
    ensures LegacyTypes(n)[n.s2] == ServiceClass(n.s2, LegacyMarker(Scoped1, TypeV(n.plain)), n.plain)
    ensures LegacyTypes(n)[n.s3] == ServiceClass(n.s3, LegacyMarker(Transient2, OtherV), n.plain)
  {
  }

  /** The single service attribute of each sample service is found. */
  lemma LegacySingleMarker(lifetime: Value, iface: Value)
    ensures Legacy.CountNamed([LegacyMarker(lifetime, iface)], Legacy.ServiceAttributeName) == 1
    ensures Legacy.SingleOrDefault([LegacyMarker(lifetime, iface)], Legacy.ServiceAttributeName) == Some(LegacyMarker(lifetime, iface))
  {
    assert [LegacyMarker(lifetime, iface)][1..] == [];
  }

  /** The legacy records for the three sample services. */
  lemma LegacySampleRecords(n: Names)
    requires Distinct(n)
    ensures WellFormed(LegacyTypes(n)) && Legacy.Resolvable(LegacyTypes(n), [Some(n.s1), Some(n.s2), Some(n.s3)])
    ensures Legacy.Lookup(LegacyTypes(n), [Some(n.s1), Some(n.s2), Some(n.s3)]) == LegacyExpected(n)
  {
    var t := LegacyTypes(n);
    var ss: seq<Option<Name>> := [Some(n.s1), Some(n.s2), Some(n.s3)];
    LegacyLookups(n);
    LegacySingleMarker(Scoped1, OtherV);
    LegacySingleMarker(Scoped1, TypeV(n.plain));
    LegacySingleMarker(Transient2, OtherV);
    assert WellFormed(t);
    assert Legacy.Resolvable(t, ss);
    assert Legacy.Eligible(t[n.marked]) by {
      assert t[n.marked].markers[0].cls.simple == Legacy.InterfaceAttributeName;
    }
    assert Legacy.CheckInterfaceHasAttribute(t, n.plain) == None by {
      assert Legacy.SearchFrom(t, n.plain, 0) == None;
    }
    assert Legacy.SearchFrom(t, n.s1, 0) == Some(n.marked);
    assert Legacy.SearchFrom(t, n.s3, 0) == None by {
      assert Legacy.SearchFrom(t, n.s3, 1) == None;
    }
    assert Legacy.LookupService(t, n.s1) == Some(LegacyExpected(n)[0]);
    assert Legacy.LookupService(t, n.s2) == Some(LegacyExpected(n)[1]);
    assert Legacy.LookupService(t, n.s3) == Some(LegacyExpected(n)[2]);
    assert |ss[..1][..0]| == 0;
    assert Legacy.Lookup(t, ss[..1]) == [LegacyExpected(n)[0]];
    assert ss[..2][..1] == ss[..1];
    assert Legacy.Lookup(t, ss[..2]) == [LegacyExpected(n)[0], LegacyExpected(n)[1]];
    assert ss[..3] == ss;
  }

  function Host(n: Names): TypeDesc {
    TypeDesc(n.host, "TestClass", SampleNs, Public, NoFlags, [], [], 0)
  }

  function TestGenerator(): MethodDecl {
    MethodDecl("TestGenerator", [], [Container], "void", ["public", "virtual", "partial"])
  }

  lemma ContainerMatches()
    ensures Legacy.ServiceCollectionParameter([Container]) == Some(Container)
  {
    assert Container.display[..|Legacy.ServiceCollectionDisplay|] == Legacy.ServiceCollectionDisplay;
  }

  /** The legacy file `TestClass.TestGenerator.g.cs`: a `public partial`
      class in the sample namespace, wrapped in nullable directives, whose
      one method carries the body `LegacySampleBody` spells out. */
  lemma LegacySampleArtifact(n: Names)
    ensures var a := Legacy.GenerateRegistrationCode(Some(Legacy.Entry(TestGenerator(), Host(n))), LegacyExpected(n)).value;
      && a.hintName == "TestClass" + "." + "TestGenerator" + ".g.cs"
      && a.usings == Usings
      && a.ns == Dotted(SampleNs)
      && a.cls.name == "TestClass"
      && a.cls.modifiers == ["public", "partial"]
      && a.cls.nullableDirectives
      && a.cls.methods == [MethodOut("TestGenerator", ["public", "virtual", "partial"], [Container], "void",
           Legacy.Body(TestGenerator(), LegacyExpected(n)))]
  {
    ContainerMatches();
    assert Legacy.FlagTokens(NoFlags) == [];
    assert Legacy.GetModifiers(Host(n)) == ["public", "partial"];
  }

  /** Its method registers the three services and returns nothing:
      `serviceCollection?.AddScoped<ITestService, Service1>()`,
      `serviceCollection?.AddScoped<ITestServiceWithoutAttribute, Service2>()` and
      `serviceCollection?.AddTransient<Service3>()`. */
  lemma LegacySampleBody(n: Names)
    ensures Legacy.Body(TestGenerator(), LegacyExpected(n)) == [
      Call("serviceCollection", true, FunctionName(Registration(false, Scoped)), [n.marked, n.s1], []),
      Call("serviceCollection", true, FunctionName(Registration(false, Scoped)), [n.plain, n.s2], []),
      Call("serviceCollection", true, FunctionName(Registration(false, Transient)), [n.s3], [])]
  {
    ContainerMatches();
    var m := TestGenerator();
    var e := LegacyExpected(n);
    assert |"void"| != |Container.display|;
    assert Legacy.ReturnStatement(m, Some(Container)) == [];
    LegacySampleCall(e[0], n.marked);
    LegacySampleCall(e[1], n.plain);
    LegacySampleCall(e[2], n.s3);
    var r := Legacy.Body(m, e);
    assert Legacy.ServiceCollectionParameter(m.params) == Some(Container);
    assert |r| == 3;
    assert r == [r[0], r[1], r[2]];
  }

  /** One unkeyed registration of the legacy sample through the annotated
      container parameter. */
  lemma LegacySampleCall(s: Legacy.DependencyService, first: Name)
    requires s.keyedServiceName.None? && s.serviceLifetime in {1, 2}
    requires first == if s.fullyQualifiedInterfaceName.Some? then s.fullyQualifiedInterfaceName.value else s.fullyQualifiedName
    ensures Legacy.CreateAddStatementWithInterface(Container, s) ==
      Call("serviceCollection", true,
        FunctionName(Registration(false, if s.serviceLifetime == 1 then Scoped else Transient)),
        (if s.fullyQualifiedInterfaceName.Some? then [first, s.fullyQualifiedName] else [first]), [])
  {
    var r := Legacy.CreateAddStatementWithInterface(Container, s);
    assert r.args == [];
  }
}
