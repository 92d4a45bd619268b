/** The synthesizer of the current generator (`CodeGenerator`): for every
    class declaring registration entry points it emits `{Class}.g.cs`, whose
    entry-point bodies register each resolved service with the container. */
module CodeGenerator {
  import opened Common
  import opened Descriptors
  import opened Output
  import opened DependenciesParser

  // ---------------------------------------------------------------------
  // One registration statement

  /** `GetFunctionName`: "Add", then "Keyed" for a keyed service (any
      non-null key), then the lifetime suffix. */
  function GetFunctionName(s: DependencyService): (r: string)
    ensures r == FunctionName(Registration(s.key.Some?, LifetimeOf(s.lifetime)))
    ensures ParseFunctionName(r) == Some(Registration(s.key.Some?, LifetimeOf(s.lifetime)))
  {
    ParseFunctionNameInverse(Registration(s.key.Some?, LifetimeOf(s.lifetime)));
    var functionString := "Add" + (if s.key.Some? then "Keyed" else "");
    if s.lifetime == 1 then functionString + "Scoped"
    else if s.lifetime == 2 then functionString + "Transient"
    else functionString + "Singleton"
  }

  /** `GetArgumentsForService`: the key literal, only for a non-empty key. */
  function GetArgumentsForService(s: DependencyService): (r: seq<string>)
    ensures |r| <= 1
    ensures |r| == 1 <==> !IsNullOrEmpty(s.key)
    ensures |r| == 1 ==> r[0] == s.key.value
  {
    if IsNullOrEmpty(s.key) then [] else [s.key.value]
  }

  /** `GetArityTypesForService`: the implementation comes last, preceded by
      the bound interface when there is one. */
  function GetArityTypesForService(s: DependencyService): (r: seq<string>)
    ensures 1 <= |r| <= 2 && r[|r| - 1] == s.name
    ensures |r| == 2 <==> s.iface.Some?
    ensures s.iface.Some? ==> r[0] == s.iface.value
  {
    if s.iface.Some? then [s.iface.value, s.name] else [s.name]
  }

  /** `CreateStatement`: a call on the container parameter, through `?.`
      unless the parameter's type is annotated as not nullable. */
  function CreateStatement(p: Param, s: DependencyService): (r: Stmt)
    ensures r.Call? && r.receiver == p.name
    ensures r.conditional <==> p.annotation != NotAnnotated
  {
    Call(p.name, p.annotation != NotAnnotated, GetFunctionName(s), GetArityTypesForService(s), GetArgumentsForService(s))
  }

  /** What registering `s` means, read off the record itself. */
  function Meaning(s: DependencyService): Decoded {
    Decoded(
      s.name,
      s.iface,
      Registration(s.key.Some?, LifetimeOf(s.lifetime)),
      if IsNullOrEmpty(s.key) then None else s.key)
  }

  /** Round trip: reading a generated statement back gives the record's
      implementation, bound interface, keyed-ness, lifetime and key. */
  lemma StatementRegistersService(p: Param, s: DependencyService)
    ensures RegistrationOf(CreateStatement(p, s)) == Some(Meaning(s))
  {
  }

  /** The two call shapes differ only in the access operator. */
  lemma CallShapesAgree(p: Param, q: Param, s: DependencyService)
    requires p.name == q.name
    ensures CreateStatement(p, s).fname == CreateStatement(q, s).fname
    ensures CreateStatement(p, s).typeArgs == CreateStatement(q, s).typeArgs
    ensures CreateStatement(p, s).args == CreateStatement(q, s).args
    ensures CreateStatement(p, s) == CreateStatement(q, s) <==>
      (p.annotation == NotAnnotated <==> q.annotation == NotAnnotated)
  {
  }

  /** An empty key still selects a keyed function but passes no key: the
      name tests for null, the argument list for null or empty. */
  lemma EmptyKeyKeyedWithoutArgument(p: Param, s: DependencyService)
    requires s.key == Some("")
    ensures ParseFunctionName(CreateStatement(p, s).fname).value.keyed
    ensures CreateStatement(p, s).args == []
  {
  }

  // ---------------------------------------------------------------------
  // One entry-point method

  /** The first parameter whose type is `IServiceCollection` (nullability
      ignored, as symbol equality ignores it). */
  function ServiceCollectionParameter(params: seq<Param>): (r: Option<Param>)
    ensures r.None? <==> forall k :: 0 <= k < |params| ==> params[k].typeId != ServiceCollectionType
    ensures r.Some? ==> exists k :: (0 <= k < |params| && params[k] == r.value
      && r.value.typeId == ServiceCollectionType
      && forall i :: 0 <= i < k ==> params[i].typeId != ServiceCollectionType)
  {
    if |params| == 0 then None
    else if params[0].typeId == ServiceCollectionType then Some(params[0])
    else
      var rest := ServiceCollectionParameter(params[1..]);
      assert forall k :: 0 <= k < |params[1..]| ==> params[1..][k] == params[k + 1];
      if rest.Some? then
        var k :| 0 <= k < |params[1..]| && params[1..][k] == rest.value
          && forall i :: 0 <= i < k ==> params[1..][i].typeId != ServiceCollectionType;
        assert params[k + 1] == rest.value;
        rest
      else rest
  }

  /** The body of an entry point: one statement per record, in record order,
      or a single `return;` when there are none. */
  function RegistrationStatements(p: Param, services: seq<DependencyService>): (r: seq<Stmt>)
    ensures |services| == 0 ==> r == [Return]
    ensures |services| > 0 ==> |r| == |services|
    ensures forall k :: 0 <= k < |services| ==> r[k] == CreateStatement(p, services[k])
  {
    if |services| == 0 then [Return]
    else seq(|services|, k requires 0 <= k < |services| => CreateStatement(p, services[k]))
  }

  /** Every statement of a non-empty body registers the record at the same
      position. */
  lemma StatementsRegisterInOrder(p: Param, services: seq<DependencyService>, k: nat)
    requires k < |services|
    ensures RegistrationOf(RegistrationStatements(p, services)[k]) == Some(Meaning(services[k]))
  {
    StatementRegistersService(p, services[k]);
  }

  /** An entry point is emitted only with the registration attribute, an
      `IServiceCollection` parameter and a void return. */
  predicate IsEntryPoint(m: MethodDecl) {
    && DependencyRegistrationAttribute in m.attrs
    && ServiceCollectionParameter(m.params).Some?
    && ReturnsVoid(m)
  }

  function MethodOutput(m: MethodDecl, services: seq<DependencyService>): (r: Option<MethodOut>)
    ensures r.Some? <==> IsEntryPoint(m)
    ensures r.Some? ==> (r.value.name == m.name && r.value.modifiers == m.modifiers
      && r.value.params == m.params && r.value.returnType == m.returnType
      && r.value.body == RegistrationStatements(ServiceCollectionParameter(m.params).value, services))
  {
    if DependencyRegistrationAttribute !in m.attrs then None
    else
      match ServiceCollectionParameter(m.params)
      case None => None
      case Some(p) =>
        if ReturnsVoid(m) then
          Some(MethodOut(m.name, m.modifiers, m.params, m.returnType, RegistrationStatements(p, services)))
        else None
  }

  /** The emitted methods of a class, in member order. */
  function EmittedMethods(members: seq<Member>, services: seq<DependencyService>): (r: seq<MethodOut>)
    ensures |r| <= |members|
  {
    if |members| == 0 then []
    else
      var head := if members[0].Method? then MethodOutput(members[0].m, services) else None;
      (if head.Some? then [head.value] else []) + EmittedMethods(members[1..], services)
  }

  /** Some method is emitted exactly when some member is an entry point. */
  lemma {:induction false} EmittedMethodsNonEmpty(members: seq<Member>, services: seq<DependencyService>)
    ensures |EmittedMethods(members, services)| > 0 <==>
      exists k :: 0 <= k < |members| && members[k].Method? && IsEntryPoint(members[k].m)
    decreases |members|
  {
    if |members| > 0 {
      EmittedMethodsNonEmpty(members[1..], services);
      assert forall k :: 0 <= k < |members[1..]| ==> members[1..][k] == members[k + 1];
      if exists k :: 0 <= k < |members| && members[k].Method? && IsEntryPoint(members[k].m) {
        var k :| 0 <= k < |members| && members[k].Method? && IsEntryPoint(members[k].m);
        if k > 0 {
          assert members[1..][k - 1] == members[k];
        }
      }
    }
  }

  /** Method names of the emitted methods are those of the entry points, in order. */
  lemma {:induction false} EmittedMethodsAreEntryPoints(members: seq<Member>, services: seq<DependencyService>)
    ensures forall o :: o in EmittedMethods(members, services) ==>
      exists k :: 0 <= k < |members| && members[k].Method? && IsEntryPoint(members[k].m)
        && MethodOutput(members[k].m, services) == Some(o)
    decreases |members|
  {
    if |members| > 0 {
      EmittedMethodsAreEntryPoints(members[1..], services);
      forall o | o in EmittedMethods(members, services)
        ensures exists k :: (0 <= k < |members| && members[k].Method? && IsEntryPoint(members[k].m)
          && MethodOutput(members[k].m, services) == Some(o))
      {
        var head := if members[0].Method? then MethodOutput(members[0].m, services) else None;
        if head.Some? && o == head.value {
          assert members[0].Method? && IsEntryPoint(members[0].m) && MethodOutput(members[0].m, services) == Some(o);
        } else {
          assert o in EmittedMethods(members[1..], services);
          var k :| 0 <= k < |members[1..]| && members[1..][k].Method? && IsEntryPoint(members[1..][k].m)
            && MethodOutput(members[1..][k].m, services) == Some(o);
          assert members[k + 1] == members[1..][k];
          assert members[k + 1].Method? && IsEntryPoint(members[k + 1].m)
            && MethodOutput(members[k + 1].m, services) == Some(o);
        }
      }
    }
  }

  // ---------------------------------------------------------------------
  // Namespace name

  /** `GetFullNamespace`: the dotted namespace, outermost first; for a type
      in the global namespace, the type's own name. */
  function GetFullNamespace(t: TypeDesc): (r: string)
    ensures t.ns.Global? ==> r == t.simpleName
    ensures t.ns.Ns? ==> r == Dotted(t.ns)
    ensures t.ns.Ns? && Identifiers(t.ns) ==> Split(r, '.') == Path(t.ns)
  {
    match t.ns
    case Global => t.simpleName
    case Ns(n, parent) =>
      NamespaceFacts(t.ns);
      PrependParents(parent, n)
  }

  // ---------------------------------------------------------------------
  // One class and the whole output

  /** `GenerateClassOutput`: `{Class}.g.cs` when both well-known types
      resolve, the declaration binds, and at least one method is emitted. */
  function GenerateClassOutput(c: Compilation, d: ClassDecl, services: seq<DependencyService>): (r: Option<Artifact>)
    ensures r.Some? <==>
      && MetadataName(DependencyRegistrationAttribute) in c.available
      && ServiceCollectionType in c.available
      && DeclaredType(c.types, d).Some?
      && exists k :: 0 <= k < |d.members| && d.members[k].Method? && IsEntryPoint(d.members[k].m)
    ensures r.Some? ==>
      && r.value.hintName == DeclaredType(c.types, d).value.simpleName + ".g.cs"
      && r.value.cls.name == DeclaredType(c.types, d).value.simpleName
      && r.value.cls.modifiers == d.modifiers
      && r.value.cls.methods == EmittedMethods(d.members, services)
      && r.value.ns == GetFullNamespace(DeclaredType(c.types, d).value)
      && r.value.usings == Usings
      && r.value.cls.nullableDirectives
  {
    EmittedMethodsNonEmpty(d.members, services);
    if MetadataName(DependencyRegistrationAttribute) !in c.available || ServiceCollectionType !in c.available then None
    else
      var methods := EmittedMethods(d.members, services);
      match DeclaredType(c.types, d)
      case None => None
      case Some(t) =>
        if |methods| == 0 then None
        else Some(Artifact(t.simpleName + ".g.cs", Usings, GetFullNamespace(t), ClassOut(t.simpleName, d.modifiers, true, methods)))
  }

  /** The fully qualified names of the classes in `ds` that bind. */
  function ClassNames(types: map<Name, TypeDesc>, ds: seq<ClassDecl>): set<Name> {
    set k | 0 <= k < |ds| && DeclaredType(types, ds[k]).Some? :: ds[k].symbol.value
  }

  /** The declarations `GenerateOutput` processes: the first binding
      declaration of every class. */
  function FirstPerClass(types: map<Name, TypeDesc>, ds: seq<ClassDecl>): seq<ClassDecl> {
    if |ds| == 0 then []
    else
      var p := FirstPerClass(types, ds[..|ds| - 1]);
      var d := ds[|ds| - 1];
      if DeclaredType(types, d).Some? && d.symbol.value !in ClassNames(types, p) then p + [d] else p
  }

  /** The artifacts of the processed declarations, in order. */
  function Artifacts(c: Compilation, ds: seq<ClassDecl>, services: seq<DependencyService>): seq<Artifact> {
    if |ds| == 0 then []
    else
      var init := Artifacts(c, ds[..|ds| - 1], services);
      match GenerateClassOutput(c, ds[|ds| - 1], services)
      case None => init
      case Some(a) => init + [a]
  }

  lemma ClassNamesAppend(types: map<Name, TypeDesc>, p: seq<ClassDecl>, d: ClassDecl)
    ensures ClassNames(types, p + [d]) ==
      ClassNames(types, p) + (if DeclaredType(types, d).Some? then {d.symbol.value} else {})
  {
    var q := p + [d];
    assert forall k :: 0 <= k < |p| ==> q[k] == p[k];
    assert q[|p|] == d;
  }

  /** `GenerateOutput`: walks the declarations grouped by syntax tree and
      generates each fully qualified class once, at its first declaration. */
  method GenerateOutput(c: Compilation, services: seq<DependencyService>, classDeclarations: seq<Option<ClassDecl>>)
    returns (artifacts: seq<Artifact>)
    ensures artifacts == Artifacts(c, FirstPerClass(c.types, Grouped(classDeclarations)), services)
  {
    var decls := Grouped(classDeclarations);
    var processedClasses: set<Name> := {};
    artifacts := [];
    var i := 0;
    while i < |decls|
      invariant 0 <= i <= |decls|
      decreases |decls| - i
      invariant processedClasses == ClassNames(c.types, FirstPerClass(c.types, decls[..i]))
      invariant artifacts == Artifacts(c, FirstPerClass(c.types, decls[..i]), services)
    {
      var classDec := decls[i];
      assert decls[..i + 1][..i] == decls[..i];
      var first := FirstPerClass(c.types, decls[..i]);
      match DeclaredType(c.types, classDec) {
        case None =>
        case Some(classSymbol) =>
          var fqn := classDec.symbol.value;
          if fqn !in processedClasses {
            var output := GenerateClassOutput(c, classDec, services);
            if output.Some? {
              artifacts := artifacts + [output.value];
            }
            ClassNamesAppend(c.types, first, classDec);
            processedClasses := processedClasses + {fqn};
          }
      }
      i := i + 1;
    }
    assert decls[..|decls|] == decls;
  }

  predicate Binds(types: map<Name, TypeDesc>, d: ClassDecl) {
    DeclaredType(types, d).Some?
  }

  /** `ds[k]` is the first binding declaration of its class in `ds`. */
  predicate IsFirst(types: map<Name, TypeDesc>, ds: seq<ClassDecl>, k: int) {
    && 0 <= k < |ds|
    && Binds(types, ds[k])
    && forall i :: 0 <= i < k ==> !(Binds(types, ds[i]) && ds[i].symbol == ds[k].symbol)
  }

  /** Every class that binds somewhere is processed. */
  lemma {:induction false} FirstPerClassNames(types: map<Name, TypeDesc>, ds: seq<ClassDecl>)
    ensures ClassNames(types, FirstPerClass(types, ds)) == ClassNames(types, ds)
    decreases |ds|
  {
    if |ds| > 0 {
      var init := ds[..|ds| - 1];
      var d := ds[|ds| - 1];
      FirstPerClassNames(types, init);
      assert ds == init + [d];
      ClassNamesAppend(types, init, d);
      ClassNamesAppend(types, FirstPerClass(types, init), d);
    }
  }

  /** Only first binding declarations are processed. */
  lemma {:induction false} FirstPerClassSound(types: map<Name, TypeDesc>, ds: seq<ClassDecl>, e: ClassDecl)
    requires e in FirstPerClass(types, ds)
    ensures exists k :: IsFirst(types, ds, k) && ds[k] == e
    decreases |ds|
  {
    var init := ds[..|ds| - 1];
    var d := ds[|ds| - 1];
    var p := FirstPerClass(types, init);
    if e in p {
      FirstPerClassSound(types, init, e);
      var k :| IsFirst(types, init, k) && init[k] == e;
      FirstInPrefix(types, ds, k);
    } else {
      assert e == d && Binds(types, d) && d.symbol.value !in ClassNames(types, p);
      FirstPerClassNames(types, init);
      NewClassIsFirst(types, ds);
    }
  }

  /** A first binding declaration of a prefix stays first in the whole list. */
  lemma FirstInPrefix(types: map<Name, TypeDesc>, ds: seq<ClassDecl>, k: int)
    requires |ds| > 0 && IsFirst(types, ds[..|ds| - 1], k)
    ensures IsFirst(types, ds, k) && ds[k] == ds[..|ds| - 1][k]
  {
    var init := ds[..|ds| - 1];
    assert forall i :: 0 <= i <= k ==> init[i] == ds[i];
  }

  /** The last declaration is first when its class is not named before it. */
  lemma NewClassIsFirst(types: map<Name, TypeDesc>, ds: seq<ClassDecl>)
    requires |ds| > 0 && Binds(types, ds[|ds| - 1])
    requires ds[|ds| - 1].symbol.value !in ClassNames(types, ds[..|ds| - 1])
    ensures IsFirst(types, ds, |ds| - 1)
  {
    var init := ds[..|ds| - 1];
    var d := ds[|ds| - 1];
    forall i | 0 <= i < |ds| - 1 && Binds(types, ds[i])
      ensures ds[i].symbol != d.symbol
    {
      assert init[i] == ds[i];
      assert ds[i].symbol.value in ClassNames(types, init);
    }
  }


  /** Every first binding declaration is processed. */
  lemma {:induction false} FirstPerClassComplete(types: map<Name, TypeDesc>, ds: seq<ClassDecl>, k: int)
    requires IsFirst(types, ds, k)
    ensures ds[k] in FirstPerClass(types, ds)
    decreases |ds|
  {
    var init := ds[..|ds| - 1];
    var d := ds[|ds| - 1];
    var p := FirstPerClass(types, init);
    if k < |ds| - 1 {
      assert IsFirst(types, init, k);
      FirstPerClassComplete(types, init, k);
    } else if d.symbol.value in ClassNames(types, p) {
      FirstPerClassNames(types, init);
      assert false;
    }
  }

  /** No class is processed twice. */
  lemma {:induction false} FirstPerClassDistinct(types: map<Name, TypeDesc>, ds: seq<ClassDecl>)
    ensures forall i :: 0 <= i < |FirstPerClass(types, ds)| ==> Binds(types, FirstPerClass(types, ds)[i])
    ensures forall i, j :: 0 <= i < j < |FirstPerClass(types, ds)| ==>
      FirstPerClass(types, ds)[i].symbol != FirstPerClass(types, ds)[j].symbol
    decreases |ds|
  {
    if |ds| > 0 {
      var init := ds[..|ds| - 1];
      var d := ds[|ds| - 1];
      var p := FirstPerClass(types, init);
      FirstPerClassDistinct(types, init);
      if Binds(types, d) && d.symbol.value !in ClassNames(types, p) {
        var q := p + [d];
        forall i | 0 <= i < |p|
          ensures q[i].symbol != d.symbol
        {
          assert q[i] == p[i];
          assert p[i].symbol.value in ClassNames(types, p);
        }
      }
    }
  }

  /** The processed declarations are exactly the first binding declaration
      of each class, each class once. */
  lemma FirstPerClassIsFirstOccurrence(types: map<Name, TypeDesc>, ds: seq<ClassDecl>)
    ensures forall e :: e in FirstPerClass(types, ds) <==> exists k :: IsFirst(types, ds, k) && ds[k] == e
    ensures ClassNames(types, FirstPerClass(types, ds)) == ClassNames(types, ds)
    ensures forall i, j :: 0 <= i < j < |FirstPerClass(types, ds)| ==>
      FirstPerClass(types, ds)[i].symbol != FirstPerClass(types, ds)[j].symbol
  {
    FirstPerClassNames(types, ds);
    FirstPerClassDistinct(types, ds);
    forall e ensures e in FirstPerClass(types, ds) <==> exists k :: IsFirst(types, ds, k) && ds[k] == e {
      if e in FirstPerClass(types, ds) {
        FirstPerClassSound(types, ds, e);
      }
      if exists k :: IsFirst(types, ds, k) && ds[k] == e {
        var k :| IsFirst(types, ds, k) && ds[k] == e;
        FirstPerClassComplete(types, ds, k);
      }
    }
  }
}
