/** The earlier generator, kept in the repository as a separate project: it
    finds services by attribute simple name, reads only the three-argument
    attribute form, and writes one file per entry-point method with its own
    return statement and class modifiers. */
module LegacyGenerator {
  import opened Common
  import opened Descriptors
  import opened Output
  import Current = DependenciesParser
  import CodeGenerator

  /** Attribute simple names the legacy generator matches on. */
  const ServiceAttributeName: string := "RegisterServiceAttribute"
  const InterfaceAttributeName: string := "RegisterInterfaceAttribute"

  /** The prefix a container parameter's displayed type must start with. */
  const ServiceCollectionDisplay: string := "Microsoft.Extensions.DependencyInjection.IServiceCollection"

  /** The lifetime code a record starts with (scoped). */
  const DefaultLifetime: int := 1

  /** The legacy service record. */
  datatype DependencyService = DependencyService(
    fullyQualifiedName: Name,
    fullyQualifiedInterfaceName: Option<Name>,
    keyedServiceName: Option<string>,
    serviceLifetime: int)

  // ---------------------------------------------------------------------
  // Looking up the service marker (SingleOrDefault by simple name)

  function CountNamed(markers: seq<Marker>, simple: string): nat {
    if |markers| == 0 then 0
    else (if markers[0].cls.simple == simple then 1 else 0) + CountNamed(markers[1..], simple)
  }

  /** `SingleOrDefault` does not throw: at most one service marker. */
  predicate SingleServiceMarker(t: TypeDesc) {
    CountNamed(t.markers, ServiceAttributeName) <= 1
  }

  /** The only marker with the given simple name, if there is one. */
  function SingleOrDefault(markers: seq<Marker>, simple: string): (r: Option<Marker>)
    requires CountNamed(markers, simple) <= 1
    ensures r.None? <==> forall k :: 0 <= k < |markers| ==> markers[k].cls.simple != simple
    ensures r.Some? ==> r.value in markers && r.value.cls.simple == simple
  {
    if |markers| == 0 then None
    else if markers[0].cls.simple == simple then
      NoneNamed(markers[1..], simple);
      Some(markers[0])
    else
      var r := SingleOrDefault(markers[1..], simple);
      assert forall k :: 1 <= k < |markers| ==> markers[k] == markers[1..][k - 1];
      r
  }

  lemma {:induction false} NoneNamed(markers: seq<Marker>, simple: string)
    requires CountNamed(markers, simple) == 0
    ensures forall k :: 0 <= k < |markers| ==> markers[k].cls.simple != simple
    decreases |markers|
  {
    if |markers| > 0 {
      NoneNamed(markers[1..], simple);
      assert forall k :: 1 <= k < |markers| ==> markers[k] == markers[1..][k - 1];
    }
  }

  // ---------------------------------------------------------------------
  // The interface search, by simple name

  predicate Eligible(t: TypeDesc) {
    exists k :: 0 <= k < |t.markers| && t.markers[k].cls.simple == InterfaceAttributeName
  }

  /** The interface itself if it carries an attribute named
      `RegisterInterfaceAttribute` (from any namespace), otherwise the first
      hit among its interfaces. */
  function CheckInterfaceHasAttribute(types: map<Name, TypeDesc>, n: Name): (r: Option<Name>)
    requires WellFormed(types) && n in types
    ensures r.Some? ==> r.value in types && Eligible(types[r.value])
    ensures Eligible(types[n]) ==> r == Some(n)
    decreases types[n].depth, 1, 0
  {
    if Eligible(types[n]) then Some(n)
    else SearchFrom(types, n, 0)
  }

  /** The loop over the interfaces of `owner` from position `k`: the first
      non-empty result. */
  function SearchFrom(types: map<Name, TypeDesc>, owner: Name, k: nat): (r: Option<Name>)
    requires WellFormed(types) && owner in types
    ensures r.Some? ==> r.value in types && Eligible(types[r.value])
    decreases types[owner].depth, 0, |types[owner].interfaces| - k
  {
    var ifs := types[owner].interfaces;
    if k >= |ifs| then None
    else
      var value := CheckInterfaceHasAttribute(types, ifs[k]);
      if !IsNullOrEmpty(if value.Some? then Some(value.value) else None) then value
      else SearchFrom(types, owner, k + 1)
  }

  /** The search returns the result for the first interface with a hit. */
  lemma {:induction false} SearchFromFirstHit(types: map<Name, TypeDesc>, owner: Name, k: nat)
    requires WellFormed(types) && owner in types
    ensures var ifs := types[owner].interfaces;
      SearchFrom(types, owner, k).None? <==>
        forall j :: k <= j < |ifs| ==> CheckInterfaceHasAttribute(types, ifs[j]).None?
    ensures var ifs := types[owner].interfaces;
      SearchFrom(types, owner, k).Some? ==>
        exists j :: k <= j < |ifs|
          && SearchFrom(types, owner, k) == CheckInterfaceHasAttribute(types, ifs[j])
          && forall i :: k <= i < j ==> CheckInterfaceHasAttribute(types, ifs[i]).None?
  {
    SearchFromMiss(types, owner, k);
    if SearchFrom(types, owner, k).Some? {
      var j := SearchFromHit(types, owner, k);
    }
  }

  lemma {:induction false} SearchFromMiss(types: map<Name, TypeDesc>, owner: Name, k: nat)
    requires WellFormed(types) && owner in types
    ensures var ifs := types[owner].interfaces;
      SearchFrom(types, owner, k).None? <==>
        forall j :: k <= j < |ifs| ==> CheckInterfaceHasAttribute(types, ifs[j]).None?
    decreases |types[owner].interfaces| - k
  {
    var ifs := types[owner].interfaces;
    if k < |ifs| {
      var value := CheckInterfaceHasAttribute(types, ifs[k]);
      if value.None? {
        assert SearchFrom(types, owner, k) == SearchFrom(types, owner, k + 1);
        SearchFromMiss(types, owner, k + 1);
      } else {
        assert SearchFrom(types, owner, k) == value;
      }
    }
  }

  /** The position of the hit the search returns. */
  lemma {:induction false} SearchFromHit(types: map<Name, TypeDesc>, owner: Name, k: nat) returns (j: nat)
    requires WellFormed(types) && owner in types
    requires SearchFrom(types, owner, k).Some?
    ensures k <= j < |types[owner].interfaces|
    ensures SearchFrom(types, owner, k) == CheckInterfaceHasAttribute(types, types[owner].interfaces[j])
    ensures forall i :: k <= i < j ==> CheckInterfaceHasAttribute(types, types[owner].interfaces[i]).None?
    decreases |types[owner].interfaces| - k
  {
    var ifs := types[owner].interfaces;
    var value := CheckInterfaceHasAttribute(types, ifs[k]);
    if value.None? {
      assert SearchFrom(types, owner, k) == SearchFrom(types, owner, k + 1);
      j := SearchFromHit(types, owner, k + 1);
    } else {
      assert SearchFrom(types, owner, k) == value;
      j := k;
    }
  }


  /** No attribute elsewhere is called `RegisterInterfaceAttribute`. */
  predicate NoLookalikeInterfaceMarkers(types: map<Name, TypeDesc>) {
    forall n, k :: n in types && 0 <= k < |types[n].markers| && types[n].markers[k].cls.simple == InterfaceAttributeName
      ==> types[n].markers[k].cls == RegisterInterfaceAttribute
  }

  /** Matching by simple name finds what the current resolver finds, as long
      as no other attribute shares the simple name. */
  lemma {:induction false} SearchAgreesWithCurrent(types: map<Name, TypeDesc>, n: Name)
    requires WellFormed(types) && n in types && NoLookalikeInterfaceMarkers(types)
    ensures CheckInterfaceHasAttribute(types, n) == Current.CheckInterfaceHasAttribute(types, n)
    decreases types[n].depth, 1, 0
  {
    assert Eligible(types[n]) <==> Current.Eligible(types[n]);
    if !Eligible(types[n]) {
      SearchFromAgreesWithCurrent(types, n, 0);
    }
  }

  lemma {:induction false} SearchFromAgreesWithCurrent(types: map<Name, TypeDesc>, owner: Name, k: nat)
    requires WellFormed(types) && owner in types && NoLookalikeInterfaceMarkers(types)
    ensures SearchFrom(types, owner, k) == Current.SearchFrom(types, owner, k)
    decreases types[owner].depth, 0, |types[owner].interfaces| - k
  {
    var ifs := types[owner].interfaces;
    if k < |ifs| {
      SearchAgreesWithCurrent(types, ifs[k]);
      SearchFromAgreesWithCurrent(types, owner, k + 1);
    }
  }

  // ---------------------------------------------------------------------
  // LookupServices

  /** The inference loop: each iteration stores the search result and stops
      at the first non-empty one. */
  function InferInterface(types: map<Name, TypeDesc>, cls: Name, k: nat, current: Option<Name>): Option<Name>
    requires WellFormed(types) && cls in types
    decreases |types[cls].interfaces| - k
  {
    var ifs := types[cls].interfaces;
    if k >= |ifs| then current
    else
      var v := CheckInterfaceHasAttribute(types, ifs[k]);
      if !IsNullOrEmpty(if v.Some? then Some(v.value) else None) then v
      else InferInterface(types, cls, k + 1, v)
  }

  /** The inference loop yields the first hit over the class's interfaces. */
  lemma {:induction false} InferIsFirstHit(types: map<Name, TypeDesc>, cls: Name, k: nat, current: Option<Name>)
    requires WellFormed(types) && cls in types
    requires current.None?
    ensures InferInterface(types, cls, k, current) == SearchFrom(types, cls, k)
    decreases |types[cls].interfaces| - k
  {
    var ifs := types[cls].interfaces;
    if k < |ifs| {
      var v := CheckInterfaceHasAttribute(types, ifs[k]);
      if v.None? {
        InferIsFirstHit(types, cls, k + 1, v);
      }
    }
  }

  /** Every service symbol is a known type whose service marker is unique. */
  predicate Resolvable(types: map<Name, TypeDesc>, services: seq<Option<Name>>) {
    forall k :: 0 <= k < |services| && services[k].Some? ==>
      services[k].value in types && SingleServiceMarker(types[services[k].value])
  }

  /** The body of the loop in `LookupServices`, for one service symbol. */
  function LookupService(types: map<Name, TypeDesc>, n: Name): (r: Option<DependencyService>)
    requires WellFormed(types) && n in types && SingleServiceMarker(types[n])
    ensures var attr := SingleOrDefault(types[n].markers, ServiceAttributeName);
      r.Some? <==> attr.Some? && |attr.value.ctorArgs| == 3
    ensures r.Some? ==> var args := SingleOrDefault(types[n].markers, ServiceAttributeName).value.ctorArgs;
      && r.value.fullyQualifiedName == n
      && r.value.serviceLifetime == (if args[0].IntV? then args[0].i else DefaultLifetime)
      && r.value.keyedServiceName == (if args[1].StrV? then Some(args[1].s) else None)
      && (args[2].TypeV? ==> r.value.fullyQualifiedInterfaceName == Some(args[2].t))
      && (!args[2].TypeV? ==> r.value.fullyQualifiedInterfaceName == SearchFrom(types, n, 0))
  {
    match SingleOrDefault(types[n].markers, ServiceAttributeName)
    case None => None
    case Some(attr) =>
      if |attr.ctorArgs| != 3 then None
      else
        var args := attr.ctorArgs;
        var lifetime := if args[0].IntV? then args[0].i else DefaultLifetime;
        var key := if args[1].StrV? then Some(args[1].s) else None;
        var explicit: Option<Name> := if args[2].TypeV? then Some(args[2].t) else None;
        var iface :=
          if IsNullOrEmpty(if explicit.Some? then Some(explicit.value) else None)
          then InferInterface(types, n, 0, explicit)
          else explicit;
        InferIsFirstHit(types, n, 0, None);
        Some(DependencyService(n, iface, key, lifetime))
  }

  /** The records `LookupServices` returns: one per service symbol whose
      marker has the three-argument form, in input order. */
  function Lookup(types: map<Name, TypeDesc>, services: seq<Option<Name>>): (r: seq<DependencyService>)
    requires WellFormed(types) && Resolvable(types, services)
    ensures |r| <= |services|
  {
    if |services| == 0 then []
    else
      var init := services[..|services| - 1];
      var last := services[|services| - 1];
      var rest := Lookup(types, init);
      if last.None? then rest
      else
        match LookupService(types, last.value)
        case None => rest
        case Some(ds) => rest + [ds]
  }

  method LookupServices(types: map<Name, TypeDesc>, services: seq<Option<Name>>) returns (values: seq<DependencyService>)
    requires WellFormed(types) && Resolvable(types, services)
    ensures values == Lookup(types, services)
    ensures forall v :: v in values ==> exists k :: 0 <= k < |services| && services[k] == Some(v.fullyQualifiedName)
  {
    values := [];
    var i := 0;
    while i < |services|
      invariant 0 <= i <= |services|
      invariant values == Lookup(types, services[..i])
    {
      assert services[..i + 1][..i] == services[..i];
      var service := services[i];
      if service.Some? {
        var ds := LookupService(types, service.value);
        if ds.Some? {
          values := values + [ds.value];
        }
      }
      i := i + 1;
    }
    assert services[..|services|] == services;
    LookupFromListed(types, services);
  }

  /** Every record names one of the listed service symbols. */
  lemma {:induction false} LookupFromListed(types: map<Name, TypeDesc>, services: seq<Option<Name>>)
    requires WellFormed(types) && Resolvable(types, services)
    ensures forall v :: v in Lookup(types, services) ==>
      exists k :: 0 <= k < |services| && services[k] == Some(v.fullyQualifiedName)
    decreases |services|
  {
    if |services| > 0 {
      var init := services[..|services| - 1];
      var last := services[|services| - 1];
      assert forall k :: 0 <= k < |init| ==> init[k] == services[k];
      LookupFromListed(types, init);
      forall v | v in Lookup(types, services)
        ensures exists k :: 0 <= k < |services| && services[k] == Some(v.fullyQualifiedName)
      {
        if v !in Lookup(types, init) {
          assert services[|services| - 1] == Some(v.fullyQualifiedName);
        }
      }
    }
  }

  /** Only the three-argument form yields a record: a marker with any other
      number of constructor arguments contributes nothing. */
  lemma {:induction false} OnlyThreeArgumentForm(types: map<Name, TypeDesc>, services: seq<Option<Name>>)
    requires WellFormed(types) && Resolvable(types, services)
    requires forall k :: 0 <= k < |services| && services[k].Some? ==>
      forall j :: 0 <= j < |types[services[k].value].markers| ==> |types[services[k].value].markers[j].ctorArgs| != 3
    ensures Lookup(types, services) == []
    decreases |services|
  {
    if |services| > 0 {
      var init := services[..|services| - 1];
      assert forall k :: 0 <= k < |init| ==> init[k] == services[k];
      OnlyThreeArgumentForm(types, init);
    }
  }

  // ---------------------------------------------------------------------
  // One registration statement

  /** `CreateAddStatementWithInterface`: the key literal and the `Keyed`
      infix are both tied to a non-null key. */
  function CreateAddStatementWithInterface(p: Param, s: DependencyService): (r: Stmt)
    ensures r.Call? && r.receiver == p.name
    ensures r.conditional <==> p.annotation != NotAnnotated
    ensures RegistrationOf(r) == Some(Decoded(
      s.fullyQualifiedName,
      s.fullyQualifiedInterfaceName,
      Registration(s.keyedServiceName.Some?, LifetimeOf(s.serviceLifetime)),
      s.keyedServiceName))
  {
    var keyed := s.keyedServiceName.Some?;
    var arguments := if keyed then [s.keyedServiceName.value] else [];
    var functionString := "Add" + (if keyed then "Keyed" else "");
    var functionString' :=
      if s.serviceLifetime == 1 then functionString + "Scoped"
      else if s.serviceLifetime == 2 then functionString + "Transient"
      else functionString + "Singleton";
    var types := (if s.fullyQualifiedInterfaceName.Some? then [s.fullyQualifiedInterfaceName.value] else [])
      + [s.fullyQualifiedName];
    ParseFunctionNameInverse(Registration(keyed, LifetimeOf(s.serviceLifetime)));
    assert functionString' == FunctionName(Registration(keyed, LifetimeOf(s.serviceLifetime)));
    Call(p.name, p.annotation != NotAnnotated, functionString', types, arguments)
  }

  /** The current generator's record for the same service. */
  function AsCurrent(s: DependencyService): Current.DependencyService {
    Current.DependencyService(s.fullyQualifiedName, s.fullyQualifiedInterfaceName, s.keyedServiceName, s.serviceLifetime)
  }

  /** Both variants write the same call for the same record, except that the
      current one drops the argument of an empty key. */
  lemma StatementMatchesCurrent(p: Param, s: DependencyService)
    ensures s.keyedServiceName != Some("") ==>
      CreateAddStatementWithInterface(p, s) == CodeGenerator.CreateStatement(p, AsCurrent(s))
    ensures s.keyedServiceName == Some("") ==>
      CreateAddStatementWithInterface(p, s).args == [""] && CodeGenerator.CreateStatement(p, AsCurrent(s)).args == []
  {
    CodeGenerator.StatementRegistersService(p, AsCurrent(s));
  }

  // ---------------------------------------------------------------------
  // Class modifiers

  function AccessTokens(a: Accessibility): (r: seq<string>)
    ensures "partial" !in r
  {
    match a
    case Public => ["public"]
    case Private => ["private"]
    case Internal => ["internal"]
    case Protected => ["protected"]
    case ProtectedOrInternal => ["protected", "internal"]
    case _ => []
  }

  /** `[token]` when `present`, else nothing. */
  function Opt(present: bool, token: string): seq<string> {
    if present then [token] else []
  }

  function FlagTokens(f: TypeFlags): (r: seq<string>)
    ensures "partial" !in r
  {
    Opt(f.isStatic, "static") + (Opt(f.isAbstract, "abstract") + (Opt(f.isVirtual, "virtual")
      + (Opt(f.isOverride, "override") + Opt(f.isSealed, "sealed"))))
  }

  /** `GetModifiers`: accessibility, then the type's flags, then `partial`. */
  function GetModifiers(t: TypeDesc): (r: seq<string>)
    ensures |r| >= 1 && r[|r| - 1] == "partial"
    ensures forall k :: 0 <= k < |r| - 1 ==> r[k] != "partial"
  {
    var written := AccessTokens(t.access) + FlagTokens(t.flags);
    assert "partial" !in written;
    assert (written + ["partial"])[..|written|] == written;
    written + ["partial"]
  }

  /** The accessibility that survives the round trip: the two kinds without
      a token of their own read back as not applicable. */
  function Written(a: Accessibility): Accessibility {
    if a == ProtectedAndInternal then NotApplicable else a
  }

  /** Consumes `token` when it heads `xs`. */
  function Take(xs: seq<string>, token: string): (bool, seq<string>) {
    if |xs| > 0 && xs[0] == token then (true, xs[1..]) else (false, xs)
  }

  /** Reads the flag tokens, each at most once and in `GetModifiers` order. */
  function ParseFlags(xs: seq<string>): Option<TypeFlags> {
    var (isStatic, r1) := Take(xs, "static");
    var (isAbstract, r2) := Take(r1, "abstract");
    var (isVirtual, r3) := Take(r2, "virtual");
    var (isOverride, r4) := Take(r3, "override");
    var (isSealed, r5) := Take(r4, "sealed");
    if r5 == [] then Some(TypeFlags(isStatic, isAbstract, isVirtual, isOverride, isSealed)) else None
  }

  /** Reads the accessibility tokens heading `body`, and how many there are. */
  function ReadAccess(body: seq<string>): (r: (Accessibility, nat))
    ensures r.1 <= |body|
  {
    if |body| >= 2 && body[0] == "protected" && body[1] == "internal" then (ProtectedOrInternal, 2)
    else if |body| >= 1 && body[0] == "public" then (Public, 1)
    else if |body| >= 1 && body[0] == "private" then (Private, 1)
    else if |body| >= 1 && body[0] == "internal" then (Internal, 1)
    else if |body| >= 1 && body[0] == "protected" then (Protected, 1)
    else (NotApplicable, 0)
  }

  /** Reads a modifier list of the shape `GetModifiers` writes. */
  function ParseModifiers(mods: seq<string>): Option<(Accessibility, TypeFlags)> {
    if |mods| == 0 || mods[|mods| - 1] != "partial" then None
    else
      var body := mods[..|mods| - 1];
      var (access, n) := ReadAccess(body);
      match ParseFlags(body[n..])
      case None => None
      case Some(flags) => Some((access, flags))
  }

  predicate IsFlagToken(s: string) {
    s == "static" || s == "abstract" || s == "virtual" || s == "override" || s == "sealed"
  }

  lemma TakeOpt(present: bool, token: string, tail: seq<string>)
    requires |tail| == 0 || tail[0] != token
    ensures Take(Opt(present, token) + tail, token) == (present, tail)
  {
    if present {
      assert (Opt(present, token) + tail)[1..] == tail;
    } else {
      assert Opt(present, token) + tail == tail;
    }
  }

  lemma ParseFlagTokens(f: TypeFlags)
    ensures ParseFlags(FlagTokens(f)) == Some(f)
    ensures |FlagTokens(f)| > 0 ==> IsFlagToken(FlagTokens(f)[0])
  {
    var t5 := Opt(f.isSealed, "sealed");
    var t4 := Opt(f.isOverride, "override") + t5;
    var t3 := Opt(f.isVirtual, "virtual") + t4;
    var t2 := Opt(f.isAbstract, "abstract") + t3;
    var t1 := Opt(f.isStatic, "static") + t2;
    TakeOpt(f.isStatic, "static", t2);
    TakeOpt(f.isAbstract, "abstract", t3);
    TakeOpt(f.isVirtual, "virtual", t4);
    TakeOpt(f.isOverride, "override", t5);
    TakeOpt(f.isSealed, "sealed", []);
    assert t5 + [] == t5;
  }

  lemma ReadAccessTokens(a: Accessibility, rest: seq<string>)
    requires |rest| == 0 || IsFlagToken(rest[0])
    ensures ReadAccess(AccessTokens(a) + rest) == (Written(a), |AccessTokens(a)|)
  {
    var body := AccessTokens(a) + rest;
    match a
    case ProtectedOrInternal =>
      assert body[0] == "protected" && body[1] == "internal";
    case Public =>
      assert body[0] == "public";
    case Private =>
      assert body[0] == "private";
    case Internal =>
      assert body[0] == "internal";
    case Protected =>
      assert body[0] == "protected";
      assert |body| >= 2 ==> body[1] == rest[0];
    case _ =>
      assert body == rest;
  }

  /** The modifiers read back as the type's accessibility and flags. */
  lemma ModifiersRoundTrip(t: TypeDesc)
    ensures ParseModifiers(GetModifiers(t)) == Some((Written(t.access), t.flags))
  {
    var mods := GetModifiers(t);
    var access := AccessTokens(t.access);
    var rest := FlagTokens(t.flags);
    var body := access + rest;
    assert mods[..|mods| - 1] == body;
    assert body[|access|..] == rest;
    ParseFlagTokens(t.flags);
    ReadAccessTokens(t.access, rest);
  }

  // ---------------------------------------------------------------------
  // Parameter list

  datatype ParamOut = ParamOut(name: string, typeName: string, modifiers: seq<string>)

  /** `CreateParameterList`: name and displayed type, with at most one
      modifier, `ref` before `out` before `params`. */
  function CreateParameterList(params: seq<Param>): (r: seq<ParamOut>)
    ensures |r| == |params|
    ensures forall k :: 0 <= k < |params| ==>
      && r[k].name == params[k].name
      && r[k].typeName == params[k].display
      && |r[k].modifiers| <= 1
      && (r[k].modifiers == ["ref"] <==> params[k].refKind == Ref)
      && (r[k].modifiers == ["out"] <==> params[k].refKind == Out)
      && (r[k].modifiers == ["params"] <==> params[k].isParams && params[k].refKind != Ref && params[k].refKind != Out)
  {
    seq(|params|, k requires 0 <= k < |params| =>
      var p := params[k];
      ParamOut(p.name, p.display,
        if p.refKind == Ref then ["ref"]
        else if p.refKind == Out then ["out"]
        else if p.isParams then ["params"]
        else []))
  }

  /** The kinds of parameter a written parameter list tells apart. */
  datatype ParamKind = Plain | ByRef | ByOut | Variadic

  /** The kind of a parameter in C#: `ref` and `out` by their ref kind;
      otherwise a `params` array or a plain parameter. `in` and
      `ref readonly` parameters have no kind of their own here. */
  function KindOf(p: Param): ParamKind {
    match p.refKind
    case Ref => ByRef
    case Out => ByOut
    case _ => if p.isParams then Variadic else Plain
  }

  /** A written parameter as its tokens: modifier, type, name. */
  function ParamTokens(o: ParamOut): seq<string> {
    o.modifiers + [o.typeName, o.name]
  }

  /** Reads a written parameter back to its name, type and kind. */
  function ParseParam(tokens: seq<string>): Option<(string, string, ParamKind)> {
    if |tokens| == 2 then Some((tokens[1], tokens[0], Plain))
    else if |tokens| == 3 then
      if tokens[0] == "ref" then Some((tokens[2], tokens[1], ByRef))
      else if tokens[0] == "out" then Some((tokens[2], tokens[1], ByOut))
      else if tokens[0] == "params" then Some((tokens[2], tokens[1], Variadic))
      else None
    else None
  }

  /** Every written parameter reads back as the parameter's name, displayed
      type and kind. */
  lemma ParameterListReadsBack(params: seq<Param>, k: nat)
    requires k < |params|
    ensures ParseParam(ParamTokens(CreateParameterList(params)[k]))
      == Some((params[k].name, params[k].display, KindOf(params[k])))
  {
    var o := CreateParameterList(params)[k];
    var t := ParamTokens(o);
    assert |o.modifiers| == 0 ==> t == [o.typeName, o.name];
    assert |o.modifiers| == 1 ==> t == [o.modifiers[0], o.typeName, o.name];
  }

  // ---------------------------------------------------------------------
  // Namespace name

  /** `GetFullNamespace`: the dotted namespace, outermost first; the empty
      string for the global namespace. */
  function GetFullNamespace(t: TypeDesc): (r: string)
    ensures t.ns.Global? ==> r == ""
    ensures t.ns.Ns? ==> r == Dotted(t.ns)
    ensures t.ns.Ns? && Identifiers(t.ns) ==> Split(r, '.') == Path(t.ns)
  {
    match t.ns
    case Global => ""
    case Ns(n, parent) =>
      NamespaceFacts(t.ns);
      PrependParents(parent, n)
  }

  /** The two variants agree on the namespace name except in the global
      namespace, where the current one writes the type's name. */
  lemma NamespaceMatchesCurrent(t: TypeDesc)
    ensures t.ns.Ns? ==> GetFullNamespace(t) == CodeGenerator.GetFullNamespace(t)
    ensures t.ns.Global? ==> GetFullNamespace(t) == "" && CodeGenerator.GetFullNamespace(t) == t.simpleName
  {
  }

  // ---------------------------------------------------------------------
  // One entry-point method

  /** An entry point: the method symbol, paired with its declaration, and
      the type containing it. */
  datatype Entry = Entry(m: MethodDecl, owner: TypeDesc)

  /** The first parameter whose displayed type starts with the container
      interface's name (so the nullable `IServiceCollection?` matches). */
  function ServiceCollectionParameter(params: seq<Param>): (r: Option<Param>)
    ensures r.None? <==> forall k :: 0 <= k < |params| ==> !StartsWith(params[k].display, ServiceCollectionDisplay)
    ensures r.Some? ==> exists k :: (0 <= k < |params| && params[k] == r.value
      && StartsWith(r.value.display, ServiceCollectionDisplay)
      && forall i :: 0 <= i < k ==> !StartsWith(params[i].display, ServiceCollectionDisplay))
  {
    if |params| == 0 then None
    else if StartsWith(params[0].display, ServiceCollectionDisplay) then Some(params[0])
    else
      var rest := ServiceCollectionParameter(params[1..]);
      assert forall k :: 0 <= k < |params[1..]| ==> params[1..][k] == params[k + 1];
      if rest.Some? then
        var k :| 0 <= k < |params[1..]| && params[1..][k] == rest.value
          && forall i :: 0 <= i < k ==> !StartsWith(params[1..][i].display, ServiceCollectionDisplay);
        assert params[k + 1] == rest.value;
        rest
      else rest
  }

  /** The return statement closing the body, if any. */
  function ReturnStatement(m: MethodDecl, p: Option<Param>): (r: seq<Stmt>)
    ensures |r| <= 1
    ensures p.Some? && m.returnType == p.value.display ==> r == [ReturnParam(p.value.name)]
    ensures !(p.Some? && m.returnType == p.value.display) && !ReturnsVoid(m) ==> r == [ReturnDefault(m.returnType)]
    ensures !(p.Some? && m.returnType == p.value.display) && ReturnsVoid(m) ==> r == []
  {
    if p.Some? && m.returnType == p.value.display then [ReturnParam(p.value.name)]
    else if !ReturnsVoid(m) then [ReturnDefault(m.returnType)]
    else []
  }

  /** The body: one registration per record when there is a container
      parameter, then the return statement. */
  function Body(m: MethodDecl, services: seq<DependencyService>): (r: seq<Stmt>)
    ensures var p := ServiceCollectionParameter(m.params);
      var calls := if p.Some? then |services| else 0;
      && |r| == calls + |ReturnStatement(m, p)|
      && (forall k :: 0 <= k < calls ==> r[k] == CreateAddStatementWithInterface(p.value, services[k]))
      && r[calls..] == ReturnStatement(m, p)
  {
    var p := ServiceCollectionParameter(m.params);
    var statements :=
      if p.Some? then seq(|services|, k requires 0 <= k < |services| => CreateAddStatementWithInterface(p.value, services[k]))
      else [];
    statements + ReturnStatement(m, p)
  }

  /** `GenerateRegistrationCode`: `{Class}.{Method}.g.cs` holding the class
      with the regenerated method; `None` for a missing symbol. */
  function GenerateRegistrationCode(entry: Option<Entry>, services: seq<DependencyService>): (r: Option<Artifact>)
    ensures r.Some? <==> entry.Some?
    ensures r.Some? ==> var e := entry.value; var p := ServiceCollectionParameter(e.m.params);
      && r.value.hintName == e.owner.simpleName + "." + e.m.name + ".g.cs"
      && r.value.usings == Usings
      && r.value.ns == GetFullNamespace(e.owner)
      && r.value.cls.name == e.owner.simpleName
      && r.value.cls.modifiers == GetModifiers(e.owner)
      && (r.value.cls.nullableDirectives <==> p.Some? && p.value.annotation != NotAnnotated)
      && r.value.cls.methods == [MethodOut(e.m.name, e.m.modifiers, e.m.params, e.m.returnType, Body(e.m, services))]
  {
    match entry
    case None => None
    case Some(Entry(m, owner)) =>
      var p := ServiceCollectionParameter(m.params);
      var generated := MethodOut(m.name, m.modifiers, m.params, m.returnType, Body(m, services));
      var cls := ClassOut(owner.simpleName, GetModifiers(owner), p.Some? && p.value.annotation != NotAnnotated, [generated]);
      Some(Artifact(owner.simpleName + "." + m.name + ".g.cs", Usings, GetFullNamespace(owner), cls))
  }

  /** Without a container parameter no service is registered: the body is
      at most a `return default(T);`. */
  lemma NoContainerNoRegistrations(m: MethodDecl, services: seq<DependencyService>)
    requires forall k :: 0 <= k < |m.params| ==> !StartsWith(m.params[k].display, ServiceCollectionDisplay)
    ensures forall s :: s in Body(m, services) ==> !s.Call?
    ensures Body(m, services) == (if ReturnsVoid(m) then [] else [ReturnDefault(m.returnType)])
  {
    var p := ServiceCollectionParameter(m.params);
    var b := Body(m, services);
    assert b[0..] == b;
    assert b == ReturnStatement(m, p);
  }

  /** A void method's body is registrations only; a non-void one ends in
      exactly one return statement (a container-typed return type is never
      `void`). */
  lemma {:induction false} ReturnOnlyWhenNonVoid(m: MethodDecl, services: seq<DependencyService>)
    ensures var body := Body(m, services);
      ReturnsVoid(m) ==> forall k :: 0 <= k < |body| ==> body[k].Call?
    ensures var body := Body(m, services);
      !ReturnsVoid(m) ==> (|body| >= 1 && !body[|body| - 1].Call?
        && forall k :: 0 <= k < |body| - 1 ==> body[k].Call?)
  {
    var p := ServiceCollectionParameter(m.params);
    var body := Body(m, services);
    var calls := if p.Some? then |services| else 0;
    if p.Some? && m.returnType == p.value.display {
      assert |m.returnType| >= |ServiceCollectionDisplay|;
      assert !ReturnsVoid(m);
    }
    assert body[calls..] == ReturnStatement(m, p);
    forall k | 0 <= k < calls ensures body[k].Call? {
    }
    if !ReturnsVoid(m) {
      assert |body| == calls + 1;
      assert body[|body| - 1] == body[calls..][0];
    }
  }

  /** With a container parameter, statement `k` registers record `k`. */
  lemma BodyRegistersInOrder(m: MethodDecl, services: seq<DependencyService>, k: nat)
    requires ServiceCollectionParameter(m.params).Some? && k < |services|
    ensures var s := services[k];
      RegistrationOf(Body(m, services)[k]) == Some(Decoded(s.fullyQualifiedName, s.fullyQualifiedInterfaceName,
        Registration(s.keyedServiceName.Some?, LifetimeOf(s.serviceLifetime)), s.keyedServiceName))
  {
  }
}
