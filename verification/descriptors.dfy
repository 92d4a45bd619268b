/** The compiler's symbol model, reduced to the plain values both generators
    read: types with their attributes and implemented interfaces, class and
    method declarations, parameters, and namespaces. Identity of a type is its
    fully qualified display name. */
module Descriptors {
  import opened Common

  /** A fully qualified type name as the compiler displays it; never empty. */
  type Name = s: string | |s| > 0 witness "T"

  /** An attribute class, by namespace and simple name. */
  datatype AttrClass = AttrClass(ns: string, simple: string)

  const AttributesNamespace: string := "GaoWare.DependencyInjection.Attributes"
  const RegisterServiceAttribute: AttrClass := AttrClass(AttributesNamespace, "RegisterServiceAttribute")
  const RegisterInterfaceAttribute: AttrClass := AttrClass(AttributesNamespace, "RegisterInterfaceAttribute")
  const DependencyRegistrationAttribute: AttrClass := AttrClass(AttributesNamespace, "DependencyRegistrationAttribute")

  /** Metadata names of the types the current generator looks up before doing anything. */
  const ServiceLifetimeType: string := "Microsoft.Extensions.DependencyInjection.ServiceLifetime"
  const ServiceCollectionType: string := "Microsoft.Extensions.DependencyInjection.IServiceCollection"

  function MetadataName(a: AttrClass): string {
    if a.ns == "" then a.simple else a.ns + "." + a.simple
  }

  /** The value of an attribute argument. `IntV` is an int or an enum member
      (its underlying int), `TypeV` a `typeof` of a named type, `ErrorV` an
      argument the compiler could not bind, `OtherV` anything else (null, a
      bool, an array type, ...). */
  datatype Value = IntV(i: int) | StrV(s: string) | TypeV(t: Name) | ErrorV | OtherV

  /** One attribute applied to a symbol: its class, constructor arguments and
      named arguments in source order. */
  datatype Marker = Marker(cls: AttrClass, ctorArgs: seq<Value>, namedArgs: seq<(string, Value)>)

  /** A containing-namespace chain, innermost first. */
  datatype Namespace = Global | Ns(name: string, parent: Namespace)

  datatype Accessibility =
    | NotApplicable | Private | ProtectedAndInternal | Protected
    | Internal | ProtectedOrInternal | Public

  datatype TypeFlags = TypeFlags(isStatic: bool, isAbstract: bool, isVirtual: bool, isOverride: bool, isSealed: bool)

  /** A named type. `interfaces` is the type's transitive interface list in
      declaration order; `depth` bounds the interface graph so that it is
      acyclic (see `WellFormed`). */
  datatype TypeDesc = TypeDesc(
    name: Name,
    simpleName: string,
    ns: Namespace,
    access: Accessibility,
    flags: TypeFlags,
    markers: seq<Marker>,
    interfaces: seq<Name>,
    depth: nat)

  /** What the current generator can ask of the compilation: the named types,
      and which well-known metadata names it can resolve. */
  datatype Compilation = Compilation(types: map<Name, TypeDesc>, available: set<string>)

  /** Every type is stored under its own name, and every interface it lists is
      known and strictly shallower, so interface walks terminate. */
  predicate WellFormed(types: map<Name, TypeDesc>) {
    forall n :: n in types ==>
      && types[n].name == n
      && forall i :: i in types[n].interfaces ==> i in types && types[i].depth < types[n].depth
  }

  predicate HasMarker(t: TypeDesc, cls: AttrClass) {
    exists k :: 0 <= k < |t.markers| && t.markers[k].cls == cls
  }

  datatype Nullability = NotAnnotated | Annotated | Oblivious
  datatype RefKind = NoRef | Ref | Out | In | RefReadOnlyParameter

  /** A method parameter: `typeId` is the metadata name of its type (what
      symbol equality compares, nullability ignored), `display` the type as
      displayed (with a trailing `?` when annotated). */
  datatype Param = Param(name: string, typeId: string, display: string, annotation: Nullability, refKind: RefKind, isParams: bool)

  /** A method declaration with its symbol's attributes; `returnType` is the
      displayed return type, "void" for a void method. */
  datatype MethodDecl = MethodDecl(name: string, attrs: seq<AttrClass>, params: seq<Param>, returnType: string, modifiers: seq<string>)

  predicate ReturnsVoid(m: MethodDecl) {
    m.returnType == "void"
  }

  datatype Member = Method(m: MethodDecl) | OtherMember

  /** A class declaration: the syntax tree it lives in, the type it declares
      (`None` when the compiler cannot bind it), the attributes written on it
      (`None` for one that does not bind), its modifiers and members. */
  datatype ClassDecl = ClassDecl(tree: nat, symbol: Option<Name>, attrs: seq<Option<AttrClass>>, modifiers: seq<string>, members: seq<Member>)

  /** The declared type of a class declaration, when the compiler binds it. */
  function DeclaredType(types: map<Name, TypeDesc>, d: ClassDecl): Option<TypeDesc> {
    if d.symbol.Some? && d.symbol.value in types then Some(types[d.symbol.value]) else None
  }

  // ---------------------------------------------------------------------
  // Grouping of declarations by syntax tree (LINQ GroupBy on x?.SyntaxTree:
  // groups in order of their first element, elements in input order; the
  // group of null declarations is skipped by both callers).

  function NonNull(ds: seq<Option<ClassDecl>>): (r: seq<ClassDecl>)
    ensures |r| <= |ds|
  {
    if |ds| == 0 then []
    else (if ds[0].Some? then [ds[0].value] else []) + NonNull(ds[1..])
  }

  /** The declarations of tree `t`, in order. */
  function OfTree(xs: seq<ClassDecl>, t: nat): seq<ClassDecl> {
    if |xs| == 0 then []
    else (if xs[0].tree == t then [xs[0]] else []) + OfTree(xs[1..], t)
  }

  /** The distinct trees, in order of first appearance. */
  function Trees(xs: seq<ClassDecl>): seq<nat> {
    if |xs| == 0 then []
    else
      var p := Trees(xs[..|xs| - 1]);
      if xs[|xs| - 1].tree in p then p else p + [xs[|xs| - 1].tree]
  }

  function ConcatTrees(xs: seq<ClassDecl>, ts: seq<nat>): seq<ClassDecl> {
    if |ts| == 0 then [] else OfTree(xs, ts[0]) + ConcatTrees(xs, ts[1..])
  }

  function Grouped(ds: seq<Option<ClassDecl>>): seq<ClassDecl> {
    var xs := NonNull(ds);
    ConcatTrees(xs, Trees(xs))
  }

  predicate Distinct<T(==)>(s: seq<T>) {
    forall i, j :: 0 <= i < j < |s| ==> s[i] != s[j]
  }

  lemma {:induction false} TreesDistinct(xs: seq<ClassDecl>)
    ensures Distinct(Trees(xs))
    decreases |xs|
  {
    if |xs| > 0 {
      TreesDistinct(xs[..|xs| - 1]);
    }
  }

  lemma {:induction false} TreesComplete(xs: seq<ClassDecl>)
    ensures forall k :: 0 <= k < |xs| ==> xs[k].tree in Trees(xs)
    decreases |xs|
  {
    if |xs| > 0 {
      var init := xs[..|xs| - 1];
      TreesComplete(init);
      forall k | 0 <= k < |xs| ensures xs[k].tree in Trees(xs) {
        if k < |xs| - 1 {
          assert xs[k] == init[k];
        }
      }
    }
  }

  lemma {:induction false} OfTreeAppend(a: seq<ClassDecl>, b: seq<ClassDecl>, t: nat)
    ensures OfTree(a + b, t) == OfTree(a, t) + OfTree(b, t)
    decreases |a|
  {
    if |a| > 0 {
      OfTreeAppend(a[1..], b, t);
      assert (a + b)[1..] == a[1..] + b;
    } else {
      assert a + b == b;
    }
  }

  lemma {:induction false} OfTreeOfTree(xs: seq<ClassDecl>, u: nat, t: nat)
    ensures OfTree(OfTree(xs, u), t) == if u == t then OfTree(xs, t) else []
    decreases |xs|
  {
    if |xs| > 0 {
      OfTreeOfTree(xs[1..], u, t);
      var head := if xs[0].tree == u then [xs[0]] else [];
      OfTreeAppend(head, OfTree(xs[1..], u), t);
    }
  }

  lemma {:induction false} OfTreeAbsent(xs: seq<ClassDecl>, t: nat)
    requires forall k :: 0 <= k < |xs| ==> xs[k].tree != t
    ensures OfTree(xs, t) == []
    decreases |xs|
  {
    if |xs| > 0 {
      OfTreeAbsent(xs[1..], t);
    }
  }

  lemma {:induction false} OfTreeConcat(xs: seq<ClassDecl>, ts: seq<nat>, t: nat)
    requires Distinct(ts)
    ensures OfTree(ConcatTrees(xs, ts), t) == if t in ts then OfTree(xs, t) else []
    decreases |ts|
  {
    if |ts| > 0 {
      var rest := ts[1..];
      assert Distinct(rest) by {
        forall i, j | 0 <= i < j < |rest| ensures rest[i] != rest[j] {
          assert rest[i] == ts[i + 1] && rest[j] == ts[j + 1];
        }
      }
      OfTreeConcat(xs, rest, t);
      OfTreeAppend(OfTree(xs, ts[0]), ConcatTrees(xs, rest), t);
      OfTreeOfTree(xs, ts[0], t);
      assert ConcatTrees(xs, ts) == OfTree(xs, ts[0]) + ConcatTrees(xs, rest);
      if t == ts[0] {
        assert t !in rest by {
          forall j | 0 <= j < |rest| ensures rest[j] != t {
            assert rest[j] == ts[j + 1];
          }
        }
      } else {
        assert t in ts <==> t in rest;
      }
    }
  }

  /** Grouping by syntax tree loses nothing and reorders nothing within a
      tree: for every tree, the declarations of that tree come out exactly as
      they went in. */
  lemma GroupedPreservesTrees(ds: seq<Option<ClassDecl>>, t: nat)
    ensures OfTree(Grouped(ds), t) == OfTree(NonNull(ds), t)
  {
    var xs := NonNull(ds);
    TreesDistinct(xs);
    OfTreeConcat(xs, Trees(xs), t);
    if t !in Trees(xs) {
      TreesComplete(xs);
      OfTreeAbsent(xs, t);
    }
  }

  lemma {:induction false} InOfTree(xs: seq<ClassDecl>, x: ClassDecl)
    ensures x in xs <==> x in OfTree(xs, x.tree)
    decreases |xs|
  {
    if |xs| > 0 {
      InOfTree(xs[1..], x);
      assert xs == [xs[0]] + xs[1..];
    }
  }

  lemma {:induction false} InNonNull(ds: seq<Option<ClassDecl>>, x: ClassDecl)
    ensures x in NonNull(ds) <==> Some(x) in ds
    decreases |ds|
  {
    if |ds| > 0 {
      InNonNull(ds[1..], x);
      assert ds == [ds[0]] + ds[1..];
    }
  }

  /** The grouped sequence holds exactly the non-null input declarations. */
  lemma GroupedMembers(ds: seq<Option<ClassDecl>>, x: ClassDecl)
    ensures x in Grouped(ds) <==> Some(x) in ds
  {
    GroupedPreservesTrees(ds, x.tree);
    InOfTree(Grouped(ds), x);
    InOfTree(NonNull(ds), x);
    InNonNull(ds, x);
  }

  lemma GroupedLength(ds: seq<Option<ClassDecl>>)
    ensures |Grouped(ds)| <= |ds|
  {
    var xs := NonNull(ds);
    TreesDistinct(xs);
    CountByTrees(xs, Trees(xs));
  }

  lemma {:induction false} CountByTrees(xs: seq<ClassDecl>, ts: seq<nat>)
    requires Distinct(ts)
    ensures |ConcatTrees(xs, ts)| <= |xs|
    decreases |xs|
  {
    if |xs| == 0 {
      EmptyConcat(ts);
    } else {
      CountByTrees(xs[1..], ts);
      ConcatSplit(xs, ts);
    }
  }

  lemma {:induction false} EmptyConcat(ts: seq<nat>)
    ensures ConcatTrees([], ts) == []
    decreases |ts|
  {
    if |ts| > 0 {
      EmptyConcat(ts[1..]);
    }
  }

  /** Removing the first declaration shortens the grouped sequence by at
      most one. */
  lemma {:induction false} ConcatSplit(xs: seq<ClassDecl>, ts: seq<nat>)
    requires |xs| > 0 && Distinct(ts)
    ensures |ConcatTrees(xs, ts)| <= |ConcatTrees(xs[1..], ts)| + 1
    decreases |ts|
  {
    if |ts| > 0 {
      assert Distinct(ts[1..]) by {
        forall i, j | 0 <= i < j < |ts[1..]| ensures ts[1..][i] != ts[1..][j] {
          assert ts[1..][i] == ts[i + 1] && ts[1..][j] == ts[j + 1];
        }
      }
      ConcatSplit(xs, ts[1..]);
      if xs[0].tree == ts[0] {
        assert ts[0] !in ts[1..] by {
          forall j | 0 <= j < |ts[1..]| ensures ts[1..][j] != ts[0] {
            assert ts[1..][j] == ts[j + 1];
          }
        }
        ConcatSkips(xs, ts[1..]);
      }
    }
  }

  /** Groups for trees other than the first declaration's do not see it. */
  lemma {:induction false} ConcatSkips(xs: seq<ClassDecl>, ts: seq<nat>)
    requires |xs| > 0 && xs[0].tree !in ts
    ensures ConcatTrees(xs, ts) == ConcatTrees(xs[1..], ts)
    decreases |ts|
  {
    if |ts| > 0 {
      assert xs[0].tree != ts[0];
      ConcatSkips(xs, ts[1..]);
    }
  }


  // ---------------------------------------------------------------------
  // Namespaces

  /** Namespace names from outermost to innermost. */
  function Path(ns: Namespace): seq<string> {
    match ns
    case Global => []
    case Ns(n, p) => Path(p) + [n]
  }

  /** The dotted namespace name, outermost first. */
  function Dotted(ns: Namespace): string {
    Join(Path(ns), ".")
  }

  /** Namespace identifiers contain no dot. */
  predicate Identifiers(ns: Namespace) {
    forall k :: 0 <= k < |Path(ns)| ==> '.' !in Path(ns)[k]
  }

  /** The dotted name can be taken apart again into the namespace chain. */
  lemma DottedRoundTrip(ns: Namespace)
    requires ns.Ns? && Identifiers(ns)
    ensures Split(Dotted(ns), '.') == Path(ns)
  {
    SplitJoin(Path(ns), '.');
  }

  /** Prepending an outer name to a non-empty join adds exactly one separator. */
  lemma JoinCons(a: string, s: seq<string>, sep: string)
    requires |s| >= 1
    ensures Join([a] + s, sep) == a + sep + Join(s, sep)
  {
    assert ([a] + s)[1..] == s;
  }

  /** The namespace-name builder both generators use: starting from the
      innermost name, each enclosing namespace is inserted in front with a dot. */
  function PrependParents(ns: Namespace, acc: string): string {
    match ns
    case Global => acc
    case Ns(n, parent) => PrependParents(parent, n + "." + acc)
  }

  lemma {:induction false} PrependParentsJoins(ns: Namespace, inner: seq<string>)
    requires |inner| >= 1
    ensures PrependParents(ns, Join(inner, ".")) == Join(Path(ns) + inner, ".")
    decreases ns
  {
    match ns
    case Global =>
      assert Path(ns) + inner == inner;
    case Ns(n, parent) =>
      JoinCons(n, inner, ".");
      PrependParentsJoins(parent, [n] + inner);
      assert Path(parent) + ([n] + inner) == Path(ns) + inner;
  }

  /** The builder yields the dotted name, which splits back into the chain. */
  lemma NamespaceFacts(ns: Namespace)
    requires ns.Ns?
    ensures PrependParents(ns.parent, ns.name) == Dotted(ns)
    ensures Identifiers(ns) ==> Split(Dotted(ns), '.') == Path(ns)
  {
    PrependParentsJoins(ns.parent, [ns.name]);
    if Identifiers(ns) {
      DottedRoundTrip(ns);
    }
  }
}
