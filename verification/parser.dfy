/** The resolver of the current generator (`DependenciesParser`): it turns
    every class declaration carrying `RegisterServiceAttribute` into at most
    one `DependencyService` record, decoding the attribute's arguments and
    binding the service to an explicit or inferred interface. */
module DependenciesParser {
  import opened Common
  import opened Descriptors

  /** A registration record. `lifetime` is the integer code of
      `ServiceLifetime` (0 Singleton, 1 Scoped, 2 Transient). */
  datatype DependencyService = DependencyService(name: Name, iface: Option<Name>, key: Option<string>, lifetime: int)

  // ---------------------------------------------------------------------
  // Decoding the attribute's arguments (ParseAttributeData)

  function AsInt(v: Value): Option<int> {
    if v.IntV? then Some(v.i) else None
  }

  function AsString(v: Value): Option<string> {
    if v.StrV? then Some(v.s) else None
  }

  /** The lifetime given by a sole constructor argument, if it is an int. */
  function CtorLifetime(args: seq<Value>): Option<int> {
    if |args| == 1 then AsInt(args[0]) else None
  }

  /** The state the named-argument loop updates. */
  datatype Acc = Acc(lifetime: Option<int>, misconfigured: bool, iface: Option<Name>, key: Option<string>)

  /** One named argument. A `ServiceLifetime` is consulted only while no
      lifetime is known, and one that is not an int marks the input as
      misconfigured; `InterfaceType` is taken only when it names a type;
      `ServiceKey` is copied, a non-string becoming null. */
  function NamedStep(acc: Acc, key: string, v: Value): Acc {
    if key == "ServiceLifetime" then
      if acc.lifetime.None? then
        var l := AsInt(v);
        acc.(lifetime := l, misconfigured := acc.misconfigured || l.None?)
      else acc
    else if key == "InterfaceType" then
      if v.TypeV? then acc.(iface := Some(v.t)) else acc
    else if key == "ServiceKey" then
      acc.(key := AsString(v))
    else acc
  }

  /** The loop over the named arguments; an argument of error kind marks the
      input as misconfigured and ends the loop. */
  function FoldNamed(named: seq<(string, Value)>, acc: Acc): Acc
    decreases |named|
  {
    if |named| == 0 then acc
    else if named[0].1.ErrorV? then acc.(misconfigured := true)
    else FoldNamed(named[1..], NamedStep(acc, named[0].0, named[0].1))
  }

  // Reference readings of the named arguments, independent of the loop.

  predicate HasError(named: seq<(string, Value)>) {
    exists k :: 0 <= k < |named| && named[k].1.ErrorV?
  }

  /** The value of the first named argument called `key`. */
  function FirstNamed(named: seq<(string, Value)>, key: string): Option<Value> {
    if |named| == 0 then None
    else if named[0].0 == key then Some(named[0].1)
    else FirstNamed(named[1..], key)
  }

  /** The value of the last named argument called `key`. */
  function LastNamed(named: seq<(string, Value)>, key: string): Option<Value> {
    if |named| == 0 then None
    else
      var rest := LastNamed(named[1..], key);
      if rest.Some? then rest
      else if named[0].0 == key then Some(named[0].1)
      else None
  }

  /** The type named by the last `InterfaceType` argument that names a type. */
  function LastInterfaceType(named: seq<(string, Value)>): Option<Name> {
    if |named| == 0 then None
    else
      var rest := LastInterfaceType(named[1..]);
      if rest.Some? then rest
      else if named[0].0 == "InterfaceType" && named[0].1.TypeV? then Some(named[0].1.t)
      else None
  }

  /** The lifetime the attribute gives: the sole constructor argument if it
      is an int, otherwise the first named `ServiceLifetime`, if an int. */
  function DecodedLifetime(m: Marker): Option<int> {
    var c := CtorLifetime(m.ctorArgs);
    if c.Some? then c
    else
      match FirstNamed(m.namedArgs, "ServiceLifetime")
      case None => None
      case Some(v) => AsInt(v)
  }

  /** The key the attribute gives: the last `ServiceKey` as a string. */
  function DecodedKey(named: seq<(string, Value)>): Option<string> {
    match LastNamed(named, "ServiceKey")
    case None => None
    case Some(v) => AsString(v)
  }

  lemma {:induction false} FoldErrorMisconfigures(named: seq<(string, Value)>, acc: Acc)
    requires HasError(named)
    ensures FoldNamed(named, acc).misconfigured
    decreases |named|
  {
    if !named[0].1.ErrorV? {
      var k :| 0 <= k < |named| && named[k].1.ErrorV?;
      assert named[1..][k - 1] == named[k];
      FoldErrorMisconfigures(named[1..], NamedStep(acc, named[0].0, named[0].1));
    }
  }

  /** What the loop computes, in terms of the reference readings. */
  lemma {:induction false} FoldSpec(named: seq<(string, Value)>, acc: Acc)
    requires !HasError(named)
    ensures var r := FoldNamed(named, acc);
      var l := if acc.lifetime.Some? then acc.lifetime
               else match FirstNamed(named, "ServiceLifetime")
                    case None => None
                    case Some(v) => AsInt(v);
      && ((r.lifetime.Some? && !r.misconfigured) <==> (!acc.misconfigured && l.Some?))
      && (r.lifetime.Some? && !r.misconfigured ==> r.lifetime == l)
      && r.iface == (if LastInterfaceType(named).Some? then LastInterfaceType(named) else acc.iface)
      && r.key == (match LastNamed(named, "ServiceKey") case None => acc.key case Some(v) => AsString(v))
    decreases |named|
  {
    if |named| > 0 {
      assert !HasError(named[1..]) by {
        forall k | 0 <= k < |named[1..]| ensures !named[1..][k].1.ErrorV? {
          assert named[1..][k] == named[k + 1];
        }
      }
      assert !named[0].1.ErrorV?;
      FoldSpec(named[1..], NamedStep(acc, named[0].0, named[0].1));
    }
  }

  /** `ParseAttributeData`: a record exactly when no named argument is an
      error and a lifetime is decoded; the record then carries the decoded
      lifetime, the last type-valued `InterfaceType` and the last
      `ServiceKey`. */
  function ParseAttributeData(fqn: Name, m: Marker): (r: Option<DependencyService>)
    ensures r.Some? <==> !HasError(m.namedArgs) && DecodedLifetime(m).Some?
    ensures r.Some? ==> r.value == DependencyService(fqn, LastInterfaceType(m.namedArgs), DecodedKey(m.namedArgs), DecodedLifetime(m).value)
  {
    var start := Acc(CtorLifetime(m.ctorArgs), false, None, None);
    var acc := FoldNamed(m.namedArgs, start);
    if HasError(m.namedArgs) then
      FoldErrorMisconfigures(m.namedArgs, start);
      None
    else
      FoldSpec(m.namedArgs, start);
      if acc.lifetime.Some? && !acc.misconfigured then
        Some(DependencyService(fqn, acc.iface, acc.key, acc.lifetime.value))
      else None
  }

  /** A bare `[RegisterService]` yields no record: the attribute's runtime
      default lifetime is not visible to the generator. */
  lemma BareAttributeDropped(fqn: Name)
    ensures ParseAttributeData(fqn, Marker(RegisterServiceAttribute, [], [])) == None
  {
  }

  /** An interface and a key without any lifetime never give a record. */
  lemma {:induction false} NoLifetimeNoRecord(fqn: Name, m: Marker)
    requires CtorLifetime(m.ctorArgs).None?
    requires forall k :: 0 <= k < |m.namedArgs| ==> m.namedArgs[k].0 != "ServiceLifetime"
    ensures ParseAttributeData(fqn, m) == None
  {
    NoFirstNamed(m.namedArgs, "ServiceLifetime");
  }

  lemma {:induction false} NoFirstNamed(named: seq<(string, Value)>, key: string)
    requires forall k :: 0 <= k < |named| ==> named[k].0 != key
    ensures FirstNamed(named, key) == None
    decreases |named|
  {
    if |named| > 0 {
      assert forall k :: 0 <= k < |named[1..]| ==> named[1..][k] == named[k + 1];
      NoFirstNamed(named[1..], key);
    }
  }

  /** A constructor lifetime wins over any named `ServiceLifetime`, even a
      malformed one. */
  lemma CtorLifetimeWins(fqn: Name, m: Marker)
    requires CtorLifetime(m.ctorArgs).Some? && !HasError(m.namedArgs)
    ensures ParseAttributeData(fqn, m).Some?
    ensures ParseAttributeData(fqn, m).value.lifetime == CtorLifetime(m.ctorArgs).value
  {
  }

  // ---------------------------------------------------------------------
  // The interface search (CheckInterfaceHasAttribute)

  predicate Eligible(t: TypeDesc) {
    HasMarker(t, RegisterInterfaceAttribute)
  }

  /** The interface itself if it carries `RegisterInterfaceAttribute`,
      otherwise the first hit among its interfaces in declaration order. */
  function CheckInterfaceHasAttribute(types: map<Name, TypeDesc>, n: Name): (r: Option<Name>)
    requires WellFormed(types) && n in types
    ensures r.Some? ==> r.value in types && Eligible(types[r.value])
    ensures Eligible(types[n]) ==> r == Some(n)
    decreases types[n].depth, 1, 0
  {
    if Eligible(types[n]) then Some(n)
    else SearchFrom(types, n, 0)
  }

  /** The first hit of the search among the interfaces of `owner` from
      position `k` on. */
  function SearchFrom(types: map<Name, TypeDesc>, owner: Name, k: nat): (r: Option<Name>)
    requires WellFormed(types) && owner in types
    ensures r.Some? ==> r.value in types && Eligible(types[r.value])
    decreases types[owner].depth, 0, |types[owner].interfaces| - k
  {
    var ifs := types[owner].interfaces;
    if k >= |ifs| then None
    else
      var v := CheckInterfaceHasAttribute(types, ifs[k]);
      if v.Some? then v else SearchFrom(types, owner, k + 1)
  }

  /** Declaration order decides: the search from `k` returns the result for
      the first interface at or after `k` that has a hit, and nothing when no
      interface has one. */
  lemma {:induction false} SearchFromFirstHit(types: map<Name, TypeDesc>, owner: Name, k: nat)
    requires WellFormed(types) && owner in types
    ensures var ifs := types[owner].interfaces;
      SearchFrom(types, owner, k).None? <==>
        forall j :: k <= j < |ifs| ==> CheckInterfaceHasAttribute(types, ifs[j]).None?
    ensures var ifs := types[owner].interfaces;
      SearchFrom(types, owner, k).Some? ==>
        exists j :: k <= j < |ifs|
          && SearchFrom(types, owner, k) == CheckInterfaceHasAttribute(types, ifs[j])
          && forall i :: k <= i < j ==> CheckInterfaceHasAttribute(types, ifs[i]).None?
  {
    SearchFromMiss(types, owner, k);
    if SearchFrom(types, owner, k).Some? {
      var j := SearchFromHit(types, owner, k);
    }
  }

  lemma {:induction false} SearchFromMiss(types: map<Name, TypeDesc>, owner: Name, k: nat)
    requires WellFormed(types) && owner in types
    ensures var ifs := types[owner].interfaces;
      SearchFrom(types, owner, k).None? <==>
        forall j :: k <= j < |ifs| ==> CheckInterfaceHasAttribute(types, ifs[j]).None?
    decreases |types[owner].interfaces| - k
  {
    var ifs := types[owner].interfaces;
    if k < |ifs| {
      var value := CheckInterfaceHasAttribute(types, ifs[k]);
      if value.None? {
        assert SearchFrom(types, owner, k) == SearchFrom(types, owner, k + 1);
        SearchFromMiss(types, owner, k + 1);
      } else {
        assert SearchFrom(types, owner, k) == value;
      }
    }
  }

  /** The position of the hit the search returns. */
  lemma {:induction false} SearchFromHit(types: map<Name, TypeDesc>, owner: Name, k: nat) returns (j: nat)
    requires WellFormed(types) && owner in types
    requires SearchFrom(types, owner, k).Some?
    ensures k <= j < |types[owner].interfaces|
    ensures SearchFrom(types, owner, k) == CheckInterfaceHasAttribute(types, types[owner].interfaces[j])
    ensures forall i :: k <= i < j ==> CheckInterfaceHasAttribute(types, types[owner].interfaces[i]).None?
    decreases |types[owner].interfaces| - k
  {
    var ifs := types[owner].interfaces;
    var value := CheckInterfaceHasAttribute(types, ifs[k]);
    if value.None? {
      assert SearchFrom(types, owner, k) == SearchFrom(types, owner, k + 1);
      j := SearchFromHit(types, owner, k + 1);
    } else {
      assert SearchFrom(types, owner, k) == value;
      j := k;
    }
  }


  /** A chain of interfaces, each one listed by its predecessor. */
  ghost predicate IsChain(types: map<Name, TypeDesc>, p: seq<Name>) {
    && |p| >= 1
    && (forall k :: 0 <= k < |p| ==> p[k] in types)
    && (forall k :: 0 <= k < |p| - 1 ==> p[k + 1] in types[p[k]].interfaces)
  }

  /** A hit is reachable: it is the end of a chain starting at the interface. */
  lemma {:induction false} HitIsReachable(types: map<Name, TypeDesc>, n: Name)
    requires WellFormed(types) && n in types
    requires CheckInterfaceHasAttribute(types, n).Some?
    ensures exists p :: (IsChain(types, p) && p[0] == n
      && p[|p| - 1] == CheckInterfaceHasAttribute(types, n).value)
    decreases types[n].depth, 1, 0
  {
    var r := CheckInterfaceHasAttribute(types, n).value;
    if Eligible(types[n]) {
      assert IsChain(types, [n]);
    } else {
      SearchHitIsReachable(types, n, 0);
    }
  }

  lemma {:induction false} SearchHitIsReachable(types: map<Name, TypeDesc>, owner: Name, k: nat)
    requires WellFormed(types) && owner in types
    requires SearchFrom(types, owner, k).Some?
    ensures exists p :: (IsChain(types, p) && p[0] == owner && |p| >= 2
      && p[|p| - 1] == SearchFrom(types, owner, k).value)
    decreases types[owner].depth, 0, |types[owner].interfaces| - k
  {
    var ifs := types[owner].interfaces;
    var v := CheckInterfaceHasAttribute(types, ifs[k]);
    if v.Some? {
      HitIsReachable(types, ifs[k]);
      var p :| IsChain(types, p) && p[0] == ifs[k] && p[|p| - 1] == v.value;
      var q := [owner] + p;
      assert q[1..] == p;
      assert IsChain(types, q);
    } else {
      SearchHitIsReachable(types, owner, k + 1);
    }
  }

  /** No hit means no eligible interface is reachable at all. */
  lemma {:induction false} MissMeansNoneReachable(types: map<Name, TypeDesc>, n: Name)
    requires WellFormed(types) && n in types
    requires CheckInterfaceHasAttribute(types, n).None?
    ensures forall p :: IsChain(types, p) && p[0] == n ==> !Eligible(types[p[|p| - 1]])
    decreases types[n].depth
  {
    forall p | IsChain(types, p) && p[0] == n
      ensures !Eligible(types[p[|p| - 1]])
    {
      if |p| > 1 {
        var ifs := types[n].interfaces;
        var j :| 0 <= j < |ifs| && ifs[j] == p[1];
        SearchFromMiss(types, n, 0);
        assert CheckInterfaceHasAttribute(types, ifs[j]).None?;
        MissMeansNoneReachable(types, p[1]);
        var tail := p[1..];
        assert IsChain(types, tail) by {
          forall k | 0 <= k < |tail| - 1 ensures tail[k + 1] in types[tail[k]].interfaces {
            assert tail[k] == p[k + 1] && tail[k + 1] == p[k + 2];
          }
        }
        assert tail[|tail| - 1] == p[|p| - 1];
      }
    }
  }

  // ---------------------------------------------------------------------
  // One class declaration (the body of the loop in ParseDependencies)

  /** The inference loop over the class's interfaces: each iteration stores
      the search result and stops at the first non-empty name. */
  function InferInterface(types: map<Name, TypeDesc>, cls: Name, k: nat, current: Option<Name>): Option<Name>
    requires WellFormed(types) && cls in types
    decreases |types[cls].interfaces| - k
  {
    var ifs := types[cls].interfaces;
    if k >= |ifs| then current
    else
      var v := CheckInterfaceHasAttribute(types, ifs[k]);
      if !IsNullOrEmpty(if v.Some? then Some(v.value) else None) then v
      else InferInterface(types, cls, k + 1, v)
  }

  /** The inference loop yields the first hit over the class's interfaces. */
  lemma {:induction false} InferIsFirstHit(types: map<Name, TypeDesc>, cls: Name, k: nat, current: Option<Name>)
    requires WellFormed(types) && cls in types
    requires current.None?
    ensures InferInterface(types, cls, k, current) == SearchFrom(types, cls, k)
    decreases |types[cls].interfaces| - k
  {
    var ifs := types[cls].interfaces;
    if k < |ifs| {
      var v := CheckInterfaceHasAttribute(types, ifs[k]);
      if v.None? {
        InferIsFirstHit(types, cls, k + 1, v);
      }
    }
  }

  /** The inputs on which `CheckClassInheritInterface` returns: the explicit
      interface is the class itself, or a type of the compilation without
      base interfaces. An interface outside the compilation may have bases
      the model cannot see. */
  predicate InheritCheckReturns(types: map<Name, TypeDesc>, cls: Name, iface: Name) {
    iface == cls || (iface in types && types[iface].interfaces == [])
  }

  /** The recursive calls one activation of `CheckClassInheritInterface(toCheck,
      iface)` makes: none when the two are equal, otherwise one per interface
      of `iface`, each passing `iface` on unchanged. */
  function InheritCalls(types: map<Name, TypeDesc>, toCheck: Name, iface: Name): (r: seq<(Name, Name)>)
    requires iface in types
    ensures toCheck == iface ==> r == []
    ensures toCheck != iface ==> (|r| == |types[iface].interfaces|
      && forall k :: 0 <= k < |r| ==> r[k] == (types[iface].interfaces[k], iface))
  {
    if toCheck == iface then []
    else seq(|types[iface].interfaces|, k requires 0 <= k < |types[iface].interfaces| => (types[iface].interfaces[k], iface))
  }

  /** `CheckClassInheritInterface`, on the inputs where it returns: true
      exactly when the explicit interface is the class itself. */
  function CheckClassInheritInterface(types: map<Name, TypeDesc>, cls: Name, iface: Name): (r: bool)
    requires InheritCheckReturns(types, cls, iface)
    ensures r <==> iface == cls
    ensures iface != cls ==> InheritCalls(types, cls, iface) == []
  {
    if iface == cls then true
    else
      // the loop over the interface's own bases has nothing to visit
      assert |types[iface].interfaces| == 0;
      false
  }

  /** As written, the check never terminates once the explicit interface has
      a base interface: the first recursive call makes itself again. */
  lemma InheritCheckRecursesForever(types: map<Name, TypeDesc>, cls: Name, iface: Name)
    requires WellFormed(types) && iface in types && iface != cls
    requires |types[iface].interfaces| > 0
    ensures var first := (types[iface].interfaces[0], iface);
      first in InheritCalls(types, cls, iface) && first in InheritCalls(types, first.0, first.1)
  {
    var b := types[iface].interfaces[0];
    assert b in types[iface].interfaces;
    assert types[b].depth < types[iface].depth;
    assert InheritCalls(types, b, iface)[0] == (b, iface);
  }

  /** The intended check: the class is the interface, or one of its
      interfaces inherits it (the recursion walks the class's interfaces). */
  function InheritsInterface(types: map<Name, TypeDesc>, toCheck: Name, iface: Name): bool
    requires WellFormed(types) && toCheck in types
    decreases types[toCheck].depth
  {
    toCheck == iface
      || exists b :: b in types[toCheck].interfaces && InheritsInterface(types, b, iface)
  }

  /** The intended check holds exactly when an inheritance chain leads from
      the class to the interface. */
  lemma {:induction false} InheritsInterfaceIsReachability(types: map<Name, TypeDesc>, cls: Name, iface: Name)
    requires WellFormed(types) && cls in types
    ensures InheritsInterface(types, cls, iface) <==>
      exists p :: IsChain(types, p) && p[0] == cls && p[|p| - 1] == iface
    decreases types[cls].depth
  {
    if InheritsInterface(types, cls, iface) {
      if cls == iface {
        assert IsChain(types, [cls]);
      } else {
        var b :| b in types[cls].interfaces && InheritsInterface(types, b, iface);
        InheritsInterfaceIsReachability(types, b, iface);
        var q :| IsChain(types, q) && q[0] == b && q[|q| - 1] == iface;
        var p := [cls] + q;
        assert p[1..] == q;
        assert IsChain(types, p);
        assert p[|p| - 1] == iface;
      }
    }
    if exists p :: IsChain(types, p) && p[0] == cls && p[|p| - 1] == iface {
      var p :| IsChain(types, p) && p[0] == cls && p[|p| - 1] == iface;
      if |p| > 1 {
        var tail := p[1..];
        assert IsChain(types, tail) by {
          forall k | 0 <= k < |tail| - 1 ensures tail[k + 1] in types[tail[k]].interfaces {
            assert tail[k] == p[k + 1] && tail[k + 1] == p[k + 2];
          }
        }
        assert tail[|tail| - 1] == iface;
        InheritsInterfaceIsReachability(types, p[1], iface);
        assert p[1] in types[cls].interfaces;
      }
    }
  }

  /** As written, the check misses real inheritance: a class that implements
      an interface without bases is reported as not inheriting it. */
  lemma InheritCheckMissesInheritance(types: map<Name, TypeDesc>, cls: Name, iface: Name)
    requires WellFormed(types) && cls in types
    requires iface in types[cls].interfaces && types[iface].interfaces == []
    ensures InheritCheckReturns(types, cls, iface)
    ensures !CheckClassInheritInterface(types, cls, iface)
    ensures InheritsInterface(types, cls, iface)
  {
    assert types[iface].depth < types[cls].depth;
    assert InheritsInterface(types, iface, iface);
  }

  /** The registration attribute whose data is parsed last. */
  function LastServiceMarker(markers: seq<Marker>): Option<Marker> {
    if |markers| == 0 then None
    else
      var rest := LastServiceMarker(markers[1..]);
      if rest.Some? then rest
      else if markers[0].cls == RegisterServiceAttribute then Some(markers[0])
      else None
  }

  /** The explicit interface of the last registration attribute of `t`, the
      only one whose parse is completed, never sends
      `CheckClassInheritInterface` into its non-terminating case. */
  predicate InheritCheckTerminates(types: map<Name, TypeDesc>, t: TypeDesc) {
    LastServiceMarker(t.markers).Some? ==>
      Safe(types, t, ParseAttributeData(t.name, LastServiceMarker(t.markers).value))
  }

  predicate Safe(types: map<Name, TypeDesc>, t: TypeDesc, s: Option<DependencyService>) {
    s.Some? && s.value.iface.Some? ==> InheritCheckReturns(types, t.name, s.value.iface.value)
  }

  lemma {:induction false} LastServiceMarkerIsOne(markers: seq<Marker>)
    ensures LastServiceMarker(markers).Some? ==>
      exists k :: 0 <= k < |markers| && markers[k] == LastServiceMarker(markers).value
        && markers[k].cls == RegisterServiceAttribute
    ensures LastServiceMarker(markers).None? <==>
      forall k :: 0 <= k < |markers| ==> markers[k].cls != RegisterServiceAttribute
    decreases |markers|
  {
    if |markers| > 0 {
      LastServiceMarkerIsOne(markers[1..]);
      assert forall k :: 0 <= k < |markers[1..]| ==> markers[1..][k] == markers[k + 1];
      if LastServiceMarker(markers[1..]).Some? {
        var k :| 0 <= k < |markers[1..]| && markers[1..][k] == LastServiceMarker(markers[1..]).value
          && markers[1..][k].cls == RegisterServiceAttribute;
        assert markers[k + 1] == markers[1..][k];
      }
    }
  }

  /** The foreach over the bound attributes: each registration attribute
      replaces the service with its parse. */
  function BoundAttributesLoop(fqn: Name, markers: seq<Marker>, service: Option<DependencyService>): Option<DependencyService>
    decreases |markers|
  {
    if |markers| == 0 then service
    else
      BoundAttributesLoop(fqn, markers[1..],
        if markers[0].cls == RegisterServiceAttribute then ParseAttributeData(fqn, markers[0]) else service)
  }

  lemma {:induction false} BoundAttributesLoopIsLast(fqn: Name, markers: seq<Marker>, service: Option<DependencyService>)
    ensures BoundAttributesLoop(fqn, markers, service) ==
      match LastServiceMarker(markers)
      case None => service
      case Some(m) => ParseAttributeData(fqn, m)
    decreases |markers|
  {
    if |markers| > 0 {
      var next := if markers[0].cls == RegisterServiceAttribute then ParseAttributeData(fqn, markers[0]) else service;
      BoundAttributesLoopIsLast(fqn, markers[1..], next);
    }
  }

  /** Lines after the bound-attribute loop: a record bound explicitly to the
      class itself is dropped, an explicit interface is kept, and otherwise
      the interface is inferred. */
  function CompleteService(types: map<Name, TypeDesc>, t: TypeDesc, s: Option<DependencyService>): (r: Option<DependencyService>)
    requires WellFormed(types) && t.name in types && types[t.name] == t
    requires Safe(types, t, s)
    ensures s.None? ==> r.None?
    ensures s.Some? && s.value.iface.Some? ==>
      r == (if s.value.iface.value == t.name then None else s)
    ensures s.Some? && s.value.iface.None? ==>
      r == Some(s.value.(iface := SearchFrom(types, t.name, 0)))
  {
    var s2 := if s.Some? && s.value.iface.Some? && CheckClassInheritInterface(types, t.name, s.value.iface.value) then None else s;
    if s2.None? || s2.value.iface.Some? then s2
    else
      InferIsFirstHit(types, t.name, 0, None);
      Some(s2.value.(iface := InferInterface(types, t.name, 0, None)))
  }

  /** The record a class with a bound registration attribute ends with. */
  function ServiceRecord(types: map<Name, TypeDesc>, t: TypeDesc): (r: Option<DependencyService>)
    requires WellFormed(types) && t.name in types && types[t.name] == t
    requires InheritCheckTerminates(types, t)
    ensures r.Some? ==> r.value.name == t.name && HasMarker(t, RegisterServiceAttribute)
    ensures r.Some? <==>
      && LastServiceMarker(t.markers).Some?
      && var p := ParseAttributeData(t.name, LastServiceMarker(t.markers).value);
         p.Some? && p.value.iface != Some(t.name)
  {
    LastServiceMarkerIsOne(t.markers);
    match LastServiceMarker(t.markers)
    case None => None
    case Some(m) => CompleteService(types, t, ParseAttributeData(t.name, m))
  }

  /** The work done for one attribute written on the declaration that binds
      to `RegisterServiceAttribute`. */
  function AttributeStep(types: map<Name, TypeDesc>, t: TypeDesc, service: Option<DependencyService>): Option<DependencyService>
    requires WellFormed(types) && t.name in types && types[t.name] == t
    requires InheritCheckTerminates(types, t)
    requires service.None? || service == ServiceRecord(types, t)
  {
    if |t.markers| == 0 then service
    else
      var s1 := BoundAttributesLoop(t.name, t.markers, service);
      BoundAttributesLoopIsLast(t.name, t.markers, service);
      LastServiceMarkerIsOne(t.markers);
      CompleteService(types, t, s1)
  }

  lemma StepGivesRecord(types: map<Name, TypeDesc>, t: TypeDesc, service: Option<DependencyService>)
    requires WellFormed(types) && t.name in types && types[t.name] == t
    requires InheritCheckTerminates(types, t)
    requires service.None? || service == ServiceRecord(types, t)
    ensures AttributeStep(types, t, service) == ServiceRecord(types, t)
  {
    BoundAttributesLoopIsLast(t.name, t.markers, service);
    LastServiceMarkerIsOne(t.markers);
  }

  /** The loop over the attributes written on the declaration. */
  function AttributesLoop(types: map<Name, TypeDesc>, t: TypeDesc, attrs: seq<Option<AttrClass>>, service: Option<DependencyService>): Option<DependencyService>
    requires WellFormed(types) && t.name in types && types[t.name] == t
    requires InheritCheckTerminates(types, t)
    requires service.None? || service == ServiceRecord(types, t)
    decreases |attrs|
  {
    if |attrs| == 0 then service
    else if attrs[0] == Some(RegisterServiceAttribute) then
      StepGivesRecord(types, t, service);
      AttributesLoop(types, t, attrs[1..], AttributeStep(types, t, service))
    else AttributesLoop(types, t, attrs[1..], service)
  }

  /** However many registration attributes the declaration names, the loop
      ends with the class's record, or with nothing when it names none. */
  lemma {:induction false} AttributesLoopResult(types: map<Name, TypeDesc>, t: TypeDesc, attrs: seq<Option<AttrClass>>, service: Option<DependencyService>)
    requires WellFormed(types) && t.name in types && types[t.name] == t
    requires InheritCheckTerminates(types, t)
    requires service.None? || service == ServiceRecord(types, t)
    ensures AttributesLoop(types, t, attrs, service) ==
      if Some(RegisterServiceAttribute) in attrs then ServiceRecord(types, t) else service
    decreases |attrs|
  {
    if |attrs| > 0 {
      assert attrs == [attrs[0]] + attrs[1..];
      if attrs[0] == Some(RegisterServiceAttribute) {
        StepGivesRecord(types, t, service);
        AttributesLoopResult(types, t, attrs[1..], ServiceRecord(types, t));
      } else {
        AttributesLoopResult(types, t, attrs[1..], service);
      }
    }
  }

  /** The registration attributes of the type a declaration binds to can be
      checked against it. */
  predicate DeclarationTerminates(types: map<Name, TypeDesc>, d: ClassDecl) {
    DeclaredType(types, d).Some? ==> InheritCheckTerminates(types, DeclaredType(types, d).value)
  }

  predicate DeclarationsTerminate(types: map<Name, TypeDesc>, ds: seq<ClassDecl>) {
    forall k :: 0 <= k < |ds| ==> DeclarationTerminates(types, ds[k])
  }

  /** The record one declaration contributes, if any. */
  function RecordOf(types: map<Name, TypeDesc>, d: ClassDecl): (r: Option<DependencyService>)
    requires WellFormed(types) && DeclarationTerminates(types, d)
    ensures r.Some? ==> d.symbol.Some? && r.value.name == d.symbol.value
    ensures r.Some? ==> Some(RegisterServiceAttribute) in d.attrs
    ensures DeclaredType(types, d).Some? && Some(RegisterServiceAttribute) in d.attrs ==>
      r == ServiceRecord(types, DeclaredType(types, d).value)
  {
    match DeclaredType(types, d)
    case None => None
    case Some(t) =>
      AttributesLoopResult(types, t, d.attrs, None);
      AttributesLoop(types, t, d.attrs, None)
  }

  /** Records in declaration order, one at most per declaration. */
  function Records(types: map<Name, TypeDesc>, ds: seq<ClassDecl>): seq<DependencyService>
    requires WellFormed(types) && DeclarationsTerminate(types, ds)
  {
    if |ds| == 0 then []
    else
      var init := Records(types, ds[..|ds| - 1]);
      match RecordOf(types, ds[|ds| - 1])
      case None => init
      case Some(r) => init + [r]
  }

  /** The three well-known types the resolver needs. */
  predicate Available(c: Compilation) {
    && MetadataName(RegisterServiceAttribute) in c.available
    && MetadataName(RegisterInterfaceAttribute) in c.available
    && ServiceLifetimeType in c.available
  }

  /** `ParseDependencies`: nothing when a well-known type is missing;
      otherwise the records of the declarations grouped by syntax tree, in
      that order. */
  method ParseDependencies(c: Compilation, services: seq<Option<ClassDecl>>) returns (values: seq<DependencyService>)
    requires WellFormed(c.types)
    requires Available(c) ==>
      forall k :: 0 <= k < |services| && services[k].Some? ==> DeclarationTerminates(c.types, services[k].value)
    ensures !Available(c) ==> values == []
    ensures Available(c) ==> (DeclarationsTerminate(c.types, Grouped(services))
      && values == Records(c.types, Grouped(services)))
    ensures |values| <= |services|
  {
    values := [];
    if !Available(c) {
      return;
    }
    var decls := Grouped(services);
    GroupedLength(services);
    forall k | 0 <= k < |decls| ensures DeclarationTerminates(c.types, decls[k]) {
      GroupedMembers(services, decls[k]);
    }
    var i := 0;
    while i < |decls|
      invariant 0 <= i <= |decls|
      invariant values == Records(c.types, decls[..i])
      invariant |values| <= i
    {
      assert decls[..i + 1][..i] == decls[..i];
      var r := RecordOf(c.types, decls[i]);
      if r.Some? {
        values := values + [r.value];
      }
      i := i + 1;
    }
    assert decls[..|decls|] == decls;
  }

  // ---------------------------------------------------------------------
  // Properties of the record list

  lemma {:induction false} RecordsAtMostOnePerDeclaration(types: map<Name, TypeDesc>, ds: seq<ClassDecl>)
    requires WellFormed(types) && DeclarationsTerminate(types, ds)
    ensures |Records(types, ds)| <= |ds|
    ensures forall r :: r in Records(types, ds) ==>
      exists k :: 0 <= k < |ds| && RecordOf(types, ds[k]) == Some(r)
    decreases |ds|
  {
    if |ds| > 0 {
      var init := ds[..|ds| - 1];
      RecordsAtMostOnePerDeclaration(types, init);
      forall r | r in Records(types, ds)
        ensures exists k :: 0 <= k < |ds| && RecordOf(types, ds[k]) == Some(r)
      {
        if r in Records(types, init) {
          var k :| 0 <= k < |init| && RecordOf(types, init[k]) == Some(r);
          assert ds[k] == init[k];
        } else {
          assert RecordOf(types, ds[|ds| - 1]) == Some(r);
        }
      }
    }
  }

  /** With no class carrying the registration attribute, there are no records. */
  lemma {:induction false} NoAttributesNoRecords(types: map<Name, TypeDesc>, ds: seq<ClassDecl>)
    requires WellFormed(types) && DeclarationsTerminate(types, ds)
    requires forall n :: n in types ==> !HasMarker(types[n], RegisterServiceAttribute)
    ensures Records(types, ds) == []
    decreases |ds|
  {
    if |ds| > 0 {
      NoAttributesNoRecords(types, ds[..|ds| - 1]);
      var d := ds[|ds| - 1];
      if DeclaredType(types, d).Some? {
        assert DeclaredType(types, d).value == types[d.symbol.value];
      }
    }
  }

  /** The resolver does not deduplicate: the same declaration listed twice
      gives its record twice. */
  lemma DuplicateDeclarationsRepeat(types: map<Name, TypeDesc>, d: ClassDecl)
    requires WellFormed(types) && DeclarationTerminates(types, d)
    requires RecordOf(types, d).Some?
    ensures Records(types, [d, d]) == [RecordOf(types, d).value, RecordOf(types, d).value]
  {
    assert [d, d][..1] == [d];
    assert [d][..0] == [];
    assert Records(types, []) == [];
    assert Records(types, [d]) == [RecordOf(types, d).value];
  }
}
