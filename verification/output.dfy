/** What the generators emit: registration statements, the reconstructed
    method and class, and the named source artifact. Also the vocabulary of
    the container library's registration functions, used to read a generated
    call back into the registration it performs. */
module Output {
  import opened Common
  import opened Descriptors

  /** A statement of a generated method body. `Call` is
      `receiver.fname<typeArgs>(args)`, or `receiver?.fname<typeArgs>(args)`
      when `conditional`; each argument is the value of a string literal. */
  datatype Stmt =
    | Call(receiver: string, conditional: bool, fname: string, typeArgs: seq<string>, args: seq<string>)
    | Return
    | ReturnParam(param: string)
    | ReturnDefault(typeName: string)

  /** A generated method: the declaration's name, modifiers, parameters and
      return type, with the synthesized body. */
  datatype MethodOut = MethodOut(name: string, modifiers: seq<string>, params: seq<Param>, returnType: string, body: seq<Stmt>)

  /** The partial class shell; `nullableDirectives` when it is wrapped in
      `#nullable enable` / `#nullable disable`. */
  datatype ClassOut = ClassOut(name: string, modifiers: seq<string>, nullableDirectives: bool, methods: seq<MethodOut>)

  /** A generated compilation unit handed to the host under `hintName`. */
  datatype Artifact = Artifact(hintName: string, usings: seq<string>, ns: string, cls: ClassOut)

  const Usings: seq<string> := ["System", "Microsoft.Extensions.DependencyInjection"]

  // ---------------------------------------------------------------------
  // The container library's registration functions

  /** `Microsoft.Extensions.DependencyInjection.ServiceLifetime`. */
  datatype Lifetime = Singleton | Scoped | Transient

  /** The enum's underlying values. */
  function Code(l: Lifetime): int {
    match l
    case Singleton => 0
    case Scoped => 1
    case Transient => 2
  }

  /** The lifetime both generators select for a lifetime code: the enum's
      values, and singleton for any code outside it. */
  function LifetimeOf(code: int): (l: Lifetime)
    ensures 0 <= code <= 2 ==> Code(l) == code
    ensures !(0 <= code <= 2) ==> l == Singleton
  {
    if code == 1 then Scoped else if code == 2 then Transient else Singleton
  }

  /** A registration function: keyed or not, and its lifetime. */
  datatype Registration = Registration(keyed: bool, lifetime: Lifetime)

  predicate StartsWith(s: string, prefix: string) {
    |prefix| <= |s| && s[..|prefix|] == prefix
  }

  /** Reads a function name `Add[Keyed](Scoped|Transient|Singleton)`. */
  function ParseFunctionName(f: string): Option<Registration> {
    if !StartsWith(f, "Add") then None
    else
      var rest := f[3..];
      var keyed := StartsWith(rest, "Keyed");
      var suffix := if keyed then rest[5..] else rest;
      if suffix == "Scoped" then Some(Registration(keyed, Scoped))
      else if suffix == "Transient" then Some(Registration(keyed, Transient))
      else if suffix == "Singleton" then Some(Registration(keyed, Singleton))
      else None
  }

  function LifetimeName(l: Lifetime): string {
    match l
    case Singleton => "Singleton"
    case Scoped => "Scoped"
    case Transient => "Transient"
  }

  /** The name of a registration function, e.g. `AddKeyedScoped`. */
  function FunctionName(reg: Registration): string {
    "Add" + (if reg.keyed then "Keyed" else "") + LifetimeName(reg.lifetime)
  }

  lemma PrefixSplit(a: string, b: string)
    ensures StartsWith(a + b, a) && (a + b)[|a|..] == b
  {
    assert (a + b)[..|a|] == a;
  }

  /** Reading a registration function name recovers the registration. */
  lemma ParseFunctionNameInverse(reg: Registration)
    ensures ParseFunctionName(FunctionName(reg)) == Some(reg)
  {
    var k := if reg.keyed then "Keyed" else "";
    var suffix := LifetimeName(reg.lifetime);
    var f := FunctionName(reg);
    assert f == "Add" + (k + suffix);
    PrefixSplit("Add", k + suffix);
    var rest := f[3..];
    assert rest == k + suffix;
    if reg.keyed {
      PrefixSplit("Keyed", suffix);
    } else {
      assert !StartsWith(suffix, "Keyed") by {
        assert suffix[0] != 'K';
      }
    }
    LifetimeNameRead(reg.lifetime);
  }

  /** The three lifetime names are told apart by the reader. */
  lemma LifetimeNameRead(l: Lifetime)
    ensures LifetimeName(l) == "Scoped" <==> l == Scoped
    ensures LifetimeName(l) == "Transient" <==> l == Transient
    ensures LifetimeName(l) == "Singleton" <==> l == Singleton
  {
    assert "Singleton"[0] != "Transient"[0];
  }


  /** What a generated call registers: the implementation (the last type
      argument), the service type when there are two, the registration
      function, and the key literal when there is one. */
  datatype Decoded = Decoded(impl: string, service: Option<string>, registration: Registration, key: Option<string>)

  function RegistrationOf(s: Stmt): Option<Decoded> {
    if !s.Call? || |s.typeArgs| == 0 || |s.typeArgs| > 2 || |s.args| > 1 then None
    else
      match ParseFunctionName(s.fname)
      case None => None
      case Some(reg) =>
        Some(Decoded(
          s.typeArgs[|s.typeArgs| - 1],
          if |s.typeArgs| == 2 then Some(s.typeArgs[0]) else None,
          reg,
          if |s.args| == 1 then Some(s.args[0]) else None))
  }

  // ---------------------------------------------------------------------
  // Key literals

  /** A key argument as written in the generated source: a quoted C# string
      literal. */
  function Quote(s: string): string {
    "\"" + Escape(s) + "\""
  }

  /** Reads a quoted literal back to the string it denotes. */
  function Unquote(t: string): Option<string> {
    if |t| >= 2 && t[0] == '"' && t[|t| - 1] == '"' then Unescape(t[1..|t| - 1]) else None
  }

  /** A written key literal denotes the key. */
  lemma QuoteReadsBack(s: string)
    ensures Unquote(Quote(s)) == Some(s)
  {
    var t := Quote(s);
    assert t[1..|t| - 1] == Escape(s);
    UnescapeEscape(s);
  }
}
