# GaoWare.DependencyInjection generator — a Dafny model

GaoWare.DependencyInjection is a C# source generator. A class marked
`[RegisterService]` is turned into a registration record: the
implementation type, the service interface, an optional key and a
lifetime. An entry-point method then receives a generated body, which
holds one `AddScoped` / `AddKeyedTransient` / … call per record. Neither
generator checks that the method is static. The two generators pick
entry points differently:

- The current generator fills a method marked `[DependencyRegistration]`
  that takes an `IServiceCollection` and returns void. The body holds
  the calls, or a lone `return;` when there are no records.
- The legacy generator fills every method carrying an attribute whose
  simple name is `GenerateServiceRegistrationAttribute`. The method may
  be non-void and may lack a container parameter. The calls are written
  only when a parameter's type display starts with `IServiceCollection`.
  A non-void method ends with `return` of that parameter when its return
  type is the parameter's type, and otherwise with `return default(T);`.

This project models the three parts of the generator that do the work:

- **The resolver** (`DependenciesParser`, module `DependenciesParser` in
  `parser.dfy`). It decodes a registration attribute's constructor and
  named arguments. It infers the service interface as the first
  `[RegisterInterface]`-marked interface, searched depth-first through the
  inheritance chains. It rejects classes whose attributes do not bind, and
  it emits records in syntax-tree order.
- **The synthesizer** (`CodeGenerator`, module `CodeGenerator` in
  `codegen.dfy`). For each record it builds the registration call: the
  function name, the type arguments, the key argument and the nullable
  `?.` access. It then builds the entry-point method and the partial class
  shell, derives the namespace and the `{Class}.g.cs` hint name, and
  processes each class only once.
- **The legacy generator** (module `LegacyGenerator` in `legacy.dfy`). This
  is the older single-file implementation. It matches attributes by simple
  name and the container parameter by display-string prefix. It reads a
  three-argument constructor, reconstructs the modifiers and the parameter
  list, and writes a return statement for non-void methods. Lemmas relate
  it to the current generator: the interface search is the same, the
  statements agree except for an empty key, and the namespace agrees
  except for the global namespace.

The compiler's symbols are replaced by plain descriptors (`descriptors.dfy`):

- types with their namespace chain, all their interfaces (with a depth
  rank that orders the interface hierarchy) and their attributes;
- class declarations in syntax trees;
- methods with their parameters.

The generated C# becomes a small statement datatype (`output.dfy`). The
statement can be read back into the registration it performs, so every
generated call has a round trip to its meaning. `samples.dfy` works
through the repository's sample project.

Where the code and its documentation disagree, the model follows the code:

- The resolver does not deduplicate records. A class listed twice yields
  two records (`DuplicateDeclarationsRepeat`).
- For a type in the global namespace, the current `GetFullNamespace`
  returns the type's own name, not an empty string.
- An empty `ServiceKey` still selects a `Keyed` function, but passes no
  key argument.
- A bare `[RegisterService]` yields no record, although the attribute
  declares `Scoped` as its default lifetime. The generator reads only
  written arguments.

## Model

Source paths below are relative to the repository root.

| member | source | states |
|---|---|---|
| DependenciesParser.ParseAttributeData | GaoWare.DependencyInjection.Generator/DependencyInjectionGenerator.Parser.cs:167-234 | An attribute gives a record exactly when none of its named arguments is of error kind and a lifetime is given. The record has the class name, the last `InterfaceType` naming a type, the last string `ServiceKey`, and the lifetime: the sole constructor argument if it is an int, else the first named `ServiceLifetime`. |
| DependenciesParser.FoldSpec | GaoWare.DependencyInjection.Generator/DependencyInjectionGenerator.Parser.cs:185-223 | Without error arguments, the named-argument loop computes these readings: the first lifetime, the last interface type and the last key. |
| DependenciesParser.FoldErrorMisconfigures | GaoWare.DependencyInjection.Generator/DependencyInjectionGenerator.Parser.cs:193-197 | Any error-kind named argument marks the attribute misconfigured, wherever it appears. |
| DependenciesParser.BareAttributeDropped | GaoWare.DependencyInjection.Generator/DependencyInjectionGenerator.Parser.cs:225-233 | A `[RegisterService]` with no arguments produces no record. |
| DependenciesParser.NoLifetimeNoRecord | GaoWare.DependencyInjection.Generator/DependencyInjectionGenerator.Parser.cs:225-229 | Without a constructor lifetime or a named `ServiceLifetime`, no record results, whatever interface or key is given. |
| DependenciesParser.CtorLifetimeWins | GaoWare.DependencyInjection.Generator/DependencyInjectionGenerator.Parser.cs:174-183 | A constructor lifetime takes precedence over any named `ServiceLifetime`. |
| DependenciesParser.CheckInterfaceHasAttribute | GaoWare.DependencyInjection.Generator/DependencyInjectionGenerator.Parser.cs:254-273 | A hit is a type of the compilation that is a `[RegisterInterface]`-marked interface. A marked interface is its own hit. |
| DependenciesParser.SearchFromFirstHit | GaoWare.DependencyInjection.Generator/DependencyInjectionGenerator.Parser.cs:262-270 | The search over an interface list returns the hit of the first interface that has one, and none when no interface has one. |
| DependenciesParser.HitIsReachable | GaoWare.DependencyInjection.Generator/DependencyInjectionGenerator.Parser.cs:254-273 | Every hit is the end of an inheritance chain that starts at the searched interface. |
| DependenciesParser.MissMeansNoneReachable | GaoWare.DependencyInjection.Generator/DependencyInjectionGenerator.Parser.cs:254-273 | When the search misses, no eligible interface is reachable through any inheritance chain. |
| DependenciesParser.InferIsFirstHit | GaoWare.DependencyInjection.Generator/DependencyInjectionGenerator.Parser.cs:144-151 | The inference loop over the class's interfaces yields the first hit, in declaration order. |
| DependenciesParser.CheckClassInheritInterface | GaoWare.DependencyInjection.Generator/DependencyInjectionGenerator.Parser.cs:236-252 | On the inputs where the walk returns, it is true exactly when the explicit interface is the class itself, and the interface then has no bases to recurse into. |
| DependenciesParser.InheritCheckRecursesForever | GaoWare.DependencyInjection.Generator/DependencyInjectionGenerator.Parser.cs:243-251 | Once the explicit interface has a base interface, the first recursive call repeats itself with the same arguments, so the check cannot return. |
| DependenciesParser.InheritCheckMissesInheritance | GaoWare.DependencyInjection.Generator/DependencyInjectionGenerator.Parser.cs:236-252 | A class that implements an interface without bases is reported as not inheriting it, although an inheritance chain leads from the class to the interface. |
| DependenciesParser.InheritsInterfaceIsReachability | GaoWare.DependencyInjection.Generator/DependencyInjectionGenerator.Parser.cs:236-252 | The corrected check holds exactly when an inheritance chain leads from the class to the interface. |
| DependenciesParser.CompleteService | GaoWare.DependencyInjection.Generator/DependencyInjectionGenerator.Parser.cs:130-159 | A record with an explicit interface is kept or dropped by the inheritance check. A record without one gets the inferred interface and is always kept. No attribute means no record. |
| DependenciesParser.ServiceRecord | GaoWare.DependencyInjection.Generator/DependencyInjectionGenerator.Parser.cs:94-159 | A record belongs to its own class, and only a class carrying the registration attribute yields one. It exists exactly when the last registration attribute parses and passes the inheritance check. |
| DependenciesParser.AttributesLoopResult | GaoWare.DependencyInjection.Generator/DependencyInjectionGenerator.Parser.cs:94-127 | However many registration attributes the declaration names, the loop ends with the class's single record, or with none if no attribute names the registration class. |
| DependenciesParser.RecordOf | GaoWare.DependencyInjection.Generator/DependencyInjectionGenerator.Parser.cs:83-160 | A declaration yields a record only for its bound symbol, and only when it names the registration attribute. Given both, it yields the class's record. |
| DependenciesParser.ParseDependencies | GaoWare.DependencyInjection.Generator/DependencyInjectionGenerator.Parser.cs:36-165 | If a well-known type is missing, the result is empty. Otherwise it is the records of the declarations grouped by syntax tree, at most one per declaration. |
| DependenciesParser.RecordsAtMostOnePerDeclaration | GaoWare.DependencyInjection.Generator/DependencyInjectionGenerator.Parser.cs:83-162 | There are no more records than declarations, and each record is the record of some declaration. |
| DependenciesParser.NoAttributesNoRecords | GaoWare.DependencyInjection.Generator/DependencyInjectionGenerator.Parser.cs:94-127 | With no class carrying the registration attribute, there are no records. |
| DependenciesParser.DuplicateDeclarationsRepeat | GaoWare.DependencyInjection.Generator/DependencyInjectionGenerator.Parser.cs:156-159 | A declaration listed twice yields its record twice. |
| Output.ParseFunctionNameInverse | GaoWare.DependencyInjection.Generator/DependencyInjectionGenerator.Generator.cs:244-265 | Reading a registration function name back recovers the keyed flag and the lifetime. |
| Output.LifetimeOf | GaoWare.DependencyInjection.Generator/DependencyInjectionGenerator.Generator.cs:251-262 | The lifetime codes 0, 1 and 2 select Singleton, Scoped and Transient. Any other code selects Singleton. |
| Common.UnescapeEscape | GaoWare.DependencyInjection.Generator/DependencyInjectionGenerator.Generator.cs:279-283 | A stand-alone model of how Roslyn's `SyntaxFactory.Literal` prints the key. No generator member in the model calls it, because `Stmt.args` keeps the raw key. Reading back the literal body gives back the key. The body uses the short escapes for backslash, quote, `\0 \a \b \f \n \r \t \v`, and `\uXXXX` for the other control characters and the line and paragraph separators. |
| Output.QuoteReadsBack | GaoWare.DependencyInjection.Generator/GaoWare.DependencyInjection.Generator/DependencyInjectionGenerator.cs:318-321 | A stand-alone model of `SyntaxFactory.Literal`, which no generator member in the model calls. `Quote` is the printed form of a key argument: the escaped string between double quotes, as Roslyn's `Literal` prints it. The statement datatype keeps the raw key in `Stmt.args`. Unquoting a quoted string gives the string back. |
| CodeGenerator.GetFunctionName | GaoWare.DependencyInjection.Generator/DependencyInjectionGenerator.Generator.cs:244-265 | The name is the registration function for (key present, lifetime), and it reads back as exactly that registration. |
| CodeGenerator.GetArgumentsForService | GaoWare.DependencyInjection.Generator/DependencyInjectionGenerator.Generator.cs:272-284 | There is a single argument, the key, exactly when the key is non-empty, and none otherwise. |
| CodeGenerator.GetArityTypesForService | GaoWare.DependencyInjection.Generator/DependencyInjectionGenerator.Generator.cs:286-302 | The implementation is the last type argument. It is preceded by the interface exactly when there is one. |
| CodeGenerator.CreateStatement | GaoWare.DependencyInjection.Generator/DependencyInjectionGenerator.Generator.cs:178-235 | The statement is a call on the container parameter. It goes through `?.` exactly when the parameter is not marked not-nullable: annotated or oblivious. |
| CodeGenerator.StatementRegistersService | GaoWare.DependencyInjection.Generator/DependencyInjectionGenerator.Generator.cs:178-235 | Reading a generated call back gives the record's implementation, interface, registration function and key. |
| CodeGenerator.CallShapesAgree | GaoWare.DependencyInjection.Generator/DependencyInjectionGenerator.Generator.cs:189-231 | The nullable and plain call shapes differ only in the access operator. |
| CodeGenerator.EmptyKeyKeyedWithoutArgument | GaoWare.DependencyInjection.Generator/DependencyInjectionGenerator.Generator.cs:246-284 | An empty key selects a keyed function but passes no key. |
| CodeGenerator.ServiceCollectionParameter | GaoWare.DependencyInjection.Generator/DependencyInjectionGenerator.Generator.cs:110-115 | Returns the first parameter whose type is `IServiceCollection`, ignoring nullability, and none exactly when no parameter has that type. |
| CodeGenerator.RegistrationStatements | GaoWare.DependencyInjection.Generator/DependencyInjectionGenerator.Generator.cs:118-128 | There is one statement per record, in record order. No records gives a lone `return;`. |
| CodeGenerator.StatementsRegisterInOrder | GaoWare.DependencyInjection.Generator/DependencyInjectionGenerator.Generator.cs:118-128 | Statement k registers record k. |
| CodeGenerator.MethodOutput | GaoWare.DependencyInjection.Generator/DependencyInjectionGenerator.Generator.cs:89-140 | A method is emitted exactly for an entry point: the registration attribute, a container parameter and a void return. It keeps the declaration's name, modifiers, parameters and return type. Its body is the registration statements for the first container parameter. |
| CodeGenerator.EmittedMethodsNonEmpty | GaoWare.DependencyInjection.Generator/DependencyInjectionGenerator.Generator.cs:89-141 | Some method is emitted exactly when some member is an entry point. |
| CodeGenerator.EmittedMethodsAreEntryPoints | GaoWare.DependencyInjection.Generator/DependencyInjectionGenerator.Generator.cs:89-141 | Every emitted method comes from an entry-point member of the class. |
| CodeGenerator.GetFullNamespace | GaoWare.DependencyInjection.Generator/DependencyInjectionGenerator.Generator.cs:304-330 | Gives the dotted namespace, outermost first; splitting it at dots gives the namespace path back. For the global namespace it gives the type's name. |
| CodeGenerator.GenerateClassOutput | GaoWare.DependencyInjection.Generator/DependencyInjectionGenerator.Generator.cs:66-176 | A file is produced exactly when both well-known types exist, the declaration binds, and some member is an entry point. The file is `{Class}.g.cs`. It has the `System` and `Microsoft.Extensions.DependencyInjection` usings, the class's full namespace, the declaration's modifiers, the `#nullable` directives always, and the emitted methods. |
| CodeGenerator.GenerateOutput | GaoWare.DependencyInjection.Generator/DependencyInjectionGenerator.Generator.cs:36-64 | The artifacts are those of the first binding declaration of each class, in syntax-tree order. |
| CodeGenerator.FirstPerClassIsFirstOccurrence | GaoWare.DependencyInjection.Generator/DependencyInjectionGenerator.Generator.cs:50-60 | The processed declarations are exactly the first binding declaration of each class. Every class that binds is covered, and no class is processed twice. |
| LegacyGenerator.SingleOrDefault | GaoWare.DependencyInjection.Generator/GaoWare.DependencyInjection.Generator/DependencyInjectionGenerator.cs:110 | Gives the attribute with the given simple name, or none exactly when no attribute has that name. |
| LegacyGenerator.CheckInterfaceHasAttribute | GaoWare.DependencyInjection.Generator/GaoWare.DependencyInjection.Generator/DependencyInjectionGenerator.cs:161-181 | A hit is an interface marked with an attribute named `RegisterInterfaceAttribute`. The interface itself is the hit when it is eligible. |
| LegacyGenerator.SearchFromFirstHit | GaoWare.DependencyInjection.Generator/GaoWare.DependencyInjection.Generator/DependencyInjectionGenerator.cs:170-178 | The search returns the hit of the first interface that has one. |
| LegacyGenerator.SearchAgreesWithCurrent | GaoWare.DependencyInjection.Generator/GaoWare.DependencyInjection.Generator/DependencyInjectionGenerator.cs:161-181 | Unless an unrelated attribute has the same simple name, the legacy search equals the current one. |
| LegacyGenerator.InferIsFirstHit | GaoWare.DependencyInjection.Generator/GaoWare.DependencyInjection.Generator/DependencyInjectionGenerator.cs:141-152 | The inference loop stops at the first hit over the class's interfaces. |
| LegacyGenerator.LookupService | GaoWare.DependencyInjection.Generator/GaoWare.DependencyInjection.Generator/DependencyInjectionGenerator.cs:110-155 | A record is produced exactly when the service attribute exists with three constructor arguments. The lifetime is the first argument if it is an int, else 1. The key is the second argument if it is a string. The interface is the third argument if it is a type, else the inferred interface. |
| LegacyGenerator.LookupServices | GaoWare.DependencyInjection.Generator/GaoWare.DependencyInjection.Generator/DependencyInjectionGenerator.cs:100-159 | Gives at most one record per listed class, in order: a class whose attribute does not have exactly three constructor arguments gives none. Every record belongs to a listed class. |
| LegacyGenerator.OnlyThreeArgumentForm | GaoWare.DependencyInjection.Generator/GaoWare.DependencyInjection.Generator/DependencyInjectionGenerator.cs:117 | Attributes written with any other number of constructor arguments give no records. |
| LegacyGenerator.CreateAddStatementWithInterface | GaoWare.DependencyInjection.Generator/GaoWare.DependencyInjection.Generator/DependencyInjectionGenerator.cs:313-391 | A call on the container, conditional exactly when it is not marked not-nullable. Reading it back gives the implementation, the interface, the registration for (key present, lifetime) and the key. |
| LegacyGenerator.StatementMatchesCurrent | GaoWare.DependencyInjection.Generator/GaoWare.DependencyInjection.Generator/DependencyInjectionGenerator.cs:313-391 | The legacy statement equals the current one, except for an empty key: the legacy generator passes `""` and the current one passes nothing. |
| LegacyGenerator.GetModifiers | GaoWare.DependencyInjection.Generator/GaoWare.DependencyInjection.Generator/DependencyInjectionGenerator.cs:393-433 | `partial` appears exactly once, as the last modifier. |
| LegacyGenerator.ModifiersRoundTrip | GaoWare.DependencyInjection.Generator/GaoWare.DependencyInjection.Generator/DependencyInjectionGenerator.cs:393-433 | Parsing the written modifiers recovers the written accessibility and all five flags (static, abstract, sealed, virtual, override), and they come back in the canonical order the writer uses. |
| LegacyGenerator.CreateParameterList | GaoWare.DependencyInjection.Generator/GaoWare.DependencyInjection.Generator/DependencyInjectionGenerator.cs:435-471 | One output per parameter with the same name and type. It has a `ref`, `out` or `params` modifier exactly per the parameter's kind, with `ref` before `out` before `params`. The method is defined but has no caller: the legacy method copies the declaration's parameter list (lines 224-228). |
| LegacyGenerator.ParameterListReadsBack | GaoWare.DependencyInjection.Generator/GaoWare.DependencyInjection.Generator/DependencyInjectionGenerator.cs:435-471 | Every written parameter reads back as the parameter's name, displayed type and kind (`ref`, `out`, `params` or plain). |
| LegacyGenerator.GetFullNamespace | GaoWare.DependencyInjection.Generator/GaoWare.DependencyInjection.Generator/DependencyInjectionGenerator.cs:285-311 | Gives the dotted namespace, which splits back into its path, and empty for the global namespace. |
| LegacyGenerator.NamespaceMatchesCurrent | GaoWare.DependencyInjection.Generator/GaoWare.DependencyInjection.Generator/DependencyInjectionGenerator.cs:285-311 | Both generators agree on every named namespace. They differ only for the global namespace. |
| LegacyGenerator.ServiceCollectionParameter | GaoWare.DependencyInjection.Generator/GaoWare.DependencyInjection.Generator/DependencyInjectionGenerator.cs:192-193 | Gives the first parameter whose display starts with the container's name, and none exactly when no parameter's does. |
| LegacyGenerator.ReturnStatement | GaoWare.DependencyInjection.Generator/GaoWare.DependencyInjection.Generator/DependencyInjectionGenerator.cs:205-221 | `return p;` when the method returns the container's type; otherwise `return default(T);` for a non-void method, and nothing for a void one. |
| LegacyGenerator.ReturnOnlyWhenNonVoid | GaoWare.DependencyInjection.Generator/GaoWare.DependencyInjection.Generator/DependencyInjectionGenerator.cs:196-221 | A void method's body holds only registrations. A non-void one ends with exactly one return statement. |
| LegacyGenerator.Body | GaoWare.DependencyInjection.Generator/GaoWare.DependencyInjection.Generator/DependencyInjectionGenerator.cs:196-221 | The body holds the registrations, one per record when there is a container parameter, followed by the return statement. |
| LegacyGenerator.BodyRegistersInOrder | GaoWare.DependencyInjection.Generator/GaoWare.DependencyInjection.Generator/DependencyInjectionGenerator.cs:196-203 | With a container, statement k registers record k. |
| LegacyGenerator.NoContainerNoRegistrations | GaoWare.DependencyInjection.Generator/GaoWare.DependencyInjection.Generator/DependencyInjectionGenerator.cs:192-221 | Without a container parameter, the body holds no calls, only the return statement a non-void method needs. |
| LegacyGenerator.GenerateRegistrationCode | GaoWare.DependencyInjection.Generator/GaoWare.DependencyInjection.Generator/DependencyInjectionGenerator.cs:183-283 | Writes one file per entry, named `{Class}.{Method}.g.cs`, holding the class's namespace and modifiers. It is wrapped in `#nullable` directives exactly when there is a container and it is not marked not-nullable. It holds the usings and the full body. |
| Samples.SampleRecords | GaoWare.DependencyInjection.Generator.Sample/SampleEntity.cs:20-47 | `Service1` is bound to the marked `ITestService` by inference. `Service2` is bound to its explicit interface. `Service3` is keyed `TestKey`, transient, and bound to no interface. |
| Samples.SampleStatements | GaoWare.DependencyInjection.Generator.Sample/SampleEntity.cs:11-47 | The sample entry point receives `AddScoped<ITestService, Service1>`, `AddScoped<ITestServiceWithoutAttribute, Service2>` and `AddKeyedTransient<Service3>("TestKey")`, each called through `?.`. |
| Samples.SampleArtifact | GaoWare.DependencyInjection.Generator.Sample/SampleEntity.cs:4-17 | `TestClass` gives `TestClass.g.cs` in the sample namespace with the usings and `#nullable` directives. Both `TestGenerator` and `TestGen` keep `public static partial`, their container parameter and `void`, and receive the same registration statements. |
| Samples.LegacySampleRecords | GaoWare.DependencyInjection.Generator/GaoWare.DependencyInjection.Generator.Sample/SampleEntity.cs:16-43 | The legacy generator binds `Service1` to `ITestService`, `Service2` to its explicit interface, and leaves `Service3` without an interface or key. |
| Samples.LegacySampleArtifact | GaoWare.DependencyInjection.Generator/GaoWare.DependencyInjection.Generator.Sample/SampleEntity.cs:4-12 | The sample method's file is `TestClass.TestGenerator.g.cs`. It has the usings and is in the sample namespace, as a `public partial` class `TestClass` with `#nullable` directives. Its one method keeps the name, the `public virtual partial` modifiers, the container parameter and `void`, and carries `LegacyGenerator.Body`, which `Samples.LegacySampleBody` spells out. |
| Samples.LegacySampleBody | GaoWare.DependencyInjection.Generator/GaoWare.DependencyInjection.Generator.Sample/SampleEntity.cs:11-43 | The legacy body registers the three services and, for the void method, ends without a return. |

## Left out

- Generator wiring: `Initialize`, `Execute`, the attribute-driven syntax
  providers, and the legacy `HasClassAttribute`, `HasMethodAttribute`,
  `GetClassSymbol`, `GetMethodSymbol` and `GenerateAttributes` with their
  pipeline composition. These are host plumbing. Their outputs are the
  model's inputs.
- Semantic-model queries (`GetDeclaredSymbol`, `GetBestTypeByMetadataName`,
  `AllInterfaces`, `ToDisplayString`) are replaced by precomputed
  descriptors. Display strings are treated as given names.
- Syntax-tree construction: whitespace, trivia, elastic annotations,
  UTF-8 encoding and `AddSource`. The statement datatype keeps the
  content and drops the layout; only the key literal is written out as
  text. A duplicate hint name that makes `AddSource` throw is not
  modelled.
- Cancellation tokens and diagnostic reporting. A misconfigured
  attribute simply yields no record.
- LegacyGenerator.SingleOrDefault: throwing on two attributes with the
  same simple name is modelled as a precondition (at most one such
  attribute), because the exception aborts the generator.
- CodeGenerator.GenerateClassOutput: a method symbol that the semantic
  model cannot resolve is not modelled; every method member carries its
  descriptor.
- DependenciesParser.CheckClassInheritInterface: modelled only where the
  source returns (`InheritCheckReturns`). When the interface differs from
  the class and has a base interface, the source does not terminate
  (`InheritCheckRecursesForever`). An explicit interface that is not a
  type of the described compilation, for example one from a referenced
  assembly, may have bases the model cannot see. It is therefore outside
  the resolver's precondition (`DeclarationTerminates`), which is stated
  per declaration. It covers only the last registration attribute of
  the class, the only one whose parse the source completes.
- Common.UnescapeEscape: the `\uXXXX` escapes for characters of category
  OtherNotAssigned, and the `\u`/`\U` handling of UTF-16 surrogates, are
  not modelled. Dafny characters are Unicode scalar values, and the
  category table is not modelled.
- LegacyGenerator.ParameterListReadsBack: `in` and `ref readonly`
  parameters are written without a modifier (as the source does), so
  they read back as plain or `params` parameters.
- Samples.SampleArtifact: the `this` modifier on `TestGen`'s parameter is
  not represented in the parameter descriptor. Both generators copy the
  parameter list as written, so it does not change what is registered.
- LegacyGenerator.LookupService: the third constructor argument counts as
  an interface only when it names a type of the compilation; other
  `ITypeSymbol` kinds (arrays, type parameters) are not modelled.
- The legacy attribute declaration (with its three-parameter
  constructor) is not part of this model. Only the argument count and
  kinds that the lookup reads are used.
- Base classes are not part of the type descriptors. Both generators
  walk only `AllInterfaces`, which the descriptors list in full, and
  never a class's base type.
- The runtime attribute classes and their property defaults (for
  example `ServiceLifetime = Scoped`) are not modelled: the generators
  read only the written arguments.

## Findings

| source | as written | input that shows it | evidently intended | confidence | as-written member | corrected member |
|---|---|---|---|---|---|---|
| GaoWare.DependencyInjection.Generator/DependencyInjectionGenerator.Parser.cs:236-252 | The recursion walks the explicit interface's own interfaces and passes that interface back unchanged. It returns only when the interface is the class (true) or has no bases (false), and otherwise re-enters itself forever. | `class C : IDerived` with `[RegisterService(ServiceLifetime.Scoped, InterfaceType = typeof(IDerived))]` and `interface IDerived : IBase` never returns. `class C : IBase` with `InterfaceType = typeof(IBase)` gives false. | True exactly when the class is the interface or one of the class's interfaces inherits it, walking the class's interfaces and terminating on every input. | medium; not executed | DependenciesParser.InheritCheckRecursesForever | DependenciesParser.InheritsInterfaceIsReachability |

The resolver keeps the written check on the inputs where it returns.
Its caller (Parser.cs lines 130-135) drops the record when the check says
true. With the corrected check, a class that implements its explicit
interface would lose its record, for example the sample's `Service2`. So
the caller's intent cannot be settled from the code, and the corrected
check (`DependenciesParser.InheritsInterface`) stands alongside it.
