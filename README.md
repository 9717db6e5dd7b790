# Mediator registration phase, modelled in Dafny

This project models the registration phase of a small in-process mediator
library for .NET: the extension method `AddMediator` on an
`IServiceCollection`. `AddMediator(args)` works in three steps.

1. It chooses the assemblies to scan from its `params object[] args`.
2. It registers the mediator itself as a singleton.
3. It scans those assemblies twice, once for generic interfaces whose
   definition is `INotificationHandler<>` and once for `IRequestHandler<,>`.
   Open ones, such as `INotificationHandler<T>` on a generic class, match
   too: the code never checks that the form is closed. Each match is
   appended to the collection as a transient binding `(interface, class)`.

Reflection and the dependency-injection container are plain data here:

- An `Assembly` has a nullable full name, an `isDynamic` flag and its types
  in `GetTypes` order.
- A `TypeInfo` has `isClass`, `isInterface`, `isAbstract` and its interfaces
  in `GetInterfaces` order.
- An `InterfaceType` has a name and an optional generic definition. The
  definition is present exactly when the interface is a generic type.
- The service collection is a class whose one field is the ordered
  sequence of `ServiceDescriptor(lifetime, serviceType, implementationType)`.

Files and modules:

- `wrappers.dfy` (`Wrappers`): `Option` and `Result`.
- `seqs.dfy` (`Seqs`): `Filter`, which is LINQ's `Where`, and the
  subsequence relation, with their lemmas.
- `reflection.dfy` (`Reflection`): the reflection data, plus
  `string.IsNullOrWhiteSpace` and `string.StartsWith`.
- `dependency_injection.dfy` (`DependencyInjection`): descriptors and the
  `ServiceCollection` class with `AddSingleton` and `AddTransient`.
- `assembly_resolution.dfy` (`AssemblyResolution`): `ResolveAssemblies`
  as a pure function, with one lemma per shape of `args`.
- `handler_registration.dfy` (`HandlerRegistration`): the scan. A
  specification function `HandlerBindings` describes it, and the method
  `RegisterHandlers` is proved to append exactly that. Lemmas cover order,
  membership and multiplicity.
- `service_collection_extensions.dfy` (`ServiceCollectionExtensions`): the
  `AddMediator` method and what it appends.

Where the code's comment and its behaviour disagree, the model follows the
behaviour; it also records what the code does not check:

- **Prefix polarity.** The string form of `args` *excludes* every assembly
  whose name starts with one of the prefixes
  (`Mediator/Mediator/Extensions/ServiceCollectionExtensions.cs:47`). The
  comment at line 38 suggests inclusion.
  `ResolveAssemblies` uses the exclusion the code performs.
  `PrefixFiltered` takes a `PrefixPolicy` parameter, so the inclusion
  polarity can be stated too. `PrefixPoliciesPartition` proves that the two
  polarities split the no-argument selection between them.
- **Abstract classes.** The code keeps every type with
  `IsClass && !IsInterface`, so abstract classes are scanned.
- **Visibility.** The code does not check type visibility either, so
  visibility is not modelled.
- **Mixed selectors.** The error is raised for a non-empty `args` that is
  neither all assemblies nor all strings. That includes any null element.

## Model

| member | source | states |
|---|---|---|
| `AssemblyResolution.ResolveWithoutArguments` | Mediator/Mediator/Extensions/ServiceCollectionExtensions.cs:26-31 | With a null or empty `args`, the result succeeds. It is an order-preserving subsequence of the inventory that holds each non-dynamic assembly with a non-null, non-white-space name as often as the inventory does, and nothing else. |
| `AssemblyResolution.ResolveExplicitAssemblies` | Mediator/Mediator/Extensions/ServiceCollectionExtensions.cs:35-36 | Passing a non-empty list of assemblies returns exactly that list, in order, unfiltered. Dynamic, unnamed and repeated entries stay. |
| `AssemblyResolution.ResolvePrefixes` | Mediator/Mediator/Extensions/ServiceCollectionExtensions.cs:39-48 | Passing a non-empty list of prefixes succeeds. The result is an order-preserving subsequence of the no-argument result. Each assembly keeps its inventory multiplicity exactly when it is scannable and no prefix starts its name. No kept name starts with any prefix. |
| `AssemblyResolution.ResolveRejects` | Mediator/Mediator/Extensions/ServiceCollectionExtensions.cs:26-51 | The call throws if and only if `args` is non-empty and neither all assemblies nor all strings. The exception is `ArgumentException` with the source's message. |
| `AssemblyResolution.ResolveRejectsForeignElement` | Mediator/Mediator/Extensions/ServiceCollectionExtensions.cs:35-51 | A null element, or an element that is neither an assembly nor a string (such as 42), makes the call throw `ArgumentException`. |
| `AssemblyResolution.ResolveRejectsMixedElements` | Mediator/Mediator/Extensions/ServiceCollectionExtensions.cs:35-51 | A list holding both an assembly and a string makes the call throw `ArgumentException`. |
| `AssemblyResolution.PrefixPoliciesPartition` | Mediator/Mediator/Extensions/ServiceCollectionExtensions.cs:38-48 | The exclude selection and the include selection together hold exactly the no-argument selection, as multisets. Each is an order-preserving subsequence of it. |
| `AssemblyResolution.PrefixSelectionExample` | Mediator/Mediator/Extensions/ServiceCollectionExtensions.cs:39-48 | `AddMediator("Foo.")` over `Foo.Handlers` and `Bar.Handlers` scans only `Bar.Handlers`: the matching assembly is dropped. |
| `HandlerRegistration.RegisterHandlers` | Mediator/Mediator/Extensions/ServiceCollectionExtensions.cs:54-73 | Existing descriptors are untouched. Exactly `HandlerBindings(assemblies, handlerInterface)` is appended after them. |
| `HandlerRegistration.RegisterTypeBindings` | Mediator/Mediator/Extensions/ServiceCollectionExtensions.cs:62-70 | The inner loop appends one transient `(iface, type)` per matching interface of the type, in `GetInterfaces` order, and nothing else. |
| `HandlerRegistration.HandlerBindingsMembership` | Mediator/Mediator/Extensions/ServiceCollectionExtensions.cs:56-70 | A descriptor is appended if and only if some scanned assembly defines a class (not an interface) with an interface that is generic with the target definition. The descriptor is then the transient binding of that interface to that class. |
| `HandlerRegistration.HandlerBindingsAreTransient` | Mediator/Mediator/Extensions/ServiceCollectionExtensions.cs:69 | Every appended handler descriptor is transient. |
| `HandlerRegistration.HandlerBindingsAppend` | Mediator/Mediator/Extensions/ServiceCollectionExtensions.cs:56-60 | Assembly order: the bindings for `as1 + as2` are those of `as1` followed by those of `as2`. |
| `HandlerRegistration.AssemblyTypeOrder` | Mediator/Mediator/Extensions/ServiceCollectionExtensions.cs:56-60 | Type order: splitting an assembly's types at any point splits its bindings at the same point, the earlier types first. |
| `HandlerRegistration.TypeInterfaceOrder` | Mediator/Mediator/Extensions/ServiceCollectionExtensions.cs:62-70 | Interface order: splitting a type's interfaces at any point splits its bindings the same way, the earlier interfaces first. |
| `HandlerRegistration.BindingsAppend` | Mediator/Mediator/Extensions/ServiceCollectionExtensions.cs:60-71 | Walking two type lists in turn appends their bindings in turn. |
| `HandlerRegistration.UnscannedTypesEmitNothing` | Mediator/Mediator/Extensions/ServiceCollectionExtensions.cs:57 | An assembly without a single type that is a class and not an interface contributes no binding. |
| `HandlerRegistration.NonGenericInterfacesEmitNothing` | Mediator/Mediator/Extensions/ServiceCollectionExtensions.cs:63-65 | A type whose interfaces are all non-generic contributes no binding. |
| `HandlerRegistration.ClassYieldsOneBindingPerInterface` | Mediator/Mediator/Extensions/ServiceCollectionExtensions.cs:57-70 | A class alone in its assembly yields exactly its type bindings: one transient binding per interface that is generic with the target definition, in `GetInterfaces` order, whatever other interfaces it has. So k message types give k bindings, and one per interface when all interfaces match. Flipping the class's `isAbstract` flag leaves its bindings unchanged. |
| `HandlerRegistration.HandlerAmongOtherInterfaces` | Mediator/Mediator/Extensions/ServiceCollectionExtensions.cs:62-70 | A class with interfaces `[handler, other, handler]` gets exactly the two handler bindings, in order; the other interface adds nothing. |
| `HandlerRegistration.OpenGenericHandlerRegistered` | Mediator/Mediator/Extensions/ServiceCollectionExtensions.cs:57-69 | A generic class `LogAll<T> : INotificationHandler<T>` passes the type filter, and its open interface passes the interface filter. So the scan appends the transient binding of `INotificationHandler<T>` to `LogAll<>`. |
| `HandlerRegistration.DuplicateHandlersKept` | Mediator/Mediator/Extensions/ServiceCollectionExtensions.cs:56-70 | Two classes in two assemblies that handle the same message both get a binding for the same service type, in assembly order. No cardinality check is made. |
| `ServiceCollectionExtensions.AddMediator` | Mediator/Mediator/Extensions/ServiceCollectionExtensions.cs:11-21 | If `args` is invalid, the call throws and the collection is unchanged. Otherwise it returns the same collection, extended by the original descriptors ++ the `IMediator` singleton ++ the notification-handler bindings ++ the request-handler bindings. |
| `ServiceCollectionExtensions.MediatorRegistrationsShape` | Mediator/Mediator/Extensions/ServiceCollectionExtensions.cs:15-18 | What is appended starts with the single singleton `IMediator → Mediator`. Every later descriptor is transient, and the notification-handler bindings come right after the singleton. |
| `ServiceCollectionExtensions.MediatorRegistrationsHandlers` | Mediator/Mediator/Extensions/ServiceCollectionExtensions.cs:17-18 | A descriptor after the singleton is appended if and only if it binds a generic interface whose definition is `INotificationHandler<>` or `IRequestHandler<,>`, open ones such as `INotificationHandler<T>` included, to a class of a resolved assembly that implements it. |

## Left out

- Reflection itself is not modelled: `AppDomain.GetAssemblies`, `Assembly.GetTypes` and `Type.GetInterfaces` are input data. The inventory is the `inventory` parameter. `ReflectionTypeLoadException` from `GetTypes` is not modelled.
- `string.StartsWith(string)` is culture-sensitive in .NET. It is modelled as an ordinal prefix test on `seq<char>`.
- `Char.IsWhiteSpace` is modelled by its fixed list of Unicode white-space code points.
- The dependency-injection container is reduced to its descriptor list. Instantiation, resolution and lifetimes beyond a `Singleton`/`Transient` tag are not modelled, and neither is the `ArgumentNullException` for a null `services`.
- Dispatch (`Send`, `Publish`) is not modelled. The implementing `Mediator.Implementation.Mediator` class is not part of this model, so handler resolution, cardinality checks, cancellation and failure aggregation are not either.
- The interface files `IMediator.cs`, `IRequestHandler.cs` and `INotificationHandler.cs` declare no behaviour. Only the identities of the two generic handler definitions are used, as constants.
- Type identity is reduced to full names.
- `Task` and `CancellationToken` asynchrony and any concurrency are not modelled.
