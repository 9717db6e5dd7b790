/**
 * `ServiceCollectionExtensions.AddMediator`: resolve the assemblies first, then
 * register the mediator as a singleton, then the notification handlers, then
 * the request handlers, all appended to the caller's service collection.
 */
module ServiceCollectionExtensions {
  import opened Wrappers
  import opened Seqs
  import opened Reflection
  import opened DependencyInjection
  import opened AssemblyResolution
  import opened HandlerRegistration

  const IMediatorType: TypeName := "Mediator.Interfaces.IMediator"
  const MediatorImplementationType: TypeName := "Mediator.Implementation.Mediator"

  /** The descriptors a successful `AddMediator` appends for the resolved `assemblies`, in order. */
  function MediatorRegistrations(assemblies: seq<Assembly>): seq<ServiceDescriptor> {
    [ServiceDescriptor(Singleton, IMediatorType, MediatorImplementationType)] +
    HandlerBindings(assemblies, INotificationHandlerDefinition) +
    HandlerBindings(assemblies, IRequestHandlerDefinition)
  }

  /**
   * `services.AddMediator(args)`, with `inventory` standing for the loaded
   * assemblies. On an invalid `args` it throws before touching `services`;
   * otherwise it appends `MediatorRegistrations` and returns `services` itself.
   */
  method AddMediator(services: ServiceCollection, args: Option<seq<Arg>>, inventory: seq<Assembly>)
    returns (r: Result<ServiceCollection, ArgumentException>)
    modifies services
    ensures ResolveAssemblies(args, inventory).Err? ==>
              r == Err(ResolveAssemblies(args, inventory).error) &&
              services.descriptors == old(services.descriptors)
    ensures ResolveAssemblies(args, inventory).Ok? ==>
              r == Ok(services) &&
              services.descriptors == old(services.descriptors) + MediatorRegistrations(ResolveAssemblies(args, inventory).value)
  {
    var resolved := ResolveAssemblies(args, inventory);
    if resolved.Err? {
      return Err(resolved.error);
    }
    var assemblies := resolved.value;
    ghost var original := services.descriptors;
    ghost var singleton := [ServiceDescriptor(Singleton, IMediatorType, MediatorImplementationType)];
    ghost var notifications := HandlerBindings(assemblies, INotificationHandlerDefinition);
    ghost var requests := HandlerBindings(assemblies, IRequestHandlerDefinition);
    services.AddSingleton(IMediatorType, MediatorImplementationType);
    RegisterHandlers(services, assemblies, INotificationHandlerDefinition);
    RegisterHandlers(services, assemblies, IRequestHandlerDefinition);
    AppendAssociative(original, singleton, notifications);
    AppendAssociative(original, singleton + notifications, requests);
    return Ok(services);
  }

  /**
   * The shape of what `AddMediator` appends: exactly one singleton, the
   * `IMediator` binding, first; every later descriptor is a transient handler
   * binding, the notification handlers before the request handlers.
   */
  lemma MediatorRegistrationsShape(assemblies: seq<Assembly>)
    ensures |MediatorRegistrations(assemblies)| ==
            1 + |HandlerBindings(assemblies, INotificationHandlerDefinition)| + |HandlerBindings(assemblies, IRequestHandlerDefinition)|
    ensures MediatorRegistrations(assemblies)[0] == ServiceDescriptor(Singleton, IMediatorType, MediatorImplementationType)
    ensures forall k :: 1 <= k < |MediatorRegistrations(assemblies)| ==> MediatorRegistrations(assemblies)[k].lifetime == Transient
    ensures forall k :: 0 <= k < |HandlerBindings(assemblies, INotificationHandlerDefinition)| ==>
                        MediatorRegistrations(assemblies)[1 + k] == HandlerBindings(assemblies, INotificationHandlerDefinition)[k]
  {
    HandlerBindingsAreTransient(assemblies, INotificationHandlerDefinition);
    HandlerBindingsAreTransient(assemblies, IRequestHandlerDefinition);
  }

  /**
   * Every handler binding `AddMediator` appends binds a generic interface whose
   * definition is `INotificationHandler<>` or `IRequestHandler<,>` (open ones
   * included) to a class of a resolved assembly that implements it, and every
   * such pair is bound.
   */
  lemma MediatorRegistrationsHandlers(assemblies: seq<Assembly>, d: ServiceDescriptor)
    ensures d in MediatorRegistrations(assemblies)[1..] <==>
            exists a, t, i :: a in assemblies && t in a.types && i in t.interfaces && IsScannedType(t) &&
                              (IsHandlerInterface(i, INotificationHandlerDefinition) || IsHandlerInterface(i, IRequestHandlerDefinition)) &&
                              d == ServiceDescriptor(Transient, i.name, t.name)
  {
    var n := HandlerBindings(assemblies, INotificationHandlerDefinition);
    var q := HandlerBindings(assemblies, IRequestHandlerDefinition);
    assert MediatorRegistrations(assemblies)[1..] == n + q;
    HandlerBindingsMembership(assemblies, INotificationHandlerDefinition, d);
    HandlerBindingsMembership(assemblies, IRequestHandlerDefinition, d);
  }
}
