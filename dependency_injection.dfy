/** The service collection of Microsoft.Extensions.DependencyInjection, reduced to its list of descriptors. */
module DependencyInjection {
  import opened Reflection

  /** How the container creates instances of a registered service. */
  datatype Lifetime = Singleton | Scoped | Transient

  /** One registration: the service type asked for and the implementation type that provides it. */
  datatype ServiceDescriptor = ServiceDescriptor(lifetime: Lifetime, serviceType: TypeName, implementationType: TypeName)

  /** An `IServiceCollection`: an ordered list of descriptors that registration appends to. */
  class ServiceCollection {
    var descriptors: seq<ServiceDescriptor>

    constructor ()
      ensures descriptors == []
    {
      descriptors := [];
    }

    /** `Add`: appends `d` and keeps every earlier descriptor. */
    method Add(d: ServiceDescriptor)
      modifies this
      ensures descriptors == old(descriptors) + [d]
    {
      descriptors := descriptors + [d];
    }

    /** `AddSingleton(serviceType, implementationType)`: appends a singleton descriptor. */
    method AddSingleton(serviceType: TypeName, implementationType: TypeName)
      modifies this
      ensures descriptors == old(descriptors) + [ServiceDescriptor(Singleton, serviceType, implementationType)]
    {
      Add(ServiceDescriptor(Singleton, serviceType, implementationType));
    }

    /** `AddTransient(serviceType, implementationType)`: appends a transient descriptor. */
    method AddTransient(serviceType: TypeName, implementationType: TypeName)
      modifies this
      ensures descriptors == old(descriptors) + [ServiceDescriptor(Transient, serviceType, implementationType)]
    {
      Add(ServiceDescriptor(Transient, serviceType, implementationType));
    }
  }
}
