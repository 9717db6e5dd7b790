/**
 * `ServiceCollectionExtensions.RegisterHandlers`: the ordered scan that appends
 * one transient binding `(iface, type)` per class and per generic interface
 * it implements whose generic definition is the handler interface, open ones
 * such as `INotificationHandler<T>` on a generic class included.
 */
module HandlerRegistration {
  import opened Wrappers
  import opened Seqs
  import opened Reflection
  import opened DependencyInjection

  /** The generic definitions the registration phase scans for. */
  const INotificationHandlerDefinition: TypeName := "Mediator.Interfaces.INotificationHandler`1"
  const IRequestHandlerDefinition: TypeName := "Mediator.Interfaces.IRequestHandler`2"

  /** The type filter of the scan: `t.IsClass && !t.IsInterface`. Abstract classes pass it. */
  predicate IsScannedType(t: TypeInfo) {
    t.isClass && !t.isInterface
  }

  /** The interface filter of the scan: a generic type whose generic definition is `handlerInterface`. */
  predicate IsHandlerInterface(i: InterfaceType, handlerInterface: TypeName) {
    IsGenericType(i) && GetGenericTypeDefinition(i) == handlerInterface
  }

  /** `assemblies.SelectMany(a => a.GetTypes())`: every type, assembly by assembly. */
  function AllTypes(assemblies: seq<Assembly>): seq<TypeInfo> {
    if assemblies == [] then [] else assemblies[0].types + AllTypes(assemblies[1..])
  }

  /** The `types` list the scan walks. */
  function ScannedTypes(assemblies: seq<Assembly>): seq<TypeInfo> {
    Filter(AllTypes(assemblies), IsScannedType)
  }

  function HandlerInterfacePredicate(handlerInterface: TypeName): InterfaceType -> bool {
    i => IsHandlerInterface(i, handlerInterface)
  }

  /** The `interfaces` the inner loop walks for `t`. */
  function MatchingInterfaces(t: TypeInfo, handlerInterface: TypeName): seq<InterfaceType> {
    Filter(t.interfaces, HandlerInterfacePredicate(handlerInterface))
  }

  /** One transient descriptor `(iface, implementationType)` per interface, in order. */
  function TransientBindings(interfaces: seq<InterfaceType>, implementationType: TypeName): seq<ServiceDescriptor> {
    seq(|interfaces|, k requires 0 <= k < |interfaces| => ServiceDescriptor(Transient, interfaces[k].name, implementationType))
  }

  /** The descriptors the inner loop appends for type `t`. */
  function TypeBindings(t: TypeInfo, handlerInterface: TypeName): seq<ServiceDescriptor> {
    TransientBindings(MatchingInterfaces(t, handlerInterface), t.name)
  }

  /** The descriptors the outer loop appends while walking `types`. */
  function Bindings(types: seq<TypeInfo>, handlerInterface: TypeName): seq<ServiceDescriptor> {
    if types == [] then [] else TypeBindings(types[0], handlerInterface) + Bindings(types[1..], handlerInterface)
  }

  /** Everything `RegisterHandlers(services, assemblies, handlerInterface)` appends. */
  function HandlerBindings(assemblies: seq<Assembly>, handlerInterface: TypeName): seq<ServiceDescriptor> {
    Bindings(ScannedTypes(assemblies), handlerInterface)
  }

  /**
   * The scan: the existing descriptors are kept as they are, and exactly the
   * bindings of `HandlerBindings` are appended after them, in scan order.
   */
  method RegisterHandlers(services: ServiceCollection, assemblies: seq<Assembly>, handlerInterface: TypeName)
    modifies services
    ensures services.descriptors == old(services.descriptors) + HandlerBindings(assemblies, handlerInterface)
  {
    var types := ScannedTypes(assemblies);
    var i := 0;
    while i < |types|
      invariant 0 <= i <= |types|
      invariant services.descriptors == old(services.descriptors) + Bindings(types[..i], handlerInterface)
    {
      RegisterTypeBindings(services, types[i], handlerInterface);
      BindingsSnoc(types, i, handlerInterface);
      AppendAssociative(old(services.descriptors), Bindings(types[..i], handlerInterface), TypeBindings(types[i], handlerInterface));
      i := i + 1;
    }
    assert types[..i] == types;
  }

  /** The inner `foreach` of `RegisterHandlers`: one `AddTransient(iface, type)` per matching interface of `t`. */
  method RegisterTypeBindings(services: ServiceCollection, t: TypeInfo, handlerInterface: TypeName)
    modifies services
    ensures services.descriptors == old(services.descriptors) + TypeBindings(t, handlerInterface)
  {
    var interfaces := MatchingInterfaces(t, handlerInterface);
    var j := 0;
    while j < |interfaces|
      invariant 0 <= j <= |interfaces|
      invariant services.descriptors == old(services.descriptors) + TransientBindings(interfaces[..j], t.name)
    {
      services.AddTransient(interfaces[j].name, t.name);
      TransientBindingsSnoc(interfaces, j, t.name);
      AppendAssociative(old(services.descriptors), TransientBindings(interfaces[..j], t.name),
                        [ServiceDescriptor(Transient, interfaces[j].name, t.name)]);
      j := j + 1;
    }
    assert interfaces[..j] == interfaces;
  }

  lemma TransientBindingsSnoc(interfaces: seq<InterfaceType>, j: int, implementationType: TypeName)
    requires 0 <= j < |interfaces|
    ensures TransientBindings(interfaces[..j + 1], implementationType) ==
            TransientBindings(interfaces[..j], implementationType) +
            [ServiceDescriptor(Transient, interfaces[j].name, implementationType)]
  {
  }

  lemma BindingsSnoc(types: seq<TypeInfo>, i: int, handlerInterface: TypeName)
    requires 0 <= i < |types|
    ensures Bindings(types[..i + 1], handlerInterface) ==
            Bindings(types[..i], handlerInterface) + TypeBindings(types[i], handlerInterface)
  {
    assert types[..i + 1] == types[..i] + [types[i]];
    BindingsAppend(types[..i], [types[i]], handlerInterface);
    assert [types[i]][1..] == [];
    assert Bindings([types[i]], handlerInterface) == TypeBindings(types[i], handlerInterface) + Bindings([], handlerInterface);
  }

  /** Walking two type lists one after the other appends their bindings one after the other. */
  lemma {:induction false} BindingsAppend(ts: seq<TypeInfo>, us: seq<TypeInfo>, handlerInterface: TypeName)
    ensures Bindings(ts + us, handlerInterface) == Bindings(ts, handlerInterface) + Bindings(us, handlerInterface)
  {
    if ts == [] {
      assert ts + us == us;
    } else {
      assert (ts + us)[0] == ts[0];
      assert (ts + us)[1..] == ts[1..] + us;
      BindingsAppend(ts[1..], us, handlerInterface);
    }
  }

  lemma {:induction false} AllTypesAppend(as1: seq<Assembly>, as2: seq<Assembly>)
    ensures AllTypes(as1 + as2) == AllTypes(as1) + AllTypes(as2)
  {
    if as1 == [] {
      assert as1 + as2 == as2;
    } else {
      assert (as1 + as2)[0] == as1[0];
      assert (as1 + as2)[1..] == as1[1..] + as2;
      AllTypesAppend(as1[1..], as2);
    }
  }

  lemma AllTypesSingleton(a: Assembly)
    ensures AllTypes([a]) == a.types
  {
    assert [a][1..] == [];
    assert AllTypes([a]) == a.types + AllTypes([]);
  }

  lemma TransientBindingsAppend(is1: seq<InterfaceType>, is2: seq<InterfaceType>, implementationType: TypeName)
    ensures TransientBindings(is1 + is2, implementationType) ==
            TransientBindings(is1, implementationType) + TransientBindings(is2, implementationType)
  {
  }

  /** Assembly order: the bindings of earlier assemblies come first. */
  lemma HandlerBindingsAppend(as1: seq<Assembly>, as2: seq<Assembly>, handlerInterface: TypeName)
    ensures HandlerBindings(as1 + as2, handlerInterface) ==
            HandlerBindings(as1, handlerInterface) + HandlerBindings(as2, handlerInterface)
  {
    AllTypesAppend(as1, as2);
    FilterAppend(AllTypes(as1), AllTypes(as2), IsScannedType);
    BindingsAppend(ScannedTypes(as1), ScannedTypes(as2), handlerInterface);
  }

  /** Type order: within one assembly, the bindings of earlier types come first. */
  lemma AssemblyTypeOrder(a: Assembly, k: int, handlerInterface: TypeName)
    requires 0 <= k <= |a.types|
    ensures HandlerBindings([a], handlerInterface) ==
            HandlerBindings([a.(types := a.types[..k])], handlerInterface) +
            HandlerBindings([a.(types := a.types[k..])], handlerInterface)
  {
    var b, c := a.(types := a.types[..k]), a.(types := a.types[k..]);
    AllTypesSingleton(a);
    AllTypesSingleton(b);
    AllTypesSingleton(c);
    assert a.types == b.types + c.types;
    FilterAppend(b.types, c.types, IsScannedType);
    BindingsAppend(Filter(b.types, IsScannedType), Filter(c.types, IsScannedType), handlerInterface);
  }

  /** Interface order: within one type, the bindings follow the order of `GetInterfaces`. */
  lemma TypeInterfaceOrder(t: TypeInfo, k: int, handlerInterface: TypeName)
    requires 0 <= k <= |t.interfaces|
    ensures TypeBindings(t, handlerInterface) ==
            TypeBindings(t.(interfaces := t.interfaces[..k]), handlerInterface) +
            TypeBindings(t.(interfaces := t.interfaces[k..]), handlerInterface)
  {
    var p := HandlerInterfacePredicate(handlerInterface);
    assert t.interfaces == t.interfaces[..k] + t.interfaces[k..];
    FilterAppend(t.interfaces[..k], t.interfaces[k..], p);
    TransientBindingsAppend(Filter(t.interfaces[..k], p), Filter(t.interfaces[k..], p), t.name);
  }

  /** A type occurs in `AllTypes(assemblies)` exactly when one of the assemblies defines it. */
  lemma {:induction false} AllTypesMembership(assemblies: seq<Assembly>, t: TypeInfo)
    ensures t in AllTypes(assemblies) <==> exists a :: a in assemblies && t in a.types
  {
    if assemblies != [] {
      AllTypesMembership(assemblies[1..], t);
      assert forall a :: a in assemblies <==> a == assemblies[0] || a in assemblies[1..];
    }
  }

  lemma {:induction false} BindingsMembership(types: seq<TypeInfo>, handlerInterface: TypeName, d: ServiceDescriptor)
    ensures d in Bindings(types, handlerInterface) <==> exists t :: t in types && d in TypeBindings(t, handlerInterface)
  {
    if types != [] {
      BindingsMembership(types[1..], handlerInterface, d);
      assert forall t :: t in types <==> t == types[0] || t in types[1..];
    }
  }

  /**
   * Exactly the right descriptors: `d` is appended by the scan if and only if
   * some assembly defines a class `t` (not an interface) with an interface `i`
   * that is generic with definition `handlerInterface`, and `d` is the
   * transient binding of `i` to `t`.
   */
  lemma HandlerBindingsMembership(assemblies: seq<Assembly>, handlerInterface: TypeName, d: ServiceDescriptor)
    ensures d in HandlerBindings(assemblies, handlerInterface) <==>
            exists a, t, i :: a in assemblies && t in a.types && i in t.interfaces &&
                              IsScannedType(t) && IsHandlerInterface(i, handlerInterface) &&
                              d == ServiceDescriptor(Transient, i.name, t.name)
  {
    BindingsMembership(ScannedTypes(assemblies), handlerInterface, d);
    forall t ensures t in ScannedTypes(assemblies) <==> IsScannedType(t) && exists a :: a in assemblies && t in a.types {
      AllTypesMembership(assemblies, t);
    }
    forall t ensures d in TypeBindings(t, handlerInterface) <==>
                     exists i :: i in t.interfaces && IsHandlerInterface(i, handlerInterface) &&
                                 d == ServiceDescriptor(Transient, i.name, t.name) {
      var m := MatchingInterfaces(t, handlerInterface);
      if d in TypeBindings(t, handlerInterface) {
        var k :| 0 <= k < |m| && TypeBindings(t, handlerInterface)[k] == d;
        assert m[k] in m;
      }
      if exists i :: i in t.interfaces && IsHandlerInterface(i, handlerInterface) &&
                     d == ServiceDescriptor(Transient, i.name, t.name) {
        var i :| i in t.interfaces && IsHandlerInterface(i, handlerInterface) &&
                 d == ServiceDescriptor(Transient, i.name, t.name);
        assert i in m;
        var k :| 0 <= k < |m| && m[k] == i;
        assert TypeBindings(t, handlerInterface)[k] == d;
      }
    }
  }

  /** Every descriptor the scan appends is transient. */
  lemma HandlerBindingsAreTransient(assemblies: seq<Assembly>, handlerInterface: TypeName)
    ensures forall k :: 0 <= k < |HandlerBindings(assemblies, handlerInterface)| ==>
                        HandlerBindings(assemblies, handlerInterface)[k].lifetime == Transient
  {
    forall k | 0 <= k < |HandlerBindings(assemblies, handlerInterface)|
      ensures HandlerBindings(assemblies, handlerInterface)[k].lifetime == Transient
    {
      var d := HandlerBindings(assemblies, handlerInterface)[k];
      HandlerBindingsMembership(assemblies, handlerInterface, d);
    }
  }

  /** An assembly none of whose types is a class (all interfaces, say) contributes nothing. */
  lemma UnscannedTypesEmitNothing(a: Assembly, handlerInterface: TypeName)
    requires forall k :: 0 <= k < |a.types| ==> !IsScannedType(a.types[k])
    ensures HandlerBindings([a], handlerInterface) == []
  {
    AllTypesSingleton(a);
    FilterNone(a.types, IsScannedType);
  }

  /** A type none of whose interfaces is generic contributes nothing. */
  lemma NonGenericInterfacesEmitNothing(t: TypeInfo, handlerInterface: TypeName)
    requires forall k :: 0 <= k < |t.interfaces| ==> !IsGenericType(t.interfaces[k])
    ensures TypeBindings(t, handlerInterface) == []
  {
    FilterNone(t.interfaces, HandlerInterfacePredicate(handlerInterface));
  }

  /**
   * A class implementing the handler interface for k message types yields k
   * bindings, one per matching interface and in `GetInterfaces` order; its
   * other interfaces, generic or not, add nothing, and abstract classes are
   * not set apart. When every interface is a handler interface, there is one
   * binding per interface.
   */
  lemma ClassYieldsOneBindingPerInterface(a: Assembly, t: TypeInfo, handlerInterface: TypeName)
    requires a.types == [t] && IsScannedType(t)
    ensures HandlerBindings([a], handlerInterface) == TypeBindings(t, handlerInterface)
    ensures |HandlerBindings([a], handlerInterface)| == |MatchingInterfaces(t, handlerInterface)|
    ensures forall k :: 0 <= k < |MatchingInterfaces(t, handlerInterface)| ==>
                        HandlerBindings([a], handlerInterface)[k] ==
                        ServiceDescriptor(Transient, MatchingInterfaces(t, handlerInterface)[k].name, t.name)
    ensures HandlerBindings([a.(types := [t.(isAbstract := !t.isAbstract)])], handlerInterface) ==
            HandlerBindings([a], handlerInterface)
    ensures (forall k :: 0 <= k < |t.interfaces| ==> IsHandlerInterface(t.interfaces[k], handlerInterface)) ==>
            HandlerBindings([a], handlerInterface) ==
            seq(|t.interfaces|, k requires 0 <= k < |t.interfaces| => ServiceDescriptor(Transient, t.interfaces[k].name, t.name))
  {
    var t' := t.(isAbstract := !t.isAbstract);
    AllTypesSingleton(a);
    AllTypesSingleton(a.(types := [t']));
    assert Filter([t], IsScannedType) == [t];
    assert Filter([t'], IsScannedType) == [t'];
    assert Bindings([t], handlerInterface) == TypeBindings(t, handlerInterface) + [];
    assert Bindings([t'], handlerInterface) == TypeBindings(t', handlerInterface) + [];
    if forall k :: 0 <= k < |t.interfaces| ==> IsHandlerInterface(t.interfaces[k], handlerInterface) {
      FilterAll(t.interfaces, HandlerInterfacePredicate(handlerInterface));
    }
  }

  /**
   * A handler that also implements an unrelated interface, as in
   * `H : INotificationHandler<A>, IDisposable, INotificationHandler<B>`, gets
   * exactly the two handler bindings, in that order.
   */
  lemma HandlerAmongOtherInterfaces(a: Assembly, t: TypeInfo, i1: InterfaceType, other: InterfaceType, i2: InterfaceType, handlerInterface: TypeName)
    requires a.types == [t] && IsScannedType(t) && t.interfaces == [i1, other, i2]
    requires IsHandlerInterface(i1, handlerInterface) && IsHandlerInterface(i2, handlerInterface)
    requires !IsHandlerInterface(other, handlerInterface)
    ensures HandlerBindings([a], handlerInterface) ==
            [ServiceDescriptor(Transient, i1.name, t.name), ServiceDescriptor(Transient, i2.name, t.name)]
  {
    var p := HandlerInterfacePredicate(handlerInterface);
    ClassYieldsOneBindingPerInterface(a, t, handlerInterface);
    assert [i1, other, i2][1..] == [other, i2];
    assert [other, i2][1..] == [i2];
    assert Filter([i2], p) == [i2] + Filter([], p);
    assert Filter([i1, other, i2], p) == [i1, i2];
  }

  /**
   * An open generic handler is registered as it stands: `LogAll<T>`, which
   * implements `INotificationHandler<T>`, gets the transient binding of that
   * open interface to the generic class.
   */
  lemma OpenGenericHandlerRegistered()
    ensures var open := InterfaceType("Mediator.Interfaces.INotificationHandler`1[T]", Some(INotificationHandlerDefinition));
            var logAll := TypeInfo("App.LogAll`1", true, false, false, [open]);
            HandlerBindings([Assembly(Some("App"), false, [logAll])], INotificationHandlerDefinition) ==
            [ServiceDescriptor(Transient, open.name, logAll.name)]
  {
    var open := InterfaceType("Mediator.Interfaces.INotificationHandler`1[T]", Some(INotificationHandlerDefinition));
    var logAll := TypeInfo("App.LogAll`1", true, false, false, [open]);
    var a := Assembly(Some("App"), false, [logAll]);
    assert IsHandlerInterface(logAll.interfaces[0], INotificationHandlerDefinition);
    ClassYieldsOneBindingPerInterface(a, logAll, INotificationHandlerDefinition);
  }

  /**
   * Duplicates are kept: two classes in two assemblies that handle the same
   * message give two bindings for the same service type, in assembly order.
   */
  lemma DuplicateHandlersKept(a1: Assembly, a2: Assembly, handlerInterface: TypeName, i: InterfaceType)
    requires |a1.types| == 1 && IsScannedType(a1.types[0]) && a1.types[0].interfaces == [i]
    requires |a2.types| == 1 && IsScannedType(a2.types[0]) && a2.types[0].interfaces == [i]
    requires IsHandlerInterface(i, handlerInterface)
    ensures HandlerBindings([a1, a2], handlerInterface) ==
            [ServiceDescriptor(Transient, i.name, a1.types[0].name), ServiceDescriptor(Transient, i.name, a2.types[0].name)]
  {
    var p := HandlerInterfacePredicate(handlerInterface);
    var t1, t2 := a1.types[0], a2.types[0];
    assert AllTypes([a1, a2]) == a1.types + AllTypes([a2]);
    assert AllTypes([a2]) == a2.types + AllTypes([]);
    assert AllTypes([a1, a2]) == [t1, t2];
    assert Filter([t1, t2], IsScannedType) == [t1, t2];
    assert Filter([i], p) == [i];
    assert Bindings([t1, t2], handlerInterface) == TypeBindings(t1, handlerInterface) + Bindings([t2], handlerInterface);
    assert Bindings([t2], handlerInterface) == TypeBindings(t2, handlerInterface) + [];
  }
}
