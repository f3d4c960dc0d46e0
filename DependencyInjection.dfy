/**
 * The dependency-injection collection that registration writes into, with the
 * insertion policies of the DI library's documented contract:
 *  - `Add` always appends the descriptor;
 *  - `TryAdd` appends it only when no descriptor with the same service type is present
 *    (first registration wins, and repeating it changes nothing);
 *  - `Add(IEnumerable<ServiceDescriptor>)` appends every descriptor, in order, with no check.
 */
module DependencyInjection {
  import opened Reflection
  import opened FluentValidation

  datatype ServiceLifetime = Singleton | Scoped | Transient

  /** How the container obtains the service: by constructing a class, by calling a factory
      (named by what it builds), or by handing out one existing object. */
  datatype Implementation =
    | ImplementationType(implementationType: ClassType)
    | ImplementationFactory(product: string)
    | ImplementationInstance(instance: InlineValidator)

  datatype ServiceDescriptor = ServiceDescriptor(serviceType: TypeRef, implementation: Implementation, lifetime: ServiceLifetime)

  /** Some descriptor in `ds` is registered under service type `t`. */
  predicate HasService(ds: seq<ServiceDescriptor>, t: TypeRef)
  {
    exists i | 0 <= i < |ds| :: ds[i].serviceType == t
  }

  /** The number of descriptors in `ds` registered under service type `t`. */
  function Count(ds: seq<ServiceDescriptor>, t: TypeRef): nat
  {
    if ds == [] then 0
    else Count(ds[..|ds| - 1], t) + (if ds[|ds| - 1].serviceType == t then 1 else 0)
  }

  /** The collection after `TryAdd(d)`. */
  function TryAdded(ds: seq<ServiceDescriptor>, d: ServiceDescriptor): seq<ServiceDescriptor>
  {
    if HasService(ds, d.serviceType) then ds else ds + [d]
  }

  lemma {:induction false} CountConcat(a: seq<ServiceDescriptor>, b: seq<ServiceDescriptor>, t: TypeRef)
    ensures Count(a + b, t) == Count(a, t) + Count(b, t)
    decreases |b|
  {
    if b != [] {
      assert (a + b)[..|a + b| - 1] == a + b[..|b| - 1];
      CountConcat(a, b[..|b| - 1], t);
    } else {
      assert a + b == a;
    }
  }

  /** A service type is present exactly when it is counted at least once. */
  lemma {:induction false} CountPositive(ds: seq<ServiceDescriptor>, t: TypeRef)
    ensures Count(ds, t) > 0 <==> HasService(ds, t)
    decreases |ds|
  {
    if ds != [] {
      var init := ds[..|ds| - 1];
      CountPositive(init, t);
      if HasService(init, t) {
        var i :| 0 <= i < |init| && init[i].serviceType == t;
        assert ds[i].serviceType == t;
      }
      if HasService(ds, t) && ds[|ds| - 1].serviceType != t {
        var i :| 0 <= i < |ds| && ds[i].serviceType == t;
        assert init[i].serviceType == t;
      }
    }
  }

  /** `TryAdd` is first-wins: the added service type ends up counted once if it was absent and
      keeps its count if present; every other service type keeps its count. */
  lemma TryAddCount(ds: seq<ServiceDescriptor>, d: ServiceDescriptor, t: TypeRef)
    ensures Count(TryAdded(ds, d), t) ==
            if t == d.serviceType && Count(ds, t) == 0 then 1 else Count(ds, t)
  {
    CountPositive(ds, d.serviceType);
    CountConcat(ds, [d], t);
    assert [d][..0] == [];
  }

  /** Repeating a `TryAdd` changes nothing. */
  lemma TryAddIdempotent(ds: seq<ServiceDescriptor>, d: ServiceDescriptor)
    ensures TryAdded(TryAdded(ds, d), d) == TryAdded(ds, d)
  {
    if !HasService(ds, d.serviceType) {
      var n := |ds|;
      assert (ds + [d])[n].serviceType == d.serviceType;
    }
  }

  /** `IServiceCollection`, a list of descriptors that registration grows in place. */
  class ServiceCollection {
    var descriptors: seq<ServiceDescriptor>

    constructor ()
      ensures descriptors == []
    {
      descriptors := [];
    }

    /** The scan `TryAdd` performs: is any descriptor registered under `serviceType`? */
    method Contains(serviceType: TypeRef) returns (found: bool)
      ensures found <==> HasService(descriptors, serviceType)
    {
      found := false;
      var i := 0;
      while i < |descriptors|
        invariant 0 <= i <= |descriptors|
        invariant found <==> exists j | 0 <= j < i :: descriptors[j].serviceType == serviceType
      {
        if descriptors[i].serviceType == serviceType {
          found := true;
        }
        i := i + 1;
      }
    }

    method Add(d: ServiceDescriptor)
      modifies this
      ensures descriptors == old(descriptors) + [d]
    {
      descriptors := descriptors + [d];
    }

    method TryAdd(d: ServiceDescriptor)
      modifies this
      ensures descriptors == TryAdded(old(descriptors), d)
    {
      var present := Contains(d.serviceType);
      if !present {
        Add(d);
      }
    }

    /** `Add(IEnumerable<ServiceDescriptor>)`: appends each descriptor in order. */
    method AddRange(ds: seq<ServiceDescriptor>)
      modifies this
      ensures descriptors == old(descriptors) + ds
    {
      var i := 0;
      while i < |ds|
        invariant 0 <= i <= |ds|
        invariant descriptors == old(descriptors) + ds[..i]
      {
        Add(ds[i]);
        assert ds[..i + 1] == ds[..i] + [ds[i]];
        i := i + 1;
      }
      assert ds[..i] == ds;
    }
  }
}
