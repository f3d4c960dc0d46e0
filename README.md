# gRPC request validation: registration table and unary validation gate

This project is a Dafny model of the core of a library for ASP.NET Core gRPC servers. The library
validates each incoming request message with a FluentValidation validator before the service
method runs. The model has three parts.

- **Registration.** The dependency-injection `IServiceCollection` is modelled as a class that holds
  a sequence of `(serviceType, implementation, lifetime)` descriptors. Registration methods grow
  that sequence in place. Two insertion policies come from the DI library's documented contract:
  - `TryAdd` appends a descriptor only when its service type is absent, so the first one wins.
  - `Add` always appends.

  The extension methods combine these policies:
  - `AddValidator` is first-wins on `IValidator<T>`.
  - `AddInlineValidator` is additive.
  - A validator profile owns a private collection, which `AddValidatorProfile` copies wholesale.
  - Every call except `AddValidatorProfile<TProfile>()` first try-adds the two core services: the
    validator locator and the error-message handler. That overload first constructs the profile. If
    the profile's constructor throws, the target collection is left untouched.
- **Message-type resolution.** `TypeHelper` picks the first implemented interface that is a closed
  `IValidator<T>` and returns `IValidator<T>`. It throws when there is no such interface.
- **Unary gate.** `ValidationInterceptor.UnaryServerHandler` looks up a validator and validates the
  request. It then either calls the continuation with the untouched request, or fails the call.
  On failure it sets the call status to `INVALID_ARGUMENT` with the handler's text, sets the
  `grpc-status` response header to `"3"`, and returns an empty response.

Modules: `Wrappers` (result types), `Reflection` (types and interfaces), `FluentValidation`
(validators are opaque), `DependencyInjection` (descriptors and the collection), `TypeHelper`,
`ServiceCollectionHelper`, `ValidatorProfiles`, `RegistrationProperties` (whole runs of
registration calls) and `ValidationInterceptor`.

Each `After…` function states what a registration method leaves in the collection. Each method's
`ensures` ties the new `descriptors` to that function. The lemmas prove the registration
properties about those functions.

Three behaviours of the code are worth stating plainly:
- **Message-type resolution.** Resolution takes the first `IValidator<_>` in interface order and
  raises no ambiguity error when a class implements several
  (`TypeHelper.ResolvesToFirstValidatorInterface`).
- **Call shapes.** Only the unary handler is overridden.
- **Failure signalling.** A failed validation sets both the call status and the `grpc-status`
  response header.

## Model

| member | source | states |
|---|---|---|
| `TypeHelper.FirstValidatorInterface` | src/Grpc.AspNetCore.FluentValidation/Internal/TypeHelper.cs:12-13 | It finds only an interface of the class that is a closed `IValidator<_>`. It returns none exactly when no implemented interface is one. |
| `TypeHelper.GetServiceTypeFromValidatorType` | src/Grpc.AspNetCore.FluentValidation/Internal/TypeHelper.cs:9-22 | It succeeds iff some implemented interface is a closed `IValidator<_>`. The result is a closed `IValidator<_>` with exactly one argument, and that argument is the message type of such an interface. Otherwise it throws `AggregateException` with the class name followed by "is not implement with IValidator<>.". |
| `TypeHelper.FirstMatchWins` | src/Grpc.AspNetCore.FluentValidation/Internal/TypeHelper.cs:12-13 | The search returns the earliest `IValidator<_>` interface in interface order. |
| `TypeHelper.ResolvesToFirstValidatorInterface` | src/Grpc.AspNetCore.FluentValidation/Internal/TypeHelper.cs:12-21 | A class implementing several `IValidator<X>` resolves to `IValidator<>` of the first one's argument, with no ambiguity error. |
| `TypeHelper.OtherInterfacesNeverMatter` | src/Grpc.AspNetCore.FluentValidation/Internal/TypeHelper.cs:13 | Inserting a plain interface, or a generic interface of another definition, anywhere in the list never changes the result. |
| `DependencyInjection.ServiceCollection.Contains` | src/Grpc.AspNetCore.FluentValidation/ServiceCollectionHelper.cs:30 | The scan that `TryAdd` makes answers true exactly when some descriptor has the service type. |
| `DependencyInjection.ServiceCollection.TryAdd` | src/Grpc.AspNetCore.FluentValidation/ServiceCollectionHelper.cs:30 | It appends the descriptor only when its service type is absent; otherwise the collection is unchanged. |
| `DependencyInjection.ServiceCollection.Add` | src/Grpc.AspNetCore.FluentValidation/ServiceCollectionHelper.cs:45 | It always appends the descriptor, whatever is already registered. This is the policy of `AddSingleton`. |
| `DependencyInjection.TryAddIdempotent` | src/Grpc.AspNetCore.FluentValidation/ServiceCollectionHelper.cs:30 | Repeating a `TryAdd` of the same descriptor changes nothing. |
| `DependencyInjection.ServiceCollection.AddRange` | src/Grpc.AspNetCore.FluentValidation/ServiceCollectionHelper.cs:58 | It appends every given descriptor, in order, with no check. |
| `DependencyInjection.TryAddCount` | src/Grpc.AspNetCore.FluentValidation/ServiceCollectionHelper.cs:30 | `TryAdd` is first-wins. The added service type ends up counted once if it was absent, and keeps its count if it was present. No other service type's count changes. |
| `ServiceCollectionHelper.AddGrpcValidatorCore` | src/Grpc.AspNetCore.FluentValidation/ServiceCollectionHelper.cs:11-15 | It try-adds the scoped locator factory, then the singleton `DefaultErrorMessageHandler`. |
| `ServiceCollectionHelper.WithCoreCount` | src/Grpc.AspNetCore.FluentValidation/ServiceCollectionHelper.cs:11-15 | After the core try-add, each core service is present exactly once if it was present at most once before. Every other service type keeps its count. |
| `ServiceCollectionHelper.WithCoreIdempotent` | src/Grpc.AspNetCore.FluentValidation/ServiceCollectionHelper.cs:11-15 | Adding the core services a second time changes nothing. |
| `ServiceCollectionHelper.AddValidator` | src/Grpc.AspNetCore.FluentValidation/ServiceCollectionHelper.cs:25-32 | The core services are added first. Then the method try-adds `IValidator<T>`, with the resolved `T`, the validator class and the given lifetime, and returns the same collection. The lifetime parameter defaults to Scoped, as in the source. When resolution fails it throws, and the core services stay added. |
| `ServiceCollectionHelper.AddValidatorFirstWins` | src/Grpc.AspNetCore.FluentValidation/ServiceCollectionHelper.cs:28-30 | If `IValidator<T>` is already registered, only the core services are added. Otherwise exactly the new validator descriptor is appended after the core services. |
| `ServiceCollectionHelper.AddValidatorTwice` | src/Grpc.AspNetCore.FluentValidation/ServiceCollectionHelper.cs:30 | Registering the same validator class twice, with any lifetimes, leaves what the first call left: one binding, with the first lifetime. |
| `ServiceCollectionHelper.AddValidatorFailureAddsNoValidator` | src/Grpc.AspNetCore.FluentValidation/ServiceCollectionHelper.cs:24-30 | When the class implements no `IValidator<_>`, the collection holds only what the core try-add left. No other service type gains a descriptor. |
| `ServiceCollectionHelper.AddInlineValidator` | src/Grpc.AspNetCore.FluentValidation/ServiceCollectionHelper.cs:41-47 | The core services are added. Then a new inline validator, built from the configuration, is appended as a singleton `IValidator<TMessage>` instance. The method returns the same collection. |
| `ServiceCollectionHelper.AddInlineValidatorAdditive` | src/Grpc.AspNetCore.FluentValidation/ServiceCollectionHelper.cs:45 | `IValidator<TMessage>` gains exactly one descriptor even when one exists. Other non-core service types are unchanged. |
| `ServiceCollectionHelper.AddValidatorProfileCopiesAll` | src/Grpc.AspNetCore.FluentValidation/ServiceCollectionHelper.cs:57-58 | Every service type gains exactly as many descriptors as the profile holds for it, with no deduplication. This comes on top of the core try-add. |
| `ValidatorProfiles.ValidatorProfileBase.constructor` | src/Grpc.AspNetCore.FluentValidation/ValidatorProfileBase.cs:11 | A new profile owns a fresh, empty collection. |
| `ValidatorProfiles.ValidatorProfileBase.CreateInlineValidator` | src/Grpc.AspNetCore.FluentValidation/ValidatorProfileBase.cs:18-23 | It appends exactly one singleton `IValidator<TRequest>` descriptor whose instance is the fresh validator it returns. A second call for the same type appends a second descriptor. |
| `ValidatorProfiles.ValidatorProfileBase.AddValidator` | src/Grpc.AspNetCore.FluentValidation/ValidatorProfileBase.cs:29-32 | It behaves as the lifetime overload with Scoped. |
| `ValidatorProfiles.ValidatorProfileBase.AddValidatorWithLifetime` | src/Grpc.AspNetCore.FluentValidation/ValidatorProfileBase.cs:39-42 | It is the first-wins `AddValidator` on the profile's own collection, core services included, and it throws on the same classes. |
| `ValidatorProfiles.NewProfile` | src/Grpc.AspNetCore.FluentValidation/ServiceCollectionHelper.cs:68-71 | It runs the subclass constructor's calls in order, and the new profile's collection is `ProfileSpec` of those calls. The first throwing `AddValidator` aborts construction. Its exception reaches the caller wrapped in `TargetInvocationException`. Each `CreateInlineValidator` call registers its own new object, distinct from those of the other calls. |
| `ValidatorProfiles.AddValidatorProfile` | src/Grpc.AspNetCore.FluentValidation/ServiceCollectionHelper.cs:55-60 | It try-adds the core services, then appends the profile's descriptors in order, and returns the same collection. |
| `ValidatorProfiles.AddValidatorProfileOf` | src/Grpc.AspNetCore.FluentValidation/ServiceCollectionHelper.cs:68-73 | It has the effect of `AddValidatorProfile` on a newly constructed profile. The inline validators it registers are new objects, one per `CreateInlineValidator` call. If the profile's constructor throws, the collection is untouched. The caller then sees `TargetInvocationException` wrapping the exception of the constructor's first failing `AddValidator` step. |
| `ValidatorProfiles.DuplicateValidatorInProfileIgnored` | src/Grpc.AspNetCore.FluentValidation/ValidatorProfileBase.cs:39-42 | Within one profile, adding a validator class again leaves the profile's collection unchanged. This holds with any lifetime and after any other steps in between. |
| `ValidatorProfiles.ProfileCoreCount` | src/Grpc.AspNetCore.FluentValidation/ValidatorProfileBase.cs:18-42 | A profile's own collection holds each core service exactly once if any of its constructor's calls is an `AddValidator`, however many there are, and not at all otherwise. |
| `ValidatorProfiles.ProfileDuplicatesCoreServices` | src/Grpc.AspNetCore.FluentValidation/ServiceCollectionHelper.cs:55-60 | Take any profile whose constructor makes at least one `AddValidator` call, mixed with any `CreateInlineValidator` calls. It carries its own core descriptors, and these are copied unconditionally. The target then holds each core service one more time than the core try-add leaves, so at least twice. |
| `RegistrationProperties.CoreServicesAtMostOnce` | src/Grpc.AspNetCore.FluentValidation/ServiceCollectionHelper.cs:11-15 | Take any run of `AddValidator` and `AddInlineValidator` calls, plus profiles that hold no core descriptor. The locator and the handler are each registered at most once, and exactly once after the first call. |
| `FluentValidation.Validator.ValidateAsync` | src/Grpc.AspNetCore.FluentValidation/Internal/ValidationInterceptor.cs:28 | The result is the rules applied to the request. The call is recorded once. |
| `ValidationInterceptor.UnaryServerMethod.Invoke` | src/Grpc.AspNetCore.FluentValidation/Internal/ValidationInterceptor.cs:38 | The continuation returns its handler's response. It records the request and context it was called with, and the status and headers the context held on entry and on exit. It may write to the context. |
| `ValidationInterceptor.Gate` | src/Grpc.AspNetCore.FluentValidation/Internal/ValidationInterceptor.cs:26-34 | The call proceeds iff there is no validator or the result lists no failure. Otherwise the status is `INVALID_ARGUMENT`, and its detail is the handler's text for the full failure list. |
| `ValidationInterceptor.UnaryServerHandler` | src/Grpc.AspNetCore.FluentValidation/Internal/ValidationInterceptor.cs:21-39 | The validator, when the locator reports one, is invoked exactly once. On proceed, the continuation is called once with the original request and context, and its result is returned. The context holds the status and headers the interceptor found when the continuation is entered, and whatever the continuation left when the call ends, so the interceptor writes neither. On reject, the continuation is not called and the empty response is returned. The status becomes `(InvalidArgument, handler(errors))`, whose code value is 3. The headers gain only `grpc-status` = `"3"`. |

## Left out

- Client-streaming, server-streaming and duplex handlers are not overridden in the code. They fall through to the base `Interceptor` and are not modelled.
- The validation rule engine is opaque. A validator is a function from message to result, and the handler text is an opaque function of the failure list. The default error-message handler and the validator locator (`ServiceCollectionValidationProvider`) are not part of this model. The locator appears only through its answer for the request type.
- DI resolution and lifetime caching are not modelled. The lifetime is a tag in the descriptor. The locator factory is named by what it builds.
- Runtime reflection is replaced by a type datatype. A class's interface list stands for `GetInterfaces()`, and the empty response (`ObjectCreator<TResponse>.Empty`) is a parameter.
- The continuation's own writes to the context are not modelled. Whatever the service method does to the status or headers after it is entered is left arbitrary.
- The model is sequential: `async`/`await` and `Task` are dropped. The `grpc-message` header that the transport adds on its own is not modelled.
- A profile subclass's constructor is modelled only through the calls it makes to `CreateInlineValidator` and `AddValidator`. Other user code in the constructor is not modelled.
- `ValidatorProfiles.AddValidatorProfile` requires that the target is not the profile's own collection. That collection is internal to the library, so no caller can pass it.
- `GetServiceTypeFromValidatorTYpe` depends only on its type argument. This holds because it is a Dafny function, so no lemma states it.
- Keyed services of newer DI versions are left out. `TryAdd` compares service types only.
