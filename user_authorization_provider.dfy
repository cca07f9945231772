/** The authorization gate every store operation passes through
    (src/Witsml.Server/Data/Security/UserAuthorizationProvider.cs).
    The ambient settings, the current operation context and the registered
    adapters are explicit parameters. */
module UserAuthorizationProvider {
  import opened Wrappers
  import opened WitsmlApi

  /** The kind of endpoint a request arrived through. */
  datatype WitsmlEndpointTypes = Soap | Etp

  /** The error codes this gate can raise. */
  datatype ErrorCodes = InsufficientOperationRights

  /** The server settings this gate reads. */
  datatype WitsmlSettings = WitsmlSettings(IsUserAuthorizationEnabled: bool)

  /** The request being executed: the API function and its arguments. */
  datatype RequestContext = RequestContext(
    Function: Functions,
    ObjectType: string,
    Xml: string,
    Options: string,
    Capabilities: string)

  /** The operation context of the current call: who asks, and for what. */
  datatype WitsmlOperationContext = WitsmlOperationContext(User: string, Request: RequestContext)

  /** A registered authorization adapter: its decision for a user, a
      request and an endpoint type. */
  type UserAuthorizationAdapter = (string, RequestContext, WitsmlEndpointTypes) -> bool

  /** LINQ `Select`: `f` applied to each element, in order. */
  function Select<A, B>(s: seq<A>, f: A -> B): (r: seq<B>)
    ensures |r| == |s|
    ensures forall i :: 0 <= i < |s| ==> r[i] == f(s[i])
  {
    if s == [] then [] else [f(s[0])] + Select(s[1..], f)
  }

  /** LINQ `FirstOrDefault` on booleans: the first element, or `false`
      (the default of `bool`) when there is none. */
  function FirstOrDefault(s: seq<bool>): (r: bool)
    ensures |s| > 0 ==> r == s[0]
    ensures |s| == 0 ==> !r
  {
    if s == [] then false else s[0]
  }

  /** Whether the current user may execute the current request through an
      endpoint of type `endpointType`: always when user authorization is
      disabled, otherwise as the first registered adapter decides, and
      never when no adapter is registered. */
  function IsAuthorized(settings: WitsmlSettings, context: WitsmlOperationContext,
                        adapters: seq<UserAuthorizationAdapter>,
                        endpointType: WitsmlEndpointTypes): (r: bool)
    ensures !settings.IsUserAuthorizationEnabled ==> r
    ensures settings.IsUserAuthorizationEnabled && adapters == [] ==> !r
    ensures settings.IsUserAuthorizationEnabled && adapters != [] ==>
      r == adapters[0](context.User, context.Request, endpointType)
  {
    if !settings.IsUserAuthorizationEnabled then true
    else
      var username, request := context.User, context.Request;
      FirstOrDefault(Select(adapters, (adapter: UserAuthorizationAdapter) => adapter(username, request, endpointType)))
  }

  /** Verifies that the current user may execute the requested ETP action:
      fails with `InsufficientOperationRights` on a denial. */
  function CheckEtpAccess(settings: WitsmlSettings, context: WitsmlOperationContext,
                          adapters: seq<UserAuthorizationAdapter>): (r: Outcome<ErrorCodes>)
    ensures r.Fail? <==> !IsAuthorized(settings, context, adapters, Etp)
    ensures r.Fail? ==> r.error == InsufficientOperationRights
  {
    if !IsAuthorized(settings, context, adapters, Etp) then Fail(InsufficientOperationRights) else Pass
  }

  /** Verifies that the current user may execute the requested SOAP action:
      fails with `InsufficientOperationRights` on a denial. */
  function CheckSoapAccess(settings: WitsmlSettings, context: WitsmlOperationContext,
                           adapters: seq<UserAuthorizationAdapter>): (r: Outcome<ErrorCodes>)
    ensures r.Fail? <==> !IsAuthorized(settings, context, adapters, Soap)
    ensures r.Fail? ==> r.error == InsufficientOperationRights
  {
    if !IsAuthorized(settings, context, adapters, Soap) then Fail(InsufficientOperationRights) else Pass
  }

  /** With user authorization disabled every user passes both gates, for
      every request and whatever the adapters would say. */
  lemma DisabledAuthorizationAdmitsEveryone(settings: WitsmlSettings, context: WitsmlOperationContext,
                                            adapters: seq<UserAuthorizationAdapter>)
    requires !settings.IsUserAuthorizationEnabled
    ensures CheckEtpAccess(settings, context, adapters) == Pass
    ensures CheckSoapAccess(settings, context, adapters) == Pass
  {
  }

  /** Adapters after the first never change the outcome: the first
      adapter's decision is final, a denial included. */
  lemma FirstAdapterIsFinal(settings: WitsmlSettings, context: WitsmlOperationContext,
                              first: UserAuthorizationAdapter,
                              rest: seq<UserAuthorizationAdapter>,
                              endpointType: WitsmlEndpointTypes)
    ensures IsAuthorized(settings, context, [first] + rest, endpointType) ==
            IsAuthorized(settings, context, [first], endpointType)
    ensures settings.IsUserAuthorizationEnabled ==>
      IsAuthorized(settings, context, [first] + rest, endpointType) ==
      first(context.User, context.Request, endpointType)
  {
  }

  /** With authorization enabled and no adapter registered, both gates
      deny everyone. */
  lemma NoAdapterDeniesEveryone(settings: WitsmlSettings, context: WitsmlOperationContext)
    requires settings.IsUserAuthorizationEnabled
    ensures CheckEtpAccess(settings, context, []) == Fail(InsufficientOperationRights)
    ensures CheckSoapAccess(settings, context, []) == Fail(InsufficientOperationRights)
  {
  }

  /** The two gates differ only in the endpoint type they ask about: an
      adapter that ignores the endpoint type makes them agree. */
  lemma GatesAgreeWhenEndpointIsIgnored(settings: WitsmlSettings, context: WitsmlOperationContext,
                                        adapters: seq<UserAuthorizationAdapter>)
    requires adapters != [] ==>
      adapters[0](context.User, context.Request, Etp) == adapters[0](context.User, context.Request, Soap)
    ensures CheckEtpAccess(settings, context, adapters) == CheckSoapAccess(settings, context, adapters)
  {
  }
}
