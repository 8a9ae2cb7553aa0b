/** The decoded manifests gwlint reads, reduced to the fields its checks look at. A Go pointer is an Option. */
module Manifests {

  datatype Option<+T> = None | Some(value: T) {
    function GetOr(default: T): T {
      if Some? then value else default
    }
  }

  const GATEWAY_API_GROUP := "gateway.networking.k8s.io"
  const ENVOY_GATEWAY_GROUP := "gateway.envoyproxy.io"

  const GATEWAY := "Gateway"
  const LISTENER_SET := "ListenerSet"
  const HTTP_ROUTE := "HTTPRoute"
  const GRPC_ROUTE := "GRPCRoute"
  const TCP_ROUTE := "TCPRoute"
  const TLS_ROUTE := "TLSRoute"
  const UDP_ROUTE := "UDPRoute"
  const ROUTE_KINDS := [HTTP_ROUTE, GRPC_ROUTE, TCP_ROUTE, TLS_ROUTE, UDP_ROUTE]

  /** Identifies an object by kind, namespace and name. */
  datatype ObjectRef = ObjectRef(kind: string, namespace: string, name: string)

  /** `created` is absent when the manifest carries no creationTimestamp, or Go's zero time; otherwise Unix seconds. */
  datatype Meta = Meta(namespace: string, name: string, labels: map<string, string>, created: Option<int>)

  // Routes

  datatype ParentReference = ParentReference(
    group: Option<string>, kind: Option<string>, namespace: Option<string>, name: string,
    sectionName: Option<string>)

  datatype BackendReference = BackendReference(
    group: Option<string>, kind: Option<string>, namespace: Option<string>, name: string)

  datatype PathMatch = PathMatch(matchType: Option<string>, value: Option<string>)

  /** An HTTPHeaderMatch or an HTTPQueryParamMatch: the two have the same fields. */
  datatype ValueMatch = ValueMatch(matchType: Option<string>, name: string, value: string)

  datatype HTTPRouteMatch = HTTPRouteMatch(
    path: Option<PathMatch>, headers: seq<ValueMatch>, queryParams: seq<ValueMatch>, method_: Option<string>)

  /** An HTTPBackendRef or a GRPCBackendRef: a backendRef wrapped with filters of its own. */
  datatype FilteredBackend = FilteredBackend(ref: BackendReference, filters: seq<string>)

  datatype HTTPRule = HTTPRule(
    name: Option<string>, matches: seq<HTTPRouteMatch>, filters: seq<string>, backendRefs: seq<FilteredBackend>)

  datatype GRPCRule = GRPCRule(name: Option<string>, filters: seq<string>, backendRefs: seq<FilteredBackend>)

  /** A TCP, TLS or UDP rule, at v1 or v1alpha2: six Go types with the same two fields. */
  datatype StreamRule = StreamRule(name: Option<string>, backendRefs: seq<BackendReference>)

  // Gateways and ListenerSets

  datatype RouteGroupKind = RouteGroupKind(group: Option<string>, kind: string)

  datatype RouteNamespaces = RouteNamespaces(from: Option<string>)

  datatype AllowedRoutes = AllowedRoutes(namespaces: Option<RouteNamespaces>, kinds: seq<RouteGroupKind>)

  datatype SecretReference = SecretReference(
    group: Option<string>, kind: Option<string>, namespace: Option<string>, name: string)

  datatype ListenerTLS = ListenerTLS(mode: Option<string>, certificateRefs: seq<SecretReference>)

  datatype ListenerSpec = ListenerSpec(
    name: string, hostname: Option<string>, port: int, protocol: string, tls: Option<ListenerTLS>,
    allowedRoutes: Option<AllowedRoutes>)

  datatype SetParent = SetParent(
    group: Option<string>, kind: Option<string>, namespace: Option<string>, name: string)

  // Grants

  datatype GrantFrom = GrantFrom(group: string, kind: string, namespace: string)

  datatype GrantTo = GrantTo(group: string, kind: string, name: Option<string>)

  datatype GrantSpec = GrantSpec(from: seq<GrantFrom>, to: seq<GrantTo>)

  // Envoy Gateway

  datatype PolicyTargetRef = PolicyTargetRef(group: string, kind: string, name: string, sectionName: Option<string>)

  datatype SelectorRequirement = SelectorRequirement(key: string, operator: string, values: seq<string>)

  datatype LabelSelector = LabelSelector(
    matchLabels: map<string, string>, matchExpressions: seq<SelectorRequirement>)

  /** `namespacesFrom` is the From of the selector's namespaces, absent when the selector sets no namespaces. */
  datatype TargetSelector = TargetSelector(
    group: Option<string>, kind: string, labels: LabelSelector, namespacesFrom: Option<string>)

  datatype HealthCheck = HealthCheck(hasActive: bool, hasPassive: bool)

  datatype PolicySpec = PolicySpec(
    targetRef: Option<PolicyTargetRef>, targetRefs: seq<PolicyTargetRef>, targetSelectors: seq<TargetSelector>,
    healthCheck: Option<HealthCheck>)

  datatype Endpoint =
    | FQDN(hostname: string, port: int)
    | IP(address: string, port: int)
    | Unix(path: string)
    | Unrecognized

  datatype BackendSpec = BackendSpec(backendType: Option<string>, endpoints: seq<Endpoint>)

  /** A decoded object. An object of a kind nobody registered is Unstructured, with the text at spec.secretName if
      there is one. There is one constructor per Go type and served version the checks tell apart. */
  datatype Object =
    | GatewayV1(meta: Meta, listeners: seq<ListenerSpec>)
    | GatewayV1Beta1(meta: Meta, listeners: seq<ListenerSpec>)
    | ListenerSetV1(meta: Meta, setParent: SetParent, listeners: seq<ListenerSpec>)
    | HTTPRouteV1(meta: Meta, parentRefs: seq<ParentReference>, hostnames: seq<string>, httpRules: seq<HTTPRule>)
    | HTTPRouteV1Beta1(meta: Meta, parentRefs: seq<ParentReference>, hostnames: seq<string>, httpRules: seq<HTTPRule>)
    | GRPCRouteV1(meta: Meta, parentRefs: seq<ParentReference>, hostnames: seq<string>, grpcRules: seq<GRPCRule>)
    | GRPCRouteV1Alpha2(meta: Meta, parentRefs: seq<ParentReference>, hostnames: seq<string>, grpcRules: seq<GRPCRule>)
    | TCPRouteV1(meta: Meta, parentRefs: seq<ParentReference>, streamRules: seq<StreamRule>)
    | TCPRouteV1Alpha2(meta: Meta, parentRefs: seq<ParentReference>, streamRules: seq<StreamRule>)
    | TLSRouteV1(meta: Meta, parentRefs: seq<ParentReference>, hostnames: seq<string>, streamRules: seq<StreamRule>)
    | TLSRouteV1Alpha3(meta: Meta, parentRefs: seq<ParentReference>, hostnames: seq<string>,
        streamRules: seq<StreamRule>)
    | TLSRouteV1Alpha2(meta: Meta, parentRefs: seq<ParentReference>, hostnames: seq<string>,
        streamRules: seq<StreamRule>)
    | UDPRouteV1(meta: Meta, parentRefs: seq<ParentReference>, streamRules: seq<StreamRule>)
    | UDPRouteV1Alpha2(meta: Meta, parentRefs: seq<ParentReference>, streamRules: seq<StreamRule>)
    | ReferenceGrantV1(meta: Meta, grant: GrantSpec)
    | ReferenceGrantV1Beta1(meta: Meta, grant: GrantSpec)
    | ReferenceGrantV1Alpha2(meta: Meta, grant: GrantSpec)
    | BackendTrafficPolicy(meta: Meta, policy: PolicySpec)
    | Backend(meta: Meta, backend: BackendSpec)
    | Secret(meta: Meta)
    | Unstructured(meta: Meta, group: string, kind: string, secretName: Option<string>)
    | OtherObject(meta: Meta)

  /** A manifest set, in the order it was loaded. A policy is known by its position, as Go knows it by address. */
  type Context = seq<Object>
}
