/** The ingress definition the load balancer keeps: a record of top-level
    settings and an ordered list of routing rules. Definitions arrive as JSON
    objects, so every property is either missing, present with `null`, or
    present with a value; the three are kept apart because the object spread
    used to update a rule copies a `null` but not a missing property. */
module Ingress {

  /** One own property of a JSON object. */
  datatype Field<+T> = Absent | Null | Value(value: T)

  /** JavaScript truthiness of a string property: present, not null and not empty. */
  predicate Truthy(f: Field<string>) {
    f.Value? && f.value != ""
  }

  /** One routing rule. `hostname` is spelled the way the server reads it. */
  datatype Rule = Rule(
    id: Field<string>,
    tenant: Field<string>,
    hostname: Field<string>,
    tlsDomain: Field<string>,
    path: Field<string>,
    pathRewrite: Field<string>,
    serviceName: Field<string>,
    servicePort: Field<int>)

  /** The value a property takes in `{...old, ...incoming}`. */
  predicate Spread<T(==)>(prev: Field<T>, incoming: Field<T>, r: Field<T>) {
    if incoming.Absent? then r == prev else r == incoming
  }

  /** `{...old, ...incoming}`: every property present in `incoming` (even
      with `null`) wins, every property it lacks is kept from `old`. */
  function Overlay(prev: Rule, incoming: Rule): (r: Rule)
    ensures Spread(prev.id, incoming.id, r.id)
    ensures Spread(prev.tenant, incoming.tenant, r.tenant)
    ensures Spread(prev.hostname, incoming.hostname, r.hostname)
    ensures Spread(prev.tlsDomain, incoming.tlsDomain, r.tlsDomain)
    ensures Spread(prev.path, incoming.path, r.path)
    ensures Spread(prev.pathRewrite, incoming.pathRewrite, r.pathRewrite)
    ensures Spread(prev.serviceName, incoming.serviceName, r.serviceName)
    ensures Spread(prev.servicePort, incoming.servicePort, r.servicePort)
  {
    Rule(
      Pick(prev.id, incoming.id),
      Pick(prev.tenant, incoming.tenant),
      Pick(prev.hostname, incoming.hostname),
      Pick(prev.tlsDomain, incoming.tlsDomain),
      Pick(prev.path, incoming.path),
      Pick(prev.pathRewrite, incoming.pathRewrite),
      Pick(prev.serviceName, incoming.serviceName),
      Pick(prev.servicePort, incoming.servicePort))
  }

  function Pick<T>(prev: Field<T>, incoming: Field<T>): Field<T> {
    if incoming.Absent? then prev else incoming
  }

  /** The top-level ingress definition. */
  datatype Definition = Definition(
    tlsEmail: Field<string>,
    defaultTenantPattern: Field<string>,
    wildcardDomains: Field<seq<string>>,
    rules: Field<seq<Rule>>)

  /** The top-level property names of a definition. */
  datatype Key = TlsEmailKey | DefaultTenantPatternKey | WildcardDomainsKey | RulesKey

  /** An incoming definition: its properties and the order in which
      `Object.keys` enumerates them. A listed key whose field is `Absent`
      stands for a property present with the value `undefined`. */
  datatype Patch = Patch(keys: seq<Key>, body: Definition)

  /** `a` and `b` agree on the property named `k`. */
  predicate SameAt(a: Definition, b: Definition, k: Key) {
    && (k == TlsEmailKey ==> a.tlsEmail == b.tlsEmail)
    && (k == DefaultTenantPatternKey ==> a.defaultTenantPattern == b.defaultTenantPattern)
    && (k == WildcardDomainsKey ==> a.wildcardDomains == b.wildcardDomains)
    && (k == RulesKey ==> a.rules == b.rules)
  }

  /** `target[k] = source[k]`, copying the property verbatim. */
  function CopyKey(target: Definition, source: Definition, k: Key): (r: Definition)
    ensures SameAt(r, source, k)
    ensures forall k' :: k' != k ==> SameAt(r, target, k')
  {
    match k
    case TlsEmailKey => target.(tlsEmail := source.tlsEmail)
    case DefaultTenantPatternKey => target.(defaultTenantPattern := source.defaultTenantPattern)
    case WildcardDomainsKey => target.(wildcardDomains := source.wildcardDomains)
    case RulesKey => target.(rules := source.rules)
  }

  // ---------------------------------------------------------------------
  // Rule lists keyed by id
  // ---------------------------------------------------------------------

  predicate HasId(list: seq<Rule>, id: Field<string>) {
    exists i :: 0 <= i < |list| && list[i].id == id
  }

  predicate DistinctIds(list: seq<Rule>) {
    forall i, j :: 0 <= i < j < |list| ==> list[i].id != list[j].id
  }

  /** The spread is idempotent: spreading the same incoming rule again
      changes nothing. */
  lemma OverlayIdempotent(prev: Rule, incoming: Rule)
    ensures Overlay(Overlay(prev, incoming), incoming) == Overlay(prev, incoming)
    ensures Overlay(incoming, incoming) == incoming
  {
  }
}
