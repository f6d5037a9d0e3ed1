/** The HAProxy configuration text built by `Template.transform` for one
    cluster: a frontend block (bind line, tenant header rules, routing rules)
    followed by one backend block per service. */
module Template {
  import opened Common
  import ProxyManager

  /** A tenant served under its own domain. */
  datatype Tenant = Tenant(domain: string, name: string)

  /** A backend service. An empty `path` stands for a missing one, which
      JavaScript treats the same way (both are falsy). A port of `None` or
      `Some(0)` is falsy too. */
  datatype Service = Service(name: string, path: string, port: Option<nat>)

  /** The definition the template reads. A `None` tenant is skipped. */
  datatype ClusterDefinition = ClusterDefinition(
    clusterName: string,
    email: Option<string>,
    tenants: seq<Option<Tenant>>,
    services: seq<Service>)

  // ---------------------------------------------------------------------
  // Frontend: tenants
  // ---------------------------------------------------------------------

  function NonNull(tenants: seq<Option<Tenant>>): (r: seq<Tenant>)
    ensures |r| <= |tenants|
    ensures forall t :: t in r <==> Some(t) in tenants
  {
    if tenants == [] then []
    else
      var rest := NonNull(tenants[1..]);
      assert forall x :: x in tenants <==> x == tenants[0] || x in tenants[1..];
      match tenants[0]
      case None => rest
      case Some(t) => [t] + rest
  }

  /** `domain.replace(/\./g, '')`. */
  function RemoveDots(s: string): (r: string)
    ensures '.' !in r
    ensures forall c :: c != '.' ==> (c in r <==> c in s)
    ensures |r| <= |s|
  {
    if s == [] then []
    else
      var rest := RemoveDots(s[1..]);
      assert forall c :: c in s <==> c == s[0] || c in s[1..];
      if s[0] == '.' then rest else [s[0]] + rest
  }

  /** Only dots are removed, and the order of the other characters is kept. */
  lemma {:induction false} RemoveDotsAppend(a: string, b: string)
    ensures RemoveDots(a + b) == RemoveDots(a) + RemoveDots(b)
  {
    if a == [] {
      assert a + b == b;
    } else {
      assert (a + b)[0] == a[0];
      assert (a + b)[1..] == a[1..] + b;
      RemoveDotsAppend(a[1..], b);
    }
  }

  /** A name without dots is left as it is. */
  lemma {:induction false} RemoveDotsOfDotFree(s: string)
    requires '.' !in s
    ensures RemoveDots(s) == s
  {
    if s != [] {
      assert forall c :: c in s[1..] ==> c in s;
      RemoveDotsOfDotFree(s[1..]);
    }
  }

  /** The ACL label of a tenant. */
  function AclLabel(domain: string): string {
    "host_" + RemoveDots(domain)
  }

  /** The `crt` entry naming the certificate of one tenant domain. */
  function CrtEntry(domain: string): string {
    " crt " + ProxyManager.CertificatesFolder + "/" + domain + "/haproxy.pem"
  }

  /** One `crt` entry per tenant, in tenant order. */
  function CrtList(tenants: seq<Option<Tenant>>): string {
    if tenants == [] then ""
    else
      var rest := CrtList(tenants[1..]);
      match tenants[0]
      case None => rest
      case Some(t) => CrtEntry(t.domain) + rest
  }

  /** HAProxy's `http-request set-header` and `add-header` directives. */
  function SetHeader(header: string, value: string): string {
    "  http-request set-header " + header + " " + value
  }

  function AddHeader(header: string, value: string): string {
    "  http-request add-header " + header + " " + value
  }

  /** The two frontend lines of a tenant in normal mode. */
  function HostRules(t: Tenant): seq<string> {
    var acl := AclLabel(t.domain);
    ["  acl " + acl + " hdr(host) -i " + t.domain,
     SetHeader("X-VULCAIN-TENANT", t.name + " if " + acl)]
  }

  /** The three frontend lines of a tenant in test mode, matched on the
      `$tenant` query parameter. */
  function TestRules(t: Tenant): seq<string> {
    var acl := AclLabel(t.domain);
    ["  acl " + acl + " url_param($tenant) -i " + t.domain,
     "  acl " + acl + " url_param($tenant) -i " + t.name,
     SetHeader("X-VULCAIN-TENANT", t.name + " if " + acl)]
  }

  function Rules(t: Tenant, testMode: bool): seq<string> {
    if testMode then TestRules(t) else HostRules(t)
  }

  function TenantLines(tenants: seq<Option<Tenant>>, testMode: bool): (r: seq<string>)
    ensures |r| == (if testMode then 3 else 2) * |NonNull(tenants)|
  {
    if tenants == [] then []
    else
      var rest := TenantLines(tenants[1..], testMode);
      match tenants[0]
      case None => rest
      case Some(t) => Rules(t, testMode) + rest
  }

  /** Tenants are handled in order, each on its own: the lines for two runs
      of tenants are the lines for each, one after the other. */
  lemma {:induction false} TenantLinesAppend(a: seq<Option<Tenant>>, b: seq<Option<Tenant>>, testMode: bool)
    ensures TenantLines(a + b, testMode) == TenantLines(a, testMode) + TenantLines(b, testMode)
  {
    if a == [] {
      assert a + b == b;
    } else {
      assert (a + b)[0] == a[0];
      assert (a + b)[1..] == a[1..] + b;
      TenantLinesAppend(a[1..], b, testMode);
      match a[0]
      case None =>
      case Some(t) =>
        var x, y, z := Rules(t, testMode), TenantLines(a[1..], testMode), TenantLines(b, testMode);
        assert x + (y + z) == (x + y) + z;
    }
  }

  /** The certificate list of two runs of tenants is the list of each. */
  lemma {:induction false} CrtListAppend(a: seq<Option<Tenant>>, b: seq<Option<Tenant>>)
    ensures CrtList(a + b) == CrtList(a) + CrtList(b)
  {
    if a == [] {
      assert a + b == b;
    } else {
      assert (a + b)[0] == a[0];
      assert (a + b)[1..] == a[1..] + b;
      CrtListAppend(a[1..], b);
      match a[0]
      case None =>
      case Some(t) =>
        var x, y, z := CrtEntry(t.domain), CrtList(a[1..]), CrtList(b);
        assert x + (y + z) == (x + y) + z;
    }
  }

  /** `emitFront` / `emitTestFront`: the bind line (port 443 with one
      certificate per tenant, or plain port 80 in test mode), `mode http`,
      then the tenant rules. */
  function FrontHeader(def: ClusterDefinition, testMode: bool): (r: seq<string>)
    ensures |r| == 2 + |TenantLines(def.tenants, testMode)|
    ensures r[0] == (if testMode then "  bind *:80" else "  bind *:443 ssl " + CrtList(def.tenants))
    ensures r[1] == "  mode http"
    ensures r[2..] == TenantLines(def.tenants, testMode)
  {
    if testMode then
      ["  bind *:80", "  mode http"] + TenantLines(def.tenants, true)
    else
      ["  bind *:443 ssl " + CrtList(def.tenants), "  mode http"] + TenantLines(def.tenants, false)
  }

  // ---------------------------------------------------------------------
  // Services
  // ---------------------------------------------------------------------

  function BackendName(clusterName: string, s: Service): string {
    "backend_" + clusterName + "_" + s.name
  }

  /** The public path with one leading `/` removed, if there is one. */
  function PublicPath(path: string): (r: string)
    ensures StartsWith(path, "/") ==> "/" + r == path
    ensures !StartsWith(path, "/") ==> r == path
  {
    if |path| > 0 && path[0] == '/' then path[1..] else path
  }

  /** The frontend lines of a service: a path ACL and a conditional
      `use_backend` when a path is given, an unconditional one otherwise. */
  function RouteLines(clusterName: string, s: Service): (r: seq<string>)
    ensures |r| == (if s.path != "" then 2 else 1)
    ensures s.path != "" ==>
      var acl := BackendName(clusterName, s) + "_public_acl";
      r[0] == PathAcl(acl, PublicPath(s.path)) && r[1] == UseBackend(BackendName(clusterName, s)) + " if " + acl
    ensures s.path == "" ==> r[0] == UseBackend(BackendName(clusterName, s))
  {
    var backend := BackendName(clusterName, s);
    if s.path != "" then
      var p := PublicPath(s.path);
      var acl := backend + "_public_acl";
      [PathAcl(acl, p), UseBackend(backend) + " if " + acl]
    else
      [UseBackend(backend)]
  }

  /** An ACL matching the public path exactly or followed by `?`, `#` or `/`. */
  function PathAcl(acl: string, p: string): string {
    "  acl " + acl + " path_reg ^/" + p + "[?\\#/]|^/" + p + "$"
  }

  function UseBackend(backend: string): string {
    "  use_backend " + backend
  }

  /** `service.port || "8080"`, as text. */
  function PortText(port: Option<nat>): string {
    if port.Some? && port.value != 0 then NatToString(port.value) else "8080"
  }

  /** The port written on the server line reads back as the service's port,
      or 8080 when it has none. */
  lemma PortRoundTrip(port: Option<nat>)
    ensures ParseNat(PortText(port)) == (if port.Some? && port.value != 0 then port.value else 8080)
  {
    if port.Some? && port.value != 0 {
      ParseNatToString(port.value);
    } else {
      assert "8080"[..3] == "808" && "808"[..2] == "80" && "80"[..1] == "8" && "8"[..0] == "";
    }
  }

  /** The fixed opening of a backend block, led by the blank separator line. */
  function BackendHead(backend: string): seq<string> {
    ["", "backend " + backend,
     "  option forwardfor",
     SetHeader("X-Forwarded-Port", "%[dst_port]"),
     AddHeader("X-Forwarded-Proto", "https if { ssl_fc }"),
     "  mode http"]
  }

  /** The rewrite of the public path onto `/api`, when there is a path left. */
  function RewriteLines(p: string): seq<string> {
    if p != "" then [RewriteLine(p)] else []
  }

  /** `reqrep`: a request for `/<p><sep><rest>` is passed on as `/api<sep><rest>`. */
  function RewriteLine(p: string): string {
    "  reqrep ^([^\\ :]*)\\ /(" + p + ")([?\\#/]+)(.*)   \\1\\ /api\\3\\4"
  }

  function ServerLine(clusterName: string, s: Service): string {
    "  server " + clusterName + "_" + s.name + " " + s.name + ":" + PortText(s.port)
  }

  /** `emitBackends`' backend block: the fixed opening, the rewrite line
      exactly when a path is left after stripping its leading `/`, and the
      server line last. */
  function BackendBlock(clusterName: string, s: Service): (r: seq<string>)
    ensures |r| == (if PublicPath(s.path) != "" then 8 else 7)
    ensures r[..6] == BackendHead(BackendName(clusterName, s))
    ensures PublicPath(s.path) != "" ==> r[6] == RewriteLine(PublicPath(s.path))
    ensures r[|r| - 1] == ServerLine(clusterName, s)
  {
    BackendHead(BackendName(clusterName, s)) + RewriteLines(PublicPath(s.path)) + [ServerLine(clusterName, s)]
  }

  function AllRoutes(clusterName: string, services: seq<Service>): seq<string> {
    if services == [] then [] else RouteLines(clusterName, services[0]) + AllRoutes(clusterName, services[1..])
  }

  function AllBackends(clusterName: string, services: seq<Service>): seq<string> {
    if services == [] then [] else BackendBlock(clusterName, services[0]) + AllBackends(clusterName, services[1..])
  }

  // ---------------------------------------------------------------------
  // The whole text
  // ---------------------------------------------------------------------

  function FrontendLines(def: ClusterDefinition, testMode: bool): seq<string> {
    ["frontend " + def.clusterName] + FrontHeader(def, testMode) + AllRoutes(def.clusterName, def.services)
  }

  /** `transform()`'s `newConfig`: the frontend lines joined by newlines,
      directly followed by the backend lines (a leading empty one, then the
      blocks) joined by newlines. The text always begins with the frontend
      line, so it is never empty. */
  function Transform(def: ClusterDefinition, testMode: bool): (text: string)
    ensures |text| > 0
    ensures StartsWith(text, "frontend " + def.clusterName)
  {
    var front := FrontendLines(def, testMode);
    var text := Join(front, "\n") + Join([""] + AllBackends(def.clusterName, def.services), "\n");
    assert StartsWith(Join(front, "\n"), front[0]);
    assert text[..|Join(front, "\n")|] == Join(front, "\n");
    text
  }

  /** The text is the frontend lines followed by the backend blocks, one
      line per line: the leading empty backend line becomes the newline
      that separates the two halves. */
  lemma TransformIsLines(def: ClusterDefinition, testMode: bool)
    ensures Transform(def, testMode) == Join(FrontendLines(def, testMode) + AllBackends(def.clusterName, def.services), "\n")
  {
    var front := FrontendLines(def, testMode);
    var back := AllBackends(def.clusterName, def.services);
    if back == [] {
      assert front + back == front;
    } else {
      assert ([""] + back)[1..] == back;
      JoinAppend(front, back, "\n");
    }
  }

  // ---------------------------------------------------------------------
  // Reading the text back
  // ---------------------------------------------------------------------

  predicate NoNewline(s: string) {
    '\n' !in s
  }

  /** No input string carries a line break. */
  ghost predicate SingleLineInputs(def: ClusterDefinition) {
    && NoNewline(def.clusterName)
    && (forall t :: Some(t) in def.tenants ==> NoNewline(t.domain) && NoNewline(t.name))
    && (forall s :: s in def.services ==> NoNewline(s.name) && NoNewline(s.path))
  }

  predicate AllSingleLine(lines: seq<string>) {
    forall l :: l in lines ==> NoNewline(l)
  }

  lemma HeaderSingleLine(header: string, value: string)
    requires NoNewline(header) && NoNewline(value)
    ensures NoNewline(SetHeader(header, value)) && NoNewline(AddHeader(header, value))
  {
    assert NoNewline("  http-request set-header ");
    assert NoNewline("  http-request add-header ");
  }

  lemma AclLabelSingleLine(domain: string)
    requires NoNewline(domain)
    ensures NoNewline(AclLabel(domain))
  {
    assert NoNewline("host_");
  }

  lemma RulesSingleLine(t: Tenant, testMode: bool)
    requires NoNewline(t.domain) && NoNewline(t.name)
    ensures AllSingleLine(Rules(t, testMode))
  {
    var acl := AclLabel(t.domain);
    AclLabelSingleLine(t.domain);
    assert NoNewline(" if ");
    HeaderSingleLine("X-VULCAIN-TENANT", t.name + " if " + acl);
    if testMode {
      assert NoNewline(" url_param($tenant) -i ");
    } else {
      assert NoNewline(" hdr(host) -i ");
    }
  }

  lemma CrtEntrySingleLine(domain: string)
    requires NoNewline(domain)
    ensures NoNewline(CrtEntry(domain))
  {
    assert NoNewline(ProxyManager.CertificatesFolder);
    assert NoNewline("/haproxy.pem");
  }

  lemma {:induction false} TenantLinesSingleLine(tenants: seq<Option<Tenant>>, testMode: bool)
    requires forall t :: Some(t) in tenants ==> NoNewline(t.domain) && NoNewline(t.name)
    ensures AllSingleLine(TenantLines(tenants, testMode))
    ensures NoNewline(CrtList(tenants))
  {
    if tenants != [] {
      assert forall x :: x in tenants[1..] ==> x in tenants;
      TenantLinesSingleLine(tenants[1..], testMode);
      var rest := TenantLines(tenants[1..], testMode);
      match tenants[0]
      case None =>
      case Some(t) =>
        assert tenants[0] in tenants;
        RulesSingleLine(t, testMode);
        var rules := Rules(t, testMode);
        assert TenantLines(tenants, testMode) == rules + rest;
        assert forall l :: l in rules + rest ==> l in rules || l in rest;
        CrtEntrySingleLine(t.domain);
    }
  }

  lemma PortTextSingleLine(port: Option<nat>)
    ensures NoNewline(PortText(port))
  {
    if port.Some? && port.value != 0 {
      var d := NatToString(port.value);
      assert forall i :: 0 <= i < |d| ==> d[i] != '\n';
    }
  }

  lemma RouteLinesSingleLine(clusterName: string, s: Service)
    requires NoNewline(clusterName) && NoNewline(s.name) && NoNewline(s.path)
    ensures AllSingleLine(RouteLines(clusterName, s))
  {
    var backend := BackendName(clusterName, s);
    var p := PublicPath(s.path);
    assert NoNewline(backend) by {
      assert NoNewline("backend_");
      assert NoNewline("_");
    }
    assert NoNewline(p);
    var acl := backend + "_public_acl";
    assert NoNewline(acl);
    assert NoNewline(PathAcl(acl, p));
    assert NoNewline(UseBackend(backend));
    assert NoNewline(UseBackend(backend) + " if " + acl);
  }

  lemma ForwardingSingleLine()
    ensures NoNewline(SetHeader("X-Forwarded-Port", "%[dst_port]"))
    ensures NoNewline(AddHeader("X-Forwarded-Proto", "https if { ssl_fc }"))
  {
    HeaderSingleLine("X-Forwarded-Port", "%[dst_port]");
    HeaderSingleLine("X-Forwarded-Proto", "https if { ssl_fc }");
  }

  lemma BackendHeadSingleLine(backend: string)
    requires NoNewline(backend)
    ensures AllSingleLine(BackendHead(backend))
  {
    ForwardingSingleLine();
    assert NoNewline("backend " + backend);
    assert NoNewline("  option forwardfor");
    assert NoNewline("  mode http");
  }

  lemma RewriteSingleLine(p: string)
    requires NoNewline(p)
    ensures AllSingleLine(RewriteLines(p))
  {
    if p != "" {
      assert NoNewline(RewriteLine(p));
    }
  }

  lemma ServerLineSingleLine(clusterName: string, s: Service)
    requires NoNewline(clusterName) && NoNewline(s.name)
    ensures NoNewline(ServerLine(clusterName, s))
  {
    PortTextSingleLine(s.port);
  }

  lemma BackendBlockSingleLine(clusterName: string, s: Service)
    requires NoNewline(clusterName) && NoNewline(s.name) && NoNewline(s.path)
    ensures AllSingleLine(BackendBlock(clusterName, s))
  {
    var backend := BackendName(clusterName, s);
    assert NoNewline(backend) by {
      assert NoNewline("backend_");
      assert NoNewline("_");
    }
    BackendHeadSingleLine(backend);
    RewriteSingleLine(PublicPath(s.path));
    ServerLineSingleLine(clusterName, s);
    var x, y, z := BackendHead(backend), RewriteLines(PublicPath(s.path)), [ServerLine(clusterName, s)];
    assert forall l :: l in x + y + z ==> l in x || l in y || l in z;
  }

  lemma {:induction false} ServiceLinesSingleLine(clusterName: string, services: seq<Service>)
    requires NoNewline(clusterName)
    requires forall s :: s in services ==> NoNewline(s.name) && NoNewline(s.path)
    ensures AllSingleLine(AllRoutes(clusterName, services))
    ensures AllSingleLine(AllBackends(clusterName, services))
  {
    if services != [] {
      assert services[0] in services;
      assert forall x :: x in services[1..] ==> x in services;
      RouteLinesSingleLine(clusterName, services[0]);
      BackendBlockSingleLine(clusterName, services[0]);
      ServiceLinesSingleLine(clusterName, services[1..]);
    }
  }

  lemma FrontHeaderSingleLine(def: ClusterDefinition, testMode: bool)
    requires SingleLineInputs(def)
    ensures AllSingleLine(FrontHeader(def, testMode))
  {
    TenantLinesSingleLine(def.tenants, testMode);
    var tenants := TenantLines(def.tenants, testMode);
    var first := if testMode then ["  bind *:80", "  mode http"] else ["  bind *:443 ssl " + CrtList(def.tenants), "  mode http"];
    assert AllSingleLine(first) by {
      assert NoNewline("  bind *:443 ssl ");
    }
    assert FrontHeader(def, testMode) == first + tenants;
    assert forall l :: l in first + tenants ==> l in first || l in tenants;
  }

  lemma FrontendSingleLine(def: ClusterDefinition, testMode: bool)
    requires SingleLineInputs(def)
    ensures AllSingleLine(FrontendLines(def, testMode))
  {
    FrontHeaderSingleLine(def, testMode);
    ServiceLinesSingleLine(def.clusterName, def.services);
    var header := FrontHeader(def, testMode);
    var routes := AllRoutes(def.clusterName, def.services);
    assert NoNewline("frontend " + def.clusterName);
    assert forall l :: l in ["frontend " + def.clusterName] + header + routes ==>
      l == "frontend " + def.clusterName || l in header || l in routes;
  }

  /** Splitting the configuration text at its newlines gives back exactly
      the lines the template emitted, in order. */
  lemma LinesRoundTrip(def: ClusterDefinition, testMode: bool)
    requires SingleLineInputs(def)
    ensures Split(Transform(def, testMode), '\n') == FrontendLines(def, testMode) + AllBackends(def.clusterName, def.services)
  {
    TransformIsLines(def, testMode);
    FrontendSingleLine(def, testMode);
    ServiceLinesSingleLine(def.clusterName, def.services);
    var front, back := FrontendLines(def, testMode), AllBackends(def.clusterName, def.services);
    var lines := front + back;
    assert forall i :: 0 <= i < |lines| ==> lines[i] in front || lines[i] in back;
    SplitJoin(lines, '\n');
  }

  // ---------------------------------------------------------------------
  // Structure of the blocks
  // ---------------------------------------------------------------------

  /** What follows `prefix` on each line that starts with it, in order. */
  function Tagged(lines: seq<string>, prefix: string): seq<string> {
    if lines == [] then []
    else if StartsWith(lines[0], prefix) then [lines[0][|prefix|..]] + Tagged(lines[1..], prefix)
    else Tagged(lines[1..], prefix)
  }

  lemma {:induction false} TaggedAppend(a: seq<string>, b: seq<string>, prefix: string)
    ensures Tagged(a + b, prefix) == Tagged(a, prefix) + Tagged(b, prefix)
  {
    if a == [] {
      assert a + b == b;
    } else {
      assert (a + b)[0] == a[0];
      assert (a + b)[1..] == a[1..] + b;
      TaggedAppend(a[1..], b, prefix);
    }
  }

  predicate Indented(line: string) {
    |line| > 0 && line[0] == ' '
  }

  /** An indented line never opens a backend block. */
  lemma IndentedIsNotHeader(line: string)
    requires Indented(line)
    ensures !StartsWith(line, "backend ")
  {
    if |line| >= 8 {
      assert line[..8][0] == ' ';
    }
  }

  lemma {:induction false} NoHeaders(lines: seq<string>)
    requires forall l :: l in lines ==> Indented(l)
    ensures Tagged(lines, "backend ") == []
  {
    if lines != [] {
      assert lines[0] in lines;
      IndentedIsNotHeader(lines[0]);
      assert forall l :: l in lines[1..] ==> l in lines;
      NoHeaders(lines[1..]);
    }
  }

  /** Every line of a backend block after its header is indented. */
  lemma BlockBodyIndented(clusterName: string, s: Service)
    ensures |BackendBlock(clusterName, s)| >= 3
    ensures forall l :: l in BackendBlock(clusterName, s)[2..] ==> Indented(l)
  {
    var p := PublicPath(s.path);
    var tail := ["  option forwardfor",
                 SetHeader("X-Forwarded-Port", "%[dst_port]"),
                 AddHeader("X-Forwarded-Proto", "https if { ssl_fc }"),
                 "  mode http"];
    var body := tail + RewriteLines(p) + [ServerLine(clusterName, s)];
    assert BackendBlock(clusterName, s)[2..] == body;
    assert forall l :: l in tail ==> Indented(l);
    assert forall l :: l in RewriteLines(p) ==> Indented(l);
    assert Indented(ServerLine(clusterName, s));
    assert forall l :: l in body ==> l in tail || l in RewriteLines(p) || l == ServerLine(clusterName, s);
  }

  /** A backend block has exactly one header, naming its backend. */
  lemma BlockHasOneHeader(clusterName: string, s: Service)
    ensures Tagged(BackendBlock(clusterName, s), "backend ") == [BackendName(clusterName, s)]
  {
    var block := BackendBlock(clusterName, s);
    var backend := BackendName(clusterName, s);
    BlockBodyIndented(clusterName, s);
    NoHeaders(block[2..]);
    assert block[0] == "" && block[1] == "backend " + backend;
    assert block[1..][1..] == block[2..];
    assert block[1][8..] == backend;
  }

  /** One backend block per service, in service order and without merging
      repeated services: the block headers name exactly the services. */
  lemma {:induction false} OneBackendPerService(clusterName: string, services: seq<Service>)
    ensures Tagged(AllBackends(clusterName, services), "backend ")
            == seq(|services|, i requires 0 <= i < |services| => BackendName(clusterName, services[i]))
  {
    if services != [] {
      BlockHasOneHeader(clusterName, services[0]);
      TaggedAppend(BackendBlock(clusterName, services[0]), AllBackends(clusterName, services[1..]), "backend ");
      OneBackendPerService(clusterName, services[1..]);
    }
  }

  /** The backend a route line sends requests to, or `None` for a line that
      is not a `use_backend` rule. */
  function RouteTarget(line: string): Option<string> {
    if StartsWith(line, "  use_backend ") then
      var rest := line[14..];
      match Find(rest, ' ')
      case None => Some(rest)
      case Some(i) => Some(rest[..i])
    else None
  }

  /** The targets of the `use_backend` lines, in order. */
  function Targets(lines: seq<string>): seq<string> {
    if lines == [] then []
    else match RouteTarget(lines[0])
      case None => Targets(lines[1..])
      case Some(b) => [b] + Targets(lines[1..])
  }

  lemma {:induction false} TargetsAppend(a: seq<string>, b: seq<string>)
    ensures Targets(a + b) == Targets(a) + Targets(b)
  {
    if a == [] {
      assert a + b == b;
    } else {
      assert (a + b)[0] == a[0];
      assert (a + b)[1..] == a[1..] + b;
      TargetsAppend(a[1..], b);
    }
  }

  lemma UseBackendTarget(backend: string)
    requires ' ' !in backend
    ensures RouteTarget(UseBackend(backend)) == Some(backend)
  {
    var line := UseBackend(backend);
    assert line[..14] == "  use_backend ";
    assert line[14..] == backend;
  }

  lemma ConditionalUseBackendTarget(backend: string, acl: string)
    requires ' ' !in backend
    ensures RouteTarget(UseBackend(backend) + " if " + acl) == Some(backend)
  {
    var line := UseBackend(backend) + " if " + acl;
    assert line[..14] == "  use_backend ";
    var rest := line[14..];
    assert rest[|backend|] == ' ';
    assert rest[..|backend|] == backend;
    FindIsFirst(rest, ' ', |backend|);
  }

  lemma AclIsNotRoute(acl: string, p: string)
    ensures RouteTarget(PathAcl(acl, p)) == None
  {
    var line := PathAcl(acl, p);
    if |line| >= 14 {
      assert line[..14][2] == 'a';
    }
  }

  /** The route of one service sends to its own backend, once. */
  lemma RouteHasOneTarget(clusterName: string, s: Service)
    requires ' ' !in clusterName && ' ' !in s.name
    ensures Targets(RouteLines(clusterName, s)) == [BackendName(clusterName, s)]
  {
    var backend := BackendName(clusterName, s);
    assert ' ' !in backend;
    var lines := RouteLines(clusterName, s);
    if s.path != "" {
      var acl := backend + "_public_acl";
      AclIsNotRoute(acl, PublicPath(s.path));
      ConditionalUseBackendTarget(backend, acl);
      assert lines[1..] == [lines[1]];
      assert [lines[1]][1..] == [];
      assert Targets([lines[1]]) == [backend];
    } else {
      UseBackendTarget(backend);
    }
  }

  /** Every service gets exactly one `use_backend` rule, for its own
      backend, in service order. */
  lemma {:induction false} OneRoutePerService(clusterName: string, services: seq<Service>)
    requires ' ' !in clusterName
    requires forall s :: s in services ==> ' ' !in s.name
    ensures Targets(AllRoutes(clusterName, services))
            == seq(|services|, i requires 0 <= i < |services| => BackendName(clusterName, services[i]))
  {
    if services != [] {
      assert services[0] in services;
      assert forall x :: x in services[1..] ==> x in services;
      RouteHasOneTarget(clusterName, services[0]);
      TargetsAppend(RouteLines(clusterName, services[0]), AllRoutes(clusterName, services[1..]));
      OneRoutePerService(clusterName, services[1..]);
    }
  }

  /** A path of `/` alone still gets the path ACL but no rewrite line. */
  lemma RootPathRoutesWithoutRewrite(clusterName: string, s: Service)
    requires s.path == "/"
    ensures RouteLines(clusterName, s)[0] == PathAcl(BackendName(clusterName, s) + "_public_acl", "")
    ensures RewriteLines(PublicPath(s.path)) == []
    ensures BackendBlock(clusterName, s)[6] == ServerLine(clusterName, s)
  {
    assert StartsWith(s.path, "/");
  }

  // ---------------------------------------------------------------------
  // Certificates requested by the normal-mode frontend
  // ---------------------------------------------------------------------

  /** The domains of the tenants that are present. */
  function Domains(tenants: seq<Option<Tenant>>): set<string> {
    if tenants == [] then {}
    else (if tenants[0].Some? then {tenants[0].value.domain} else {}) + Domains(tenants[1..])
  }

  /** The domains a sequence of issuances is for. */
  function RequestedDomains(r: seq<ProxyManager.Issuance>): set<string> {
    if r == [] then {} else {r[0].domain} + RequestedDomains(r[1..])
  }

  /** `emitFront` awaits `createCertificate` for each tenant in turn, so a
      certificate folder created for one tenant is seen by the next. The
      issuances started are exactly those for the tenant domains without a
      folder, one per domain, each with the cluster's address or the
      fallback one. */
  function CertificateRequests(tenants: seq<Option<Tenant>>, email: Option<string>, existing: set<string>)
    : (r: seq<ProxyManager.Issuance>)
    ensures RequestedDomains(r) == Domains(tenants) - existing
    ensures forall i, j :: 0 <= i < j < |r| ==> r[i].domain != r[j].domain
    ensures forall i :: 0 <= i < |r| ==> r[i].email == ProxyManager.EmailOrFallback(email)
  {
    if tenants == [] then []
    else
      match tenants[0]
      case None => CertificateRequests(tenants[1..], email, existing)
      case Some(t) =>
        match ProxyManager.CreateCertificate(t.domain, email, existing)
        case None => CertificateRequests(tenants[1..], email, existing)
        case Some(issuance) =>
          var rest := CertificateRequests(tenants[1..], email, existing + {t.domain});
          var r := [issuance] + rest;
          assert r[1..] == rest;
          assert forall i :: 1 <= i < |r| ==> r[i] == rest[i - 1];
          DomainsRequested(rest);
          r
  }

  lemma {:induction false} DomainsRequested(r: seq<ProxyManager.Issuance>)
    ensures forall i :: 0 <= i < |r| ==> r[i].domain in RequestedDomains(r)
  {
    if r != [] {
      DomainsRequested(r[1..]);
      assert forall i :: 1 <= i < |r| ==> r[i] == r[1..][i - 1];
    }
  }
}
