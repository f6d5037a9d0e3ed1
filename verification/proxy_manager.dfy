/** The decisions of `ProxyManager`: the restart debounce, the HAProxy
    command line, and which certificates to revoke or request. The timer,
    the directory listings, the existence checks and the processes started
    are inputs and outputs here, never effects. */
module ProxyManager {
  import opened Common

  const ConfigFolder := "/var/haproxy"
  const PidFile := "/var/run/haproxy.pid"
  const CertificatesFolder := "/etc/letsencrypt/live"
  /** The address used for certificate issuance when none is given. */
  const FallbackEmail := "ametge@sovinty.com"

  // ---------------------------------------------------------------------
  // Restart debounce
  // ---------------------------------------------------------------------

  /** `restarting` is true exactly while a reload timer is pending. */
  datatype Debounce = Debounce(restarting: bool)

  /** A call to `restart()`, or the pending timer firing. */
  datatype Event = RestartRequested | TimerFired

  /** What an event does: nothing, arm the timer, or (the timer firing)
      run `startProxy(false)`. */
  datatype Reaction = Ignored | ReloadScheduled | SoftRestartStarted

  /** One event. A `TimerFired` with no timer pending cannot occur and is
      read as doing nothing. */
  function Step(d: Debounce, e: Event): (r: (Debounce, Reaction))
    ensures r.1 == ReloadScheduled <==> e == RestartRequested && !d.restarting
    ensures r.1 == SoftRestartStarted <==> e == TimerFired && d.restarting
    ensures r.0.restarting <==> (e == RestartRequested || (d.restarting && e != TimerFired))
    ensures r.1 == Ignored ==> r.0 == d
  {
    match e
    case RestartRequested =>
      if !d.restarting then (Debounce(true), ReloadScheduled) else (d, Ignored)
    case TimerFired =>
      if d.restarting then (Debounce(false), SoftRestartStarted) else (d, Ignored)
  }

  /** The state after a sequence of events, and how many soft restarts ran. */
  function Run(d: Debounce, events: seq<Event>): (r: (Debounce, nat))
    decreases |events|
  {
    if events == [] then (d, 0)
    else
      var (d', reaction) := Step(d, events[0]);
      var (last, n) := Run(d', events[1..]);
      (last, n + (if reaction == SoftRestartStarted then 1 else 0))
  }

  function Count(events: seq<Event>, e: Event): nat {
    if events == [] then 0 else (if events[0] == e then 1 else 0) + Count(events[1..], e)
  }

  function Requests(n: nat): (r: seq<Event>)
    ensures |r| == n && forall i :: 0 <= i < n ==> r[i] == RestartRequested
  {
    if n == 0 then [] else [RestartRequested] + Requests(n - 1)
  }

  /** Requests while a reload is pending change nothing. */
  lemma {:induction false} RequestsWhilePendingAreIgnored(n: nat)
    ensures Run(Debounce(true), Requests(n)) == (Debounce(true), 0)
  {
    if n > 0 {
      assert Requests(n)[1..] == Requests(n - 1);
      RequestsWhilePendingAreIgnored(n - 1);
    }
  }

  /** Any burst of requests before the timer fires gives exactly one soft
      restart, and leaves the debounce ready for the next burst. */
  lemma BurstCoalesces(n: nat)
    requires n >= 1
    ensures Run(Debounce(false), Requests(n) + [TimerFired]) == (Debounce(false), 1)
  {
    RequestsWhilePendingAreIgnored(n - 1);
    RunAppend(Debounce(true), Requests(n - 1), [TimerFired]);
    assert (Requests(n) + [TimerFired])[1..] == Requests(n - 1) + [TimerFired];
  }

  lemma {:induction false} RunAppend(d: Debounce, a: seq<Event>, b: seq<Event>)
    ensures Run(d, a + b) == (Run(Run(d, a).0, b).0, Run(d, a).1 + Run(Run(d, a).0, b).1)
    decreases |a|
  {
    if a == [] {
      assert a + b == b;
    } else {
      assert (a + b)[0] == a[0];
      assert (a + b)[1..] == a[1..] + b;
      RunAppend(Step(d, a[0]).0, a[1..], b);
    }
  }

  /** Every soft restart was armed by a distinct request and fired by a
      distinct timer: restarts never outnumber either. */
  lemma {:induction false} RestartsAreBounded(d: Debounce, events: seq<Event>)
    ensures Run(d, events).1 <= Count(events, TimerFired)
    ensures Run(d, events).1 + (if Run(d, events).0.restarting then 1 else 0)
            <= Count(events, RestartRequested) + (if d.restarting then 1 else 0)
    decreases |events|
  {
    if events != [] {
      RestartsAreBounded(Step(d, events[0]).0, events[1..]);
    }
  }

  // ---------------------------------------------------------------------
  // HAProxy command line
  // ---------------------------------------------------------------------

  /** The files of the configuration folder passed to HAProxy besides the
      default one: every listed name not ending in `.default`, in order. */
  function ConfigFiles(listing: seq<string>): (r: seq<string>)
    ensures forall f :: f in r <==> f in listing && !EndsWith(f, ".default")
    ensures |r| <= |listing|
    ensures r == [] <==> forall i :: 0 <= i < |listing| ==> EndsWith(listing[i], ".default")
  {
    if listing == [] then []
    else if EndsWith(listing[0], ".default") then ConfigFiles(listing[1..])
    else [listing[0]] + ConfigFiles(listing[1..])
  }

  /** Listing order is kept: the files of two listings are the files of
      each, one after the other. */
  lemma {:induction false} ConfigFilesAppend(a: seq<string>, b: seq<string>)
    ensures ConfigFiles(a + b) == ConfigFiles(a) + ConfigFiles(b)
  {
    if a == [] {
      assert a + b == b;
    } else {
      assert (a + b)[0] == a[0];
      assert (a + b)[1..] == a[1..] + b;
      ConfigFilesAppend(a[1..], b);
    }
  }

  function DefaultArgument(testMode: bool): string {
    "-f " + ConfigFolder + "/" + (if testMode then "test" else "global") + ".default"
  }

  /** The `-f` arguments: the default file first, then one per config file. */
  function ArgumentList(testMode: bool, listing: seq<string>): (r: seq<string>)
    ensures |r| == 1 + |ConfigFiles(listing)|
    ensures r[0] == DefaultArgument(testMode)
    ensures forall i :: 0 <= i < |ConfigFiles(listing)| ==> r[i + 1] == "-f " + ConfigFolder + "/" + ConfigFiles(listing)[i]
  {
    var files := ConfigFiles(listing);
    [DefaultArgument(testMode)] + seq(|files|, i requires 0 <= i < |files| => "-f " + ConfigFolder + "/" + files[i])
  }

  /** `createConfigFileArguments()`: `None` (undefined) when the folder cannot
      be read, otherwise the arguments joined by single spaces. */
  function ConfigFileArguments(testMode: bool, listing: Option<seq<string>>): (r: Option<string>)
    ensures r.Some? <==> listing.Some?
    ensures r.Some? ==> r.value == Join(ArgumentList(testMode, listing.value), " ")
    ensures r.Some? ==> StartsWith(r.value, DefaultArgument(testMode))
  {
    match listing
    case None => None
    case Some(files) => Some(Join(ArgumentList(testMode, files), " "))
  }

  /** A folder holding only `.default` files gives the default file alone,
      while a folder that cannot be read gives no arguments at all. */
  lemma DefaultOnlyVersusUnreadable(testMode: bool, listing: seq<string>)
    requires forall i :: 0 <= i < |listing| ==> EndsWith(listing[i], ".default")
    ensures ConfigFileArguments(testMode, Some(listing)) == Some(DefaultArgument(testMode))
    ensures ConfigFileArguments(testMode, None) == None
  {
  }

  /** The text `undefined` stands in when the arguments are missing. */
  function ArgumentText(args: Option<string>): string {
    match args
    case Some(a) => a
    case None => "undefined"
  }

  /** `startProxy(firstTime)`: the shell command run. */
  function StartCommand(firstTime: bool, args: Option<string>): (c: string)
    ensures StartsWith(c, "haproxy " + ArgumentText(args) + " -p " + PidFile)
    ensures firstTime ==> c == "haproxy " + ArgumentText(args) + " -p " + PidFile
    ensures !firstTime ==> c == "haproxy " + ArgumentText(args) + " -p " + PidFile + " -sf $(cat " + PidFile + ")"
  {
    var start := "haproxy " + ArgumentText(args) + " -p " + PidFile;
    if firstTime then start
    else
      var c := start + " -sf $(cat " + PidFile + ")";
      assert c[..|start|] == start;
      c
  }

  /** A later start is the first-start command plus the instruction to
      finish the processes named in the pid file. */
  lemma SoftRestartExtendsFirstStart(args: Option<string>)
    ensures StartCommand(false, args) == StartCommand(true, args) + " -sf $(cat " + PidFile + ")"
  {
  }

  // ---------------------------------------------------------------------
  // Certificates
  // ---------------------------------------------------------------------

  /** `folders` names a certificate of one of `domains`, ignoring case. */
  predicate Covered(domains: seq<string>, folder: string) {
    exists d :: d in domains && Lower(d) == Lower(folder)
  }

  function LowerAll(domains: seq<string>): (r: seq<string>)
    ensures forall x :: x in r <==> exists d :: d in domains && Lower(d) == x
  {
    if domains == [] then []
    else
      var rest := LowerAll(domains[1..]);
      var r := [Lower(domains[0])] + rest;
      assert forall d :: d in domains <==> d == domains[0] || d in domains[1..];
      assert forall x :: x in r <==> x == Lower(domains[0]) || x in rest;
      r
  }

  /** The certificate folders `purge` revokes, in listing order: those whose
      lower-cased name equals no lower-cased tenant domain (an empty name
      never counts as found). */
  function Orphans(domains: seq<string>, folders: seq<string>): (r: seq<string>)
    ensures forall f :: f in r <==> f in folders && (f == "" || !Covered(domains, f))
    ensures |r| <= |folders|
  {
    if folders == [] then []
    else
      var names := LowerAll(domains);
      var f := folders[0];
      var found := Lower(f) in names && Lower(f) != "";
      assert Lower(f) == "" <==> f == "";
      var rest := Orphans(domains, folders[1..]);
      assert forall g :: g in folders <==> g == f || g in folders[1..];
      if found then rest else [f] + rest
  }

  /** Folders are revoked in listing order: the orphans of two listings are
      the orphans of each, one after the other. */
  lemma {:induction false} OrphansAppend(domains: seq<string>, a: seq<string>, b: seq<string>)
    ensures Orphans(domains, a + b) == Orphans(domains, a) + Orphans(domains, b)
  {
    if a == [] {
      assert a + b == b;
    } else {
      assert (a + b)[0] == a[0];
      assert (a + b)[1..] == a[1..] + b;
      OrphansAppend(domains, a[1..], b);
    }
  }

  /** A single folder is revoked exactly when it is an orphan. */
  lemma OrphanOfOne(domains: seq<string>, f: string)
    ensures Orphans(domains, [f]) == (if f == "" || !Covered(domains, f) then [f] else [])
  {
    assert [f][1..] == [];
  }

  function RevokeCommand(folder: string): string {
    "certbot revoke --cert-path " + CertificatesFolder + "/" + folder + "/haproxy.pem"
  }

  /** `purge(domains)`: one revoke command per orphan folder; nothing when
      the certificate folder is missing or cannot be read (`None`). */
  function Purge(domains: seq<string>, listing: Option<seq<string>>): (r: seq<string>)
    ensures listing.None? ==> r == []
    ensures listing.Some? ==> |r| == |Orphans(domains, listing.value)|
    ensures listing.Some? ==> forall i :: 0 <= i < |r| ==> r[i] == RevokeCommand(Orphans(domains, listing.value)[i])
  {
    match listing
    case None => []
    case Some(folders) =>
      var orphans := Orphans(domains, folders);
      seq(|orphans|, i requires 0 <= i < |orphans| => RevokeCommand(orphans[i]))
  }

  /** Purging against the very domains the folders are named after, in any
      letter case, revokes nothing. */
  lemma PurgeSparesCurrentDomains(domains: seq<string>, folders: seq<string>)
    requires forall i :: 0 <= i < |folders| ==> folders[i] != "" && Covered(domains, folders[i])
    ensures Purge(domains, Some(folders)) == []
  {
    var o := Orphans(domains, folders);
    assert forall i :: 0 <= i < |o| ==> o[i] in o;
  }

  /** An issuance request for the certificate script. */
  datatype Issuance = Issuance(domain: string, email: string)

  /** `email || "ametge@sovinty.com"`. */
  function EmailOrFallback(email: Option<string>): (r: string)
    ensures r != ""
    ensures email.Some? && email.value != "" ==> r == email.value
    ensures !(email.Some? && email.value != "") ==> r == FallbackEmail
  {
    if email.Some? && email.value != "" then email.value else FallbackEmail
  }

  /** `createCertificate(domain, email)`: the issuance it starts, if any,
      given the certificate folders that already exist. */
  function CreateCertificate(domain: string, email: Option<string>, existing: set<string>): (r: Option<Issuance>)
    ensures r.None? <==> domain in existing
    ensures r.Some? ==> r.value.domain == domain && r.value.email != ""
    ensures r.Some? && email.Some? && email.value != "" ==> r.value.email == email.value
    ensures r.Some? && !(email.Some? && email.value != "") ==> r.value.email == FallbackEmail
  {
    if domain in existing then None else Some(Issuance(domain, EmailOrFallback(email)))
  }
}
