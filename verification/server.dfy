/** Rule validation and the merge of an incoming definition into the current
    one (`Server.validateRule`, `validateWildcardDomains` and the body of
    `initializeProxyFromConfiguration`). The current definition is threaded
    through explicitly as an `Option<Definition>`; a thrown error becomes the
    `failure` of a `Step`, next to the state the server is left in. */
module Server {
  import opened Common
  import opened Ingress

  datatype ApplyError =
    | MissingId
    | WildcardTlsDomain(id: string)
    | MissingTlsEmail
    | MissingHostnameOrPath(id: string)
    | MissingServiceName(id: string)
      /** A TypeError: the named property holds `null` or `undefined` where
          an array is iterated or searched. */
    | NotAList(key: Key)

  // ---------------------------------------------------------------------
  // Rule validation
  // ---------------------------------------------------------------------

  /** `wildcards.findIndex(wd => domain.endsWith("." + wd))`. */
  function WildcardIndex(domain: string, wildcards: seq<string>): (r: Option<nat>)
    ensures r.Some? ==> r.value < |wildcards| && EndsWith(domain, "." + wildcards[r.value])
    ensures r.None? <==> forall k :: 0 <= k < |wildcards| ==> !EndsWith(domain, "." + wildcards[k])
  {
    if wildcards == [] then None
    else if EndsWith(domain, "." + wildcards[0]) then Some(0)
    else match WildcardIndex(domain, wildcards[1..])
      case None => None
      case Some(k) => Some(k + 1)
  }

  predicate UnderWildcard(domain: string, wildcards: seq<string>) {
    exists k :: 0 <= k < |wildcards| && EndsWith(domain, "." + wildcards[k])
  }

  /** The separate checks a rule must pass, in the words of the errors. */
  predicate NoWildcardTls(rule: Rule) {
    !(Truthy(rule.tlsDomain) && StartsWith(rule.tlsDomain.value, "*."))
  }

  predicate EmailForTls(rule: Rule, agg: Definition) {
    Truthy(rule.tlsDomain) ==> Truthy(agg.tlsEmail)
  }

  predicate HasTarget(rule: Rule) {
    Truthy(rule.hostname) || Truthy(rule.tlsDomain) || Truthy(rule.path)
  }

  predicate WildcardsSearchable(rule: Rule, agg: Definition) {
    Truthy(rule.tlsDomain) ==> agg.wildcardDomains.Value?
  }

  /** What a successful non-removal validation makes of `rule`: the host name
      defaults to the TLS domain, the TLS domain is dropped under a wildcard
      (checked before lower-casing) or else lower-cased, and nothing else moves. */
  predicate Normalised(rule: Rule, agg: Definition, out: Rule) {
    && out.(hostname := rule.hostname, tlsDomain := rule.tlsDomain) == rule
    && out.hostname == (if !Truthy(rule.hostname) && Truthy(rule.tlsDomain) then rule.tlsDomain else rule.hostname)
    && (!Truthy(rule.tlsDomain) ==> out.tlsDomain == rule.tlsDomain)
    && (Truthy(rule.tlsDomain) && agg.wildcardDomains.Value?
        && UnderWildcard(rule.tlsDomain.value, agg.wildcardDomains.value) ==>
          out.tlsDomain == Null)
    && (Truthy(rule.tlsDomain) && agg.wildcardDomains.Value?
        && !UnderWildcard(rule.tlsDomain.value, agg.wildcardDomains.value) ==>
          out.tlsDomain == Value(Lower(rule.tlsDomain.value)))
  }

  /** `validateRule(rule, removal)` against the definition `agg` the server
      holds at that moment. */
  function ValidateRule(rule: Rule, removal: bool, agg: Definition): (r: Result<Rule, ApplyError>)
    // the id is always required, for removals too
    ensures !Truthy(rule.id) ==> r == Failure(MissingId)
    // a removal is checked for nothing else and left as it is
    ensures Truthy(rule.id) && removal ==> r == Success(rule)
    // the other checks, each reached only when the earlier ones pass
    ensures Truthy(rule.id) && !removal && !NoWildcardTls(rule) ==>
      r == Failure(WildcardTlsDomain(rule.id.value))
    ensures Truthy(rule.id) && !removal && NoWildcardTls(rule) && !EmailForTls(rule, agg) ==>
      r == Failure(MissingTlsEmail)
    ensures Truthy(rule.id) && !removal && NoWildcardTls(rule) && EmailForTls(rule, agg) && !HasTarget(rule) ==>
      r == Failure(MissingHostnameOrPath(rule.id.value))
    ensures Truthy(rule.id) && !removal && NoWildcardTls(rule) && EmailForTls(rule, agg) && HasTarget(rule)
            && !Truthy(rule.serviceName) ==>
      r == Failure(MissingServiceName(rule.id.value))
    ensures Truthy(rule.id) && !removal && NoWildcardTls(rule) && EmailForTls(rule, agg) && HasTarget(rule)
            && Truthy(rule.serviceName) && !WildcardsSearchable(rule, agg) ==>
      r == Failure(NotAList(WildcardDomainsKey))
    // everything else is accepted, normalised
    ensures r.Success? <==>
      Truthy(rule.id) && (removal ||
        (NoWildcardTls(rule) && EmailForTls(rule, agg) && HasTarget(rule)
         && Truthy(rule.serviceName) && WildcardsSearchable(rule, agg)))
    ensures r.Success? && !removal ==> Normalised(rule, agg, r.value)
    // the invariants an accepted rule keeps
    ensures r.Success? && !removal ==>
      && (Truthy(r.value.hostname) || Truthy(r.value.path))
      && Truthy(r.value.serviceName)
      && r.value.id == rule.id
    ensures r.Success? && !removal && Truthy(r.value.tlsDomain) ==>
      IsLower(r.value.tlsDomain.value) && !StartsWith(r.value.tlsDomain.value, "*.") && Truthy(agg.tlsEmail)
  {
    if !Truthy(rule.id) then Failure(MissingId)
    else if removal then Success(rule)
    else if Truthy(rule.tlsDomain) && StartsWith(rule.tlsDomain.value, "*.") then
      Failure(WildcardTlsDomain(rule.id.value))
    else if Truthy(rule.tlsDomain) && !Truthy(agg.tlsEmail) then Failure(MissingTlsEmail)
    else
      var hostname := if !Truthy(rule.hostname) && Truthy(rule.tlsDomain) then rule.tlsDomain else rule.hostname;
      if !Truthy(hostname) && !Truthy(rule.path) then Failure(MissingHostnameOrPath(rule.id.value))
      else if !Truthy(rule.serviceName) then Failure(MissingServiceName(rule.id.value))
      else if Truthy(rule.tlsDomain) && !agg.wildcardDomains.Value? then Failure(NotAList(WildcardDomainsKey))
      else
        var tls :=
          if Truthy(rule.tlsDomain) && WildcardIndex(rule.tlsDomain.value, agg.wildcardDomains.value).Some?
          then Null else rule.tlsDomain;
        var tls' := if Truthy(tls) then Value(Lower(tls.value)) else tls;
        LowerKeepsWildcardPrefix(if Truthy(tls) then tls.value else "");
        Success(rule.(hostname := hostname, tlsDomain := tls'))
  }

  /** The suffix test runs on the TLS domain as written, before it is
      lower-cased: a domain that only falls under a wildcard once lower-cased
      keeps its (lower-cased) certificate domain, and validating the stored
      rule again would then drop it. */
  lemma WildcardTestIsCaseSensitive(rule: Rule, agg: Definition)
    requires ValidateRule(rule, false, agg).Success?
    requires Truthy(rule.tlsDomain) && agg.wildcardDomains.Value?
    requires !UnderWildcard(rule.tlsDomain.value, agg.wildcardDomains.value)
    requires UnderWildcard(Lower(rule.tlsDomain.value), agg.wildcardDomains.value)
    ensures ValidateRule(rule, false, agg).value.tlsDomain == Value(Lower(rule.tlsDomain.value))
    ensures ValidateRule(ValidateRule(rule, false, agg).value, false, agg).value.tlsDomain == Null
  {
  }

  // ---------------------------------------------------------------------
  // Wildcard domain normalisation
  // ---------------------------------------------------------------------

  /** One wildcard entry: one leading `*.` dropped, then lower-cased. Read
      backwards, the lower-cased entry is the result with the dropped prefix
      put back. */
  function NormalizeWildcard(wd: string): (r: string)
    ensures IsLower(r)
    ensures Lower(wd) == (if StartsWith(wd, "*.") then "*." + r else r)
  {
    if StartsWith(wd, "*.") then
      var r := Lower(wd[2..]);
      assert Lower(wd) == "*." + r by {
        assert forall i :: 0 <= i < |wd| ==> Lower(wd)[i] == ("*." + r)[i] by {
          forall i | 0 <= i < |wd|
            ensures Lower(wd)[i] == ("*." + r)[i]
          {
            if i >= 2 {
              assert wd[2..][i - 2] == wd[i];
            } else {
              assert wd[..2][i] == wd[i];
            }
          }
        }
      }
      r
    else Lower(wd)
  }

  /** Only one leading `*.` is stripped: a doubled prefix leaves a wildcard
      entry that still starts with `*.`. */
  lemma NormalizeStripsOnce(wd: string)
    requires StartsWith(wd, "*.*.")
    ensures StartsWith(NormalizeWildcard(wd), "*.")
  {
    var r := NormalizeWildcard(wd);
    assert wd[..2] == wd[..4][..2] == "*.";
    assert Lower(wd) == "*." + r;
    assert Lower(wd)[2] == LowerChar(wd[2]) == wd[..4][2];
    assert Lower(wd)[3] == LowerChar(wd[3]) == wd[..4][3];
  }

  /** `validateWildcardDomains(def)`: `None` when the property is missing or
      null, otherwise every entry normalised, in order. */
  function NormalizeWildcards(f: Field<seq<string>>): (r: Option<seq<string>>)
    ensures r.Some? <==> f.Value?
    ensures r.Some? ==> |r.value| == |f.value|
    ensures r.Some? ==> forall i :: 0 <= i < |f.value| ==> r.value[i] == NormalizeWildcard(f.value[i])
  {
    if f.Value? then Some(NormalizeAll(f.value)) else None
  }

  function NormalizeAll(ws: seq<string>): (r: seq<string>)
    ensures |r| == |ws|
    ensures forall i :: 0 <= i < |ws| ==> r[i] == NormalizeWildcard(ws[i])
  {
    if ws == [] then [] else [NormalizeWildcard(ws[0])] + NormalizeAll(ws[1..])
  }

  // ---------------------------------------------------------------------
  // One rule applied to the list
  // ---------------------------------------------------------------------

  /** `list.findIndex(r => r.id === id)`: the first entry carrying `id`. */
  function IndexOfId(list: seq<Rule>, id: Field<string>): (r: Option<nat>)
    ensures r.None? <==> !HasId(list, id)
    ensures r.Some? ==> r.value < |list| && list[r.value].id == id
    ensures r.Some? ==> forall j :: 0 <= j < r.value ==> list[j].id != id
  {
    if list == [] then None
    else if list[0].id == id then Some(0)
    else match IndexOfId(list[1..], id)
      case None =>
        assert forall i :: 1 <= i < |list| ==> list[i].id == list[1..][i - 1].id;
        None
      case Some(k) => Some(k + 1)
  }

  /** One validated rule applied to the list: appended when its id is new,
      spread over the first entry with its id otherwise, and for a removal
      `list.splice(index)`, which drops the matching entry and everything
      after it. */
  function ApplyRule(list: seq<Rule>, rule: Rule, removal: bool): (r: seq<Rule>)
    // add or update: the rule is present afterwards, the others stay in place
    ensures !removal ==> HasId(r, rule.id)
    ensures !removal && !HasId(list, rule.id) ==> r == list + [rule]
    ensures !removal && HasId(list, rule.id) ==> |r| == |list|
    ensures !removal && HasId(list, rule.id) ==>
      var i := IndexOfId(list, rule.id).value;
      && r[i] == Overlay(list[i], rule)
      && forall j :: 0 <= j < |list| && j != i ==> r[j] == list[j]
    ensures !removal ==> forall i :: 0 <= i < |list| && list[i].id != rule.id ==> r[i] == list[i]
    ensures !removal && rule.id != Absent ==> forall i :: 0 <= i < |list| ==> r[i].id == list[i].id
    ensures !removal && rule.id != Absent && DistinctIds(list) ==> DistinctIds(r)
    // removal: a prefix of the list, cut just before the first match
    ensures removal ==> |r| <= |list| && r == list[..|r|] && !HasId(r, rule.id)
    ensures removal && HasId(list, rule.id) ==> |r| < |list| && list[|r|].id == rule.id
    ensures removal && !HasId(list, rule.id) ==> r == list
  {
    match IndexOfId(list, rule.id)
    case None =>
      if removal then list
      else
        assert (list + [rule])[|list|] == rule;
        list + [rule]
    case Some(i) =>
      if removal then list[..i]
      else
        var r := list[i := Overlay(list[i], rule)];
        assert r[i].id == rule.id;
        r
  }

  /** Adding the same rule twice is an add followed by an update that
      changes nothing: no duplicate entry appears. */
  lemma RepeatedAddIsUpdate(list: seq<Rule>, rule: Rule)
    requires rule.id != Absent
    ensures ApplyRule(ApplyRule(list, rule, false), rule, false) == ApplyRule(list, rule, false)
  {
    var once := ApplyRule(list, rule, false);
    match IndexOfId(list, rule.id)
    case None =>
      assert IndexOfId(once, rule.id) == Some(|list|);
      OverlayIdempotent(rule, rule);
    case Some(i) =>
      assert IndexOfId(once, rule.id) == Some(i);
      OverlayIdempotent(list[i], rule);
  }

  // ---------------------------------------------------------------------
  // The rules of one incoming definition
  // ---------------------------------------------------------------------

  /** The list reached, and the error that stopped the loop if any. */
  datatype Batch = Batch(list: seq<Rule>, failure: Option<ApplyError>)

  /** The `for (const rule of value)` loop: validate, then apply, one rule
      at a time; the first error stops the loop with the rules before it
      already applied. */
  function MergeRules(list: seq<Rule>, incoming: seq<Rule>, removal: bool, agg: Definition): (b: Batch)
    // an incoming rule without id always stops the batch
    ensures (exists k :: 0 <= k < |incoming| && !Truthy(incoming[k].id)) ==> b.failure.Some?
    // adding or updating keeps ids distinct, and leaves every incoming id present
    ensures DistinctIds(list) ==> DistinctIds(b.list)
    ensures !removal && b.failure.None? ==> forall k :: 0 <= k < |incoming| ==> HasId(b.list, incoming[k].id)
    ensures !removal ==> forall id :: HasId(list, id) ==> HasId(b.list, id)
    // removing only ever cuts the list, and leaves none of the incoming ids
    ensures removal ==> |b.list| <= |list| && b.list == list[..|b.list|]
    ensures removal && b.failure.None? ==> forall k :: 0 <= k < |incoming| ==> !HasId(b.list, incoming[k].id)
    decreases |incoming|
  {
    if incoming == [] then Batch(list, None)
    else match ValidateRule(incoming[0], removal, agg)
      case Failure(e) => Batch(list, Some(e))
      case Success(rule) =>
        assert rule.id == incoming[0].id && Truthy(rule.id);
        var next := ApplyRule(list, rule, removal);
        var b := MergeRules(next, incoming[1..], removal, agg);
        assert forall k :: 1 <= k < |incoming| ==> incoming[k] == incoming[1..][k - 1];
        if removal then
          assert b.list == next[..|b.list|] == list[..|b.list|];
          assert forall i :: 0 <= i < |b.list| ==> b.list[i] == next[i];
          b
        else
          b
  }

  /** The rules loop completes exactly when every incoming rule validates.
      A removal of an id no rule carries is therefore no error. */
  lemma {:induction false} MergeRulesCompletes(list: seq<Rule>, incoming: seq<Rule>, removal: bool, agg: Definition)
    ensures MergeRules(list, incoming, removal, agg).failure.None? <==>
      forall k :: 0 <= k < |incoming| ==> ValidateRule(incoming[k], removal, agg).Success?
    decreases |incoming|
  {
    if incoming != [] {
      var m := MergeRules(list, incoming, removal, agg);
      var v := ValidateRule(incoming[0], removal, agg);
      if v.Success? {
        var next := ApplyRule(list, v.value, removal);
        assert m == MergeRules(next, incoming[1..], removal, agg);
        MergeRulesCompletes(next, incoming[1..], removal, agg);
        assert forall k :: 1 <= k < |incoming| ==> incoming[k] == incoming[1..][k - 1];
      }
    }
  }

  /** A loop that fails stops with the error of the first rule that does not
      validate, every rule before it having validated. */
  lemma {:induction false} MergeRulesFailsAtFirstError(list: seq<Rule>, incoming: seq<Rule>, removal: bool, agg: Definition)
    ensures MergeRules(list, incoming, removal, agg).failure.Some? ==>
      exists k :: 0 <= k < |incoming|
        && ValidateRule(incoming[k], removal, agg) == Failure(MergeRules(list, incoming, removal, agg).failure.value)
        && forall j :: 0 <= j < k ==> ValidateRule(incoming[j], removal, agg).Success?
    decreases |incoming|
  {
    if incoming != [] {
      var m := MergeRules(list, incoming, removal, agg);
      var v := ValidateRule(incoming[0], removal, agg);
      if v.Failure? {
        assert m == Batch(list, Some(v.error));
      } else {
        var next := ApplyRule(list, v.value, removal);
        var b := MergeRules(next, incoming[1..], removal, agg);
        assert m == b;
        MergeRulesFailsAtFirstError(next, incoming[1..], removal, agg);
        if b.failure.Some? {
          var k :| 0 <= k < |incoming[1..]|
            && ValidateRule(incoming[1..][k], removal, agg) == Failure(b.failure.value)
            && forall j :: 0 <= j < k ==> ValidateRule(incoming[1..][j], removal, agg).Success?;
          assert ValidateRule(incoming[k + 1], removal, agg) == Failure(b.failure.value);
          assert forall j :: 1 <= j < k + 1 ==> incoming[j] == incoming[1..][j - 1];
        }
      }
    }
  }

  /** `def.rules.forEach(r => validateRule(r, false))` for a first definition:
      each rule validated on its own against `agg`, order and duplicates kept. */
  function ValidateAll(rules: seq<Rule>, agg: Definition): (r: Result<seq<Rule>, ApplyError>)
    ensures r.Success? <==> forall k :: 0 <= k < |rules| ==> ValidateRule(rules[k], false, agg).Success?
    ensures r.Success? ==> |r.value| == |rules|
    ensures r.Success? ==> forall k :: 0 <= k < |rules| ==> ValidateRule(rules[k], false, agg) == Success(r.value[k])
    // `forEach` throws the error of the first rule that fails
    ensures r.Failure? ==>
      exists k :: 0 <= k < |rules| && ValidateRule(rules[k], false, agg) == Failure(r.error)
        && forall j :: 0 <= j < k ==> ValidateRule(rules[j], false, agg).Success?
  {
    if rules == [] then Success([])
    else match ValidateRule(rules[0], false, agg)
      case Failure(e) => Failure(e)
      case Success(v) =>
        assert forall k :: 1 <= k < |rules| ==> rules[k] == rules[1..][k - 1];
        match ValidateAll(rules[1..], agg)
        case Failure(e) => Failure(e)
        case Success(vs) => Success([v] + vs)
  }

  // ---------------------------------------------------------------------
  // The merge of a whole definition
  // ---------------------------------------------------------------------

  /** The `Object.keys(def).forEach` loop over the current definition `cur`.
      The rules list is the current one when it is an array, in which case it
      is edited in place and its edits survive an error; otherwise it is a
      fresh list that only replaces the property once the loop completes. */
  function MergeKeys(cur: Definition, keys: seq<Key>, body: Definition, removal: bool): (r: (Definition, Option<ApplyError>))
    // keys not enumerated are left alone
    ensures forall k :: k !in keys ==> SameAt(r.0, cur, k)
    // a removal only ever touches the rules
    ensures removal ==> forall k :: k != RulesKey ==> SameAt(r.0, cur, k)
    // a completed update copies every other enumerated property verbatim
    ensures !removal && r.1.None? ==> forall k :: k in keys && k != RulesKey ==> SameAt(r.0, body, k)
    // a merge never introduces a duplicate id
    ensures (cur.rules.Value? ==> DistinctIds(cur.rules.value)) ==>
      (r.0.rules.Value? ==> DistinctIds(r.0.rules.value))
    // an update never loses a rule, and a completed one holds every incoming rule
    ensures !removal && cur.rules.Value? ==>
      r.0.rules.Value? && forall id :: HasId(cur.rules.value, id) ==> HasId(r.0.rules.value, id)
    ensures !removal && r.1.None? && RulesKey in keys && body.rules.Value? ==>
      r.0.rules.Value? && forall k :: 0 <= k < |body.rules.value| ==> HasId(r.0.rules.value, body.rules.value[k].id)
    // once the rules are reached, a rule without id stops the merge
    ensures RulesKey in keys && body.rules.Value? && (exists k :: 0 <= k < |body.rules.value| && !Truthy(body.rules.value[k].id)) ==>
      r.1.Some?
    decreases |keys|
  {
    if keys == [] then (cur, None)
    else
    assert forall k :: k in keys[1..] ==> k in keys;
    if keys[0] == RulesKey then
      if !body.rules.Value? then (cur, Some(NotAList(RulesKey)))
      else
        var attached := cur.rules.Value?;
        var list := if attached then cur.rules.value else [];
        var b := MergeRules(list, body.rules.value, removal, cur);
        if b.failure.Some? then
          ((if attached then cur.(rules := Value(b.list)) else cur), b.failure)
        else
          var next := cur.(rules := Value(b.list));
          var r' := MergeKeys(next, keys[1..], body, removal);
          assert removal ==> SameAt(r'.0, next, TlsEmailKey) && SameAt(r'.0, next, DefaultTenantPatternKey)
                             && SameAt(r'.0, next, WildcardDomainsKey);
          r'
    else if removal then
      MergeKeys(cur, keys[1..], body, removal)
    else
      MergeKeys(CopyKey(cur, body, keys[0]), keys[1..], body, removal)
  }

  /** The outcome of one call: the definition the server holds afterwards,
      and the error thrown to the caller, if any. */
  datatype Step = Step(next: Option<Definition>, failure: Option<ApplyError>)

  /** The held definition once the incoming wildcard list, when given, has
      been normalised and installed; this happens before any key is merged. */
  function Installed(current: Definition, body: Definition): Definition {
    match NormalizeWildcards(body.wildcardDomains)
    case Some(w) => current.(wildcardDomains := Value(w))
    case None => current
  }

  /** The definition adopted wholesale when there is none yet. */
  function Adopted(incoming: Definition): Definition {
    incoming.(wildcardDomains := Value(NormalizeWildcards(incoming.wildcardDomains).GetOr([])))
  }

  /** `initializeProxyFromConfiguration(def, removal)` up to the point where
      the new definition is handed on (the call into the template and the
      certificate purge are not part of this model). */
  function Apply(current: Option<Definition>, patch: Patch, removal: bool): (s: Step)
    // with no definition yet, a removal is ignored
    ensures current.None? && removal ==> s == Step(None, None)
    // a first definition is adopted whole, wildcards normalised, every rule validated against it
    ensures current.None? && !removal && s.failure.None? ==>
      && s.next.Some?
      && s.next.value.(rules := patch.body.rules) == Adopted(patch.body)
      && (patch.body.rules.Value? <==> s.next.value.rules.Value?)
      && (patch.body.rules.Value? ==>
            && |s.next.value.rules.value| == |patch.body.rules.value|
            && forall k :: 0 <= k < |patch.body.rules.value| ==>
                 ValidateRule(patch.body.rules.value[k], false, Adopted(patch.body))
                   == Success(s.next.value.rules.value[k]))
    // it is adopted exactly when every rule validates; otherwise the first failing rule's error is thrown
    ensures current.None? && !removal ==>
      (s.failure.None? <==>
        (patch.body.rules.Value? ==>
           forall k :: 0 <= k < |patch.body.rules.value| ==>
             ValidateRule(patch.body.rules.value[k], false, Adopted(patch.body)).Success?))
    ensures current.None? && !removal && s.failure.Some? ==>
      && patch.body.rules.Value?
      && exists k :: 0 <= k < |patch.body.rules.value|
           && ValidateRule(patch.body.rules.value[k], false, Adopted(patch.body)) == Failure(s.failure.value)
           && forall j :: 0 <= j < k ==> ValidateRule(patch.body.rules.value[j], false, Adopted(patch.body)).Success?
    // and a failure there rolls back to having none
    ensures current.None? && s.failure.Some? ==> s.next.None?
    // an existing definition is edited in place: it is never lost, even by a failure
    ensures current.Some? ==> s.next.Some?
    // a removal keeps every top-level setting except the wildcard list, which is replaced
    // by the normalised incoming one when that is given
    ensures current.Some? && removal ==>
      && s.next.value.tlsEmail == current.value.tlsEmail
      && s.next.value.defaultTenantPattern == current.value.defaultTenantPattern
      && s.next.value.wildcardDomains ==
           (match NormalizeWildcards(patch.body.wildcardDomains)
            case Some(w) => Value(w)
            case None => current.value.wildcardDomains)
    // an update copies every other enumerated property verbatim, the raw wildcard list included
    ensures current.Some? && !removal && s.failure.None? ==>
      forall k :: k in patch.keys && k != RulesKey ==> SameAt(s.next.value, patch.body, k)
  {
    if current.None? then
      if removal then Step(None, None)
      else
        var def := Adopted(patch.body);
        if def.rules.Value? then
          match ValidateAll(def.rules.value, def)
          case Failure(e) => Step(None, Some(e))
          case Success(rs) => Step(Some(def.(rules := Value(rs))), None)
        else Step(Some(def), None)
    else
      var cur := Installed(current.value, patch.body);
      var r := MergeKeys(cur, patch.keys, patch.body, removal);
      assert removal ==> SameAt(r.0, cur, TlsEmailKey) && SameAt(r.0, cur, DefaultTenantPatternKey)
                         && SameAt(r.0, cur, WildcardDomainsKey);
      Step(Some(r.0), r.1)
  }

  // ---------------------------------------------------------------------
  // Properties of a whole call
  // ---------------------------------------------------------------------

  /** A rule without id is always rejected, whatever it asks for, except by a
      removal arriving before any definition exists, which is ignored whole. */
  lemma RuleWithoutIdIsRejected(current: Option<Definition>, patch: Patch, removal: bool, k: nat)
    requires !(current.None? && removal)
    requires current.Some? ==> RulesKey in patch.keys
    requires patch.body.rules.Value? && k < |patch.body.rules.value|
    requires !Truthy(patch.body.rules.value[k].id)
    ensures Apply(current, patch, removal).failure.Some?
  {
    if current.None? {
      assert ValidateRule(patch.body.rules.value[k], false, Adopted(patch.body)).Failure?;
    }
  }

  /** Updates and removals on an existing definition never create two rules
      with the same id. */
  lemma MergeKeepsIdsDistinct(current: Definition, patch: Patch, removal: bool)
    requires current.rules.Value? ==> DistinctIds(current.rules.value)
    ensures var s := Apply(Some(current), patch, removal);
            s.next.Some? && (s.next.value.rules.Value? ==> DistinctIds(s.next.value.rules.value))
  {
  }

  /** A completed update holds every rule it carried, alongside every rule
      that was there before. */
  lemma UpdateHoldsEveryRule(current: Definition, patch: Patch)
    requires RulesKey in patch.keys && patch.body.rules.Value?
    requires Apply(Some(current), patch, false).failure.None?
    ensures var next := Apply(Some(current), patch, false).next.value;
            && next.rules.Value?
            && (forall k :: 0 <= k < |patch.body.rules.value| ==> HasId(next.rules.value, patch.body.rules.value[k].id))
            && (current.rules.Value? ==> forall id :: HasId(current.rules.value, id) ==> HasId(next.rules.value, id))
  {
  }

  /** A rules-only update that succeeded once succeeds again with the same
      outcome: the second add is an update that changes nothing. */
  lemma ReapplyingAnUpdateChangesNothing(current: Definition, rule: Rule)
    requires Apply(Some(current), Patch([RulesKey], Definition(Absent, Absent, Absent, Value([rule]))), false).failure.None?
    ensures var patch := Patch([RulesKey], Definition(Absent, Absent, Absent, Value([rule])));
            var once := Apply(Some(current), patch, false);
            Apply(once.next, patch, false) == once
  {
    var agg := current;
    var v := ValidateRule(rule, false, agg).value;
    var list := if current.rules.Value? then current.rules.value else [];
    assert MergeRules(list, [rule], false, agg) == Batch(ApplyRule(list, v, false), None);
    var next := current.(rules := Value(ApplyRule(list, v, false)));
    assert ValidateRule(rule, false, next) == Success(v);
    RepeatedAddIsUpdate(list, v);
    assert MergeRules(ApplyRule(list, v, false), [rule], false, next)
        == Batch(ApplyRule(ApplyRule(list, v, false), v, false), None);
  }

  /** An update of a stored rule is a merge, not a replacement: a property the
      incoming rule does not carry keeps its stored value, and one it carries
      (even as `null`) replaces it. */
  lemma UpdateKeepsUnsentProperties(current: Definition, rule: Rule)
    requires current.rules.Value? && HasId(current.rules.value, rule.id)
    requires ValidateRule(rule, false, current).Success?
    ensures var list := current.rules.value;
            var i := IndexOfId(list, rule.id).value;
            var s := Apply(Some(current), Patch([RulesKey], Definition(Absent, Absent, Absent, Value([rule]))), false);
            && s.failure.None?
            && |s.next.value.rules.value| == |list|
            && Spread(list[i].path, rule.path, s.next.value.rules.value[i].path)
            && Spread(list[i].pathRewrite, rule.pathRewrite, s.next.value.rules.value[i].pathRewrite)
            && Spread(list[i].serviceName, rule.serviceName, s.next.value.rules.value[i].serviceName)
            && Spread(list[i].servicePort, rule.servicePort, s.next.value.rules.value[i].servicePort)
            && Spread(list[i].tenant, rule.tenant, s.next.value.rules.value[i].tenant)
  {
    var list := current.rules.value;
    var v := ValidateRule(rule, false, current).value;
    assert v.id == rule.id;
    assert MergeRules(list, [rule], false, current) == Batch(ApplyRule(list, v, false), None);
  }

  /** Removing an id that no rule carries is no error: `findIndex` gives -1
      and the loop moves on. The list is stored back, so a definition without
      one is left with an empty list (`currentDefinition.rules || []`). */
  lemma RemovingAnUnknownIdChangesNothing(current: Definition, rule: Rule)
    requires Truthy(rule.id)
    requires !(current.rules.Value? && HasId(current.rules.value, rule.id))
    ensures Apply(Some(current), Patch([RulesKey], Definition(Absent, Absent, Absent, Value([rule]))), true)
         == Step(Some(current.(rules := Value(if current.rules.Value? then current.rules.value else []))), None)
  {
    var body := Definition(Absent, Absent, Absent, Value([rule]));
    assert Installed(current, body) == current;
    var list := if current.rules.Value? then current.rules.value else [];
    assert ValidateRule(rule, true, current) == Success(rule);
    assert ApplyRule(list, rule, true) == list;
    assert MergeRules(list, [rule], true, current) == Batch(list, None);
  }

  /** A removal of a rule that is present keeps only the rules before it:
      with distinct ids, every rule listed after it disappears too. */
  lemma RemovalDropsTheTail(current: Definition, rule: Rule)
    requires current.rules.Value? && Truthy(rule.id) && HasId(current.rules.value, rule.id)
    ensures var list := current.rules.value;
            var i := IndexOfId(list, rule.id).value;
            var s := Apply(Some(current), Patch([RulesKey], Definition(Absent, Absent, Absent, Value([rule]))), true);
            && s.failure.None?
            && s.next.value.rules == Value(list[..i])
            && (DistinctIds(list) ==> forall j :: i <= j < |list| ==> !HasId(s.next.value.rules.value, list[j].id))
  {
    var list := current.rules.value;
    var i := IndexOfId(list, rule.id).value;
    assert MergeRules(list, [rule], true, current) == Batch(list[..i], None);
  }

  /** The rules loop over a batch is the loop over its first part, then,
      unless that stopped on an error, the loop over the rest. */
  lemma {:induction false} MergeRulesAppend(list: seq<Rule>, a: seq<Rule>, b: seq<Rule>, removal: bool, agg: Definition)
    ensures MergeRules(list, a + b, removal, agg) ==
      (var first := MergeRules(list, a, removal, agg);
       if first.failure.Some? then first else MergeRules(first.list, b, removal, agg))
    decreases |a|
  {
    if a == [] {
      assert a + b == b;
    } else {
      assert (a + b)[0] == a[0];
      assert (a + b)[1..] == a[1..] + b;
      match ValidateRule(a[0], removal, agg)
      case Failure(_) =>
      case Success(rule) =>
        MergeRulesAppend(ApplyRule(list, rule, removal), a[1..], b, removal, agg);
    }
  }

  /** Keys enumerated before `rules` never fail, and the merge continues from
      the definition they leave. */
  lemma {:induction false} MergeKeysPrefix(cur: Definition, pre: seq<Key>, rest: seq<Key>, body: Definition, removal: bool)
    requires RulesKey !in pre
    ensures MergeKeys(cur, pre, body, removal).1 == None
    ensures MergeKeys(cur, pre + rest, body, removal) == MergeKeys(MergeKeys(cur, pre, body, removal).0, rest, body, removal)
    decreases |pre|
  {
    if pre == [] {
      assert pre + rest == rest;
    } else {
      assert (pre + rest)[0] == pre[0];
      assert (pre + rest)[1..] == pre[1..] + rest;
      assert pre[0] in pre;
      assert forall k :: k in pre[1..] ==> k in pre;
      var next := if removal then cur else CopyKey(cur, body, pre[0]);
      MergeKeysPrefix(next, pre[1..], rest, body, removal);
    }
  }

  /** The key loop stops at the first rule of the batch that fails: it
      returns that rule's error, with the definition the earlier keys left
      and, when that definition had a rules list, the earlier rules applied. */
  lemma MergeStopsAtFailingRule(cur: Definition, pre: seq<Key>, post: seq<Key>, body: Definition, removal: bool, j: nat)
    requires RulesKey !in pre
    requires body.rules.Value? && j < |body.rules.value|
    ensures var incoming := body.rules.value;
            var before := MergeKeys(cur, pre, body, removal).0;
            var list := if before.rules.Value? then before.rules.value else [];
            var done := MergeRules(list, incoming[..j], removal, before);
            var failing := ValidateRule(incoming[j], removal, before);
            done.failure.None? && failing.Failure? ==>
              MergeKeys(cur, pre + [RulesKey] + post, body, removal) ==
                ((if before.rules.Value? then before.(rules := Value(done.list)) else before), Some(failing.error))
  {
    var incoming := body.rules.value;
    assert pre + [RulesKey] + post == pre + ([RulesKey] + post);
    MergeKeysPrefix(cur, pre, [RulesKey] + post, body, removal);
    var before := MergeKeys(cur, pre, body, removal).0;
    var list := if before.rules.Value? then before.rules.value else [];
    var done := MergeRules(list, incoming[..j], removal, before);
    var failing := ValidateRule(incoming[j], removal, before);
    if done.failure.None? && failing.Failure? {
      assert incoming == incoming[..j] + incoming[j..];
      MergeRulesAppend(list, incoming[..j], incoming[j..], removal, before);
      assert incoming[j..][0] == incoming[j];
      assert MergeRules(done.list, incoming[j..], removal, before) == Batch(done.list, Some(failing.error));
      assert ([RulesKey] + post)[0] == RulesKey;
    }
  }

  /** The error of a merge does not undo it. When rule `j` of the batch is the
      first to fail, the call fails with that rule's error and the server keeps
      the wildcard list installed first, every property enumerated before the
      rules, and, when the definition already had a rules list (edited in
      place), every rule applied before rule `j`. A fresh list, attached only
      once the loop completes, is lost, and properties enumerated after the
      rules are never reached. */
  lemma FailedMergeKeepsEarlierRules(current: Definition, patch: Patch, removal: bool, pre: seq<Key>, post: seq<Key>, j: nat)
    requires patch.keys == pre + [RulesKey] + post && RulesKey !in pre
    requires patch.body.rules.Value? && j < |patch.body.rules.value|
    ensures var incoming := patch.body.rules.value;
            var before := MergeKeys(Installed(current, patch.body), pre, patch.body, removal).0;
            var list := if before.rules.Value? then before.rules.value else [];
            var done := MergeRules(list, incoming[..j], removal, before);
            var failing := ValidateRule(incoming[j], removal, before);
            done.failure.None? && failing.Failure? ==>
              var s := Apply(Some(current), patch, removal);
              && s.failure == Some(failing.error)
              && s.next.value.(rules := before.rules) == before
              && s.next.value.rules == (if before.rules.Value? then Value(done.list) else before.rules)
  {
    MergeStopsAtFailingRule(Installed(current, patch.body), pre, post, patch.body, removal, j);
  }

  /** The smallest instance: a valid rule followed by one without id. The
      first stays applied when a rules list exists, and is lost otherwise. */
  lemma FailedPairKeepsFirstRule(current: Definition, good: Rule, bad: Rule)
    requires ValidateRule(good, false, current).Success?
    requires !Truthy(bad.id)
    ensures var s := Apply(Some(current), Patch([RulesKey], Definition(Absent, Absent, Absent, Value([good, bad]))), false);
            && s.failure == Some(MissingId)
            && (current.rules.Value? ==>
                  s.next.value.rules == Value(ApplyRule(current.rules.value, ValidateRule(good, false, current).value, false)))
            && (!current.rules.Value? ==> s.next.value.rules == current.rules)
  {
    var patch := Patch([RulesKey], Definition(Absent, Absent, Absent, Value([good, bad])));
    assert patch.keys == [] + [RulesKey] + [];
    assert Installed(current, patch.body) == current;
    assert [good, bad][..1] == [good];
    var list := if current.rules.Value? then current.rules.value else [];
    assert MergeRules(ApplyRule(list, ValidateRule(good, false, current).value, false), [], false, current).failure.None?;
    assert MergeRules(list, [good], false, current).failure.None?;
    FailedMergeKeepsEarlierRules(current, patch, false, [], [], 1);
  }

  /** The enumeration order of the incoming object matters: an e-mail listed
      before the rules is already in place when they are validated, one listed
      after them is not. */
  lemma KeyOrderMatters(current: Definition, email: string, rule: Rule)
    requires !Truthy(current.tlsEmail) && current.wildcardDomains.Value?
    requires email != ""
    requires ValidateRule(rule, false, current.(tlsEmail := Value(email))).Success?
    requires Truthy(rule.tlsDomain)
    ensures Apply(Some(current), Patch([TlsEmailKey, RulesKey], Definition(Value(email), Absent, Absent, Value([rule]))), false).failure.None?
    ensures Apply(Some(current), Patch([RulesKey, TlsEmailKey], Definition(Value(email), Absent, Absent, Value([rule]))), false).failure
            == Some(MissingTlsEmail)
  {
    var body := Definition(Value(email), Absent, Absent, Value([rule]));
    var withEmail := current.(tlsEmail := Value(email));
    var list := if current.rules.Value? then current.rules.value else [];
    var v := ValidateRule(rule, false, withEmail).value;
    assert MergeRules(list, [rule], false, withEmail) == Batch(ApplyRule(list, v, false), None);
    assert MergeRules(list, [rule], false, current) == Batch(list, Some(MissingTlsEmail));
    assert MergeKeys(CopyKey(current, body, TlsEmailKey), [RulesKey], body, false).1 == None;
    assert [TlsEmailKey, RulesKey][1..] == [RulesKey];
  }
}
