/** The capability pass of the module registry, and the lookups that rely on it: `app/core/modules.py`. */
module Capabilities {
  import opened ByteStrings

  datatype Kind =
    | DashboardUrl | StorageNamespace | PackagePrefix | EntityType
    | Integration | UiAction | BrowserPolicy | CredentialScope

  /** One entry a module wants in one of the tables. */
  datatype Claim = Claim(kind: Kind, value: string)

  datatype Schema = Schema(request: string, result: string)

  datatype IntegrationSpec = IntegrationSpec(id: string, contract: Option<string>, schema: Schema)

  datatype PolicySpec = PolicySpec(id: string, credentialScope: Option<string>)

  datatype Spec = Spec(dashboardUrl: Option<string>, namespaces: seq<string>, prefixes: seq<string>,
                       resolver: Option<string>, entityTypes: seq<string>, integrations: seq<IntegrationSpec>,
                       uiActions: seq<string>, policies: seq<PolicySpec>)

  datatype Status = Active | Disabled | Unavailable | Failed | Incompatible

  datatype Record = Record(id: string, spec: Option<Spec>, status: Status)

  predicate IsInstalled(r: Record) {
    r.spec.Some? && !r.status.Unavailable? && !r.status.Incompatible?
  }

  function Tagged(kind: Kind, values: seq<string>): (items: seq<Claim>) {
    seq(|values|, i requires 0 <= i < |values| => Claim(kind, values[i]))
  }

  function Scopes(policies: seq<PolicySpec>): (items: seq<string>) {
    if policies == [] then []
    else (if policies[0].credentialScope.Some? then [policies[0].credentialScope.value] else []) + Scopes(policies[1..])
  }

  /** The `declarations` of a module, in the order in which they are checked. */
  function Declarations(spec: Spec): (items: seq<Claim>) {
    (if spec.dashboardUrl.Some? then [Claim(DashboardUrl, spec.dashboardUrl.value)] else [])
    + Tagged(StorageNamespace, spec.namespaces) + Tagged(PackagePrefix, spec.prefixes)
    + Tagged(EntityType, spec.entityTypes)
    + Tagged(Integration, seq(|spec.integrations|, i requires 0 <= i < |spec.integrations| => spec.integrations[i].id))
    + Tagged(UiAction, spec.uiActions)
    + Tagged(BrowserPolicy, seq(|spec.policies|, i requires 0 <= i < |spec.policies| => spec.policies[i].id))
    + Tagged(CredentialScope, Scopes(spec.policies))
  }

  predicate Claims(r: Record, c: Claim) {
    r.spec.Some? && c in Declarations(r.spec.value)
  }

  /** What a module declares, field by field. */
  predicate Declares(spec: Spec, kind: Kind, v: string) {
    match kind
    case DashboardUrl => spec.dashboardUrl == Some(v)
    case StorageNamespace => v in spec.namespaces
    case PackagePrefix => v in spec.prefixes
    case EntityType => v in spec.entityTypes
    case Integration => exists x :: x in spec.integrations && x.id == v
    case UiAction => v in spec.uiActions
    case BrowserPolicy => exists x :: x in spec.policies && x.id == v
    case CredentialScope => exists x :: x in spec.policies && x.credentialScope == Some(v)
  }

  /** The claims of a module are exactly its declared fields. */
  lemma ClaimsExactly(r: Record, kind: Kind, v: string)
    ensures Claims(r, Claim(kind, v)) <==> r.spec.Some? && Declares(r.spec.value, kind, v)
  {
    hide Tagged, Scopes, Declares;
    if r.spec.Some? {
      var spec := r.spec.value;
      var c := Claim(kind, v);
      var ids := seq(|spec.integrations|, i requires 0 <= i < |spec.integrations| => spec.integrations[i].id);
      var policies := seq(|spec.policies|, i requires 0 <= i < |spec.policies| => spec.policies[i].id);
      TaggedHas(StorageNamespace, spec.namespaces, c);
      TaggedHas(PackagePrefix, spec.prefixes, c);
      TaggedHas(EntityType, spec.entityTypes, c);
      TaggedHas(Integration, ids, c);
      TaggedHas(UiAction, spec.uiActions, c);
      TaggedHas(BrowserPolicy, policies, c);
      TaggedHas(CredentialScope, Scopes(spec.policies), c);
      FieldsDeclare(spec, v, ids, policies);
    }
  }

  lemma TaggedHas(kind: Kind, values: seq<string>, c: Claim)
    ensures c in Tagged(kind, values) <==> c.kind == kind && c.value in values
  {
    var tagged := Tagged(kind, values);
    if c.kind == kind && c.value in values {
      var k :| 0 <= k < |values| && values[k] == c.value;
      assert tagged[k] == c;
    }
  }

  /** The fields that are taken out of a list of records. */
  lemma FieldsDeclare(spec: Spec, v: string, ids: seq<string>, policies: seq<string>)
    requires |ids| == |spec.integrations| && |policies| == |spec.policies|
    requires forall i :: 0 <= i < |ids| ==> ids[i] == spec.integrations[i].id
    requires forall i :: 0 <= i < |policies| ==> policies[i] == spec.policies[i].id
    ensures forall kind :: Declares(spec, kind, v) <==>
              match kind
              case DashboardUrl => spec.dashboardUrl == Some(v)
              case StorageNamespace => v in spec.namespaces
              case PackagePrefix => v in spec.prefixes
              case EntityType => v in spec.entityTypes
              case Integration => v in ids
              case UiAction => v in spec.uiActions
              case BrowserPolicy => v in policies
              case CredentialScope => v in Scopes(spec.policies)
  {
    if x :| x in spec.integrations && x.id == v {
      var k :| 0 <= k < |ids| && spec.integrations[k] == x;
      assert ids[k] == v;
    }
    if x :| x in spec.policies && x.id == v {
      var k :| 0 <= k < |policies| && spec.policies[k] == x;
      assert policies[k] == v;
    }
    ScopesHas(spec.policies, v);
  }

  lemma {:induction false} ScopesHas(policies: seq<PolicySpec>, v: string)
    ensures v in Scopes(policies) <==> exists x :: x in policies && x.credentialScope == Some(v)
  {
    if policies != [] {
      ScopesHas(policies[1..], v);
      assert policies == [policies[0]] + policies[1..];
    }
  }

  // ---- the pass ----

  /** The tables filled so far, and the modules failed so far (by position). */
  datatype Tables = Tables(owners: map<Claim, nat>, contracts: map<string, Schema>, failed: set<nat>)

  predicate ClaimConflict(spec: Spec, t: Tables) {
    exists c :: c in Declarations(spec) && c in t.owners
  }

  predicate Disagrees(integration: IntegrationSpec, contracts: map<string, Schema>) {
    integration.contract.Some? && integration.contract.value in contracts
    && contracts[integration.contract.value] != integration.schema
  }

  predicate ContractConflict(spec: Spec, t: Tables) {
    exists x :: x in spec.integrations && Disagrees(x, t.contracts)
  }

  function WithContracts(contracts: map<string, Schema>, integrations: seq<IntegrationSpec>): (m: map<string, Schema>)
    decreases |integrations|
  {
    if integrations == [] then contracts
    else
      var x := integrations[0];
      WithContracts(if x.contract.Some? then contracts[x.contract.value := x.schema] else contracts, integrations[1..])
  }

  function WithClaims(owners: map<Claim, nat>, declarations: seq<Claim>, i: nat): (m: map<Claim, nat>) {
    owners + map c | c in declarations :: i
  }

  /** What the loop body does about record i. */
  function Visit(records: seq<Record>, i: nat, t: Tables): (r: Tables)
    requires i < |records|
  {
    if !IsInstalled(records[i]) then t
    else
      var spec := records[i].spec.value;
      if ClaimConflict(spec, t) || ContractConflict(spec, t) then t.(failed := t.failed + {i})
      else t.(owners := WithClaims(t.owners, Declarations(spec), i),
              contracts := WithContracts(t.contracts, spec.integrations))
  }

  /** The tables after the first n records. */
  function After(records: seq<Record>, n: nat): (r: Tables)
    requires n <= |records|
  {
    if n == 0 then Tables(map[], map[], {}) else Visit(records, n - 1, After(records, n - 1))
  }

  /** `_fail` on every failed record. */
  function Marked(records: seq<Record>, failed: set<nat>): (items: seq<Record>) {
    seq(|records|, i requires 0 <= i < |records| => if i in failed then records[i].(status := Failed) else records[i])
  }

  /** The registry once its pass is over. */
  function Validated(records: seq<Record>): (items: seq<Record>) {
    Marked(records, After(records, |records|).failed)
  }

  class Registry {
    /** The records in the order of the `records` property: by (order, id). */
    var records: seq<Record>

    /** `_validate_capabilities`, behind the check of the migration tables. */
    method ValidateCapabilities()
      modifies this
      ensures records == Validated(old(records))
    {
      hide Declarations, WithContracts, WithClaims;
      ghost var before := records;
      var seen: map<Claim, nat> := map[];
      var contracts: map<string, Schema> := map[];
      ghost var failed: set<nat> := {};
      var i := 0;
      while i < |records|
        invariant i <= |records| == |before|
        invariant Tables(seen, contracts, failed) == After(before, i)
        invariant forall k :: k in failed ==> k < i
        invariant records == Marked(before, failed)
      {
        if IsInstalled(records[i]) {
          var spec := records[i].spec.value;
          var declarations := Declarations(spec);
          if exists c :: c in declarations && c in seen {
            records := records[i := records[i].(status := Failed)];
            failed := failed + {i};
          } else if exists x :: x in spec.integrations && Disagrees(x, contracts) {
            records := records[i := records[i].(status := Failed)];
            failed := failed + {i};
          } else {
            seen := WithClaims(seen, declarations, i);
            contracts := WithContracts(contracts, spec.integrations);
          }
        }
        i := i + 1;
      }
    }

    /** `integration_provider` */
    method IntegrationProvider(id: string) returns (found: Option<(nat, IntegrationSpec)>)
      ensures found.Some? ==>
                var (i, x) := found.value;
                i < |records| && Offers(records[i], x) && x.id == id
      ensures found.None? ==> forall i, x :: 0 <= i < |records| && Offers(records[i], x) ==> x.id != id
    {
      for i := 0 to |records|
        invariant forall j, x :: 0 <= j < i && Offers(records[j], x) ==> x.id != id
      {
        if records[i].status.Active? && records[i].spec.Some? {
          var integrations := records[i].spec.value.integrations;
          for k := 0 to |integrations|
            invariant forall m :: 0 <= m < k ==> integrations[m].id != id
          {
            if integrations[k].id == id {
              return Some((i, integrations[k]));
            }
          }
        }
      }
      return None;
    }

    /** `browser_policy` */
    method BrowserPolicyOf(id: string) returns (found: Option<(nat, PolicySpec)>)
      ensures found.Some? ==>
                var (i, x) := found.value;
                i < |records| && Guards(records[i], x) && x.id == id
      ensures found.None? ==> forall i, x :: 0 <= i < |records| && Guards(records[i], x) ==> x.id != id
    {
      for i := 0 to |records|
        invariant forall j, x :: 0 <= j < i && Guards(records[j], x) ==> x.id != id
      {
        if records[i].status.Active? && records[i].spec.Some? {
          var policies := records[i].spec.value.policies;
          for k := 0 to |policies|
            invariant forall m :: 0 <= m < k ==> policies[m].id != id
          {
            if policies[k].id == id {
              return Some((i, policies[k]));
            }
          }
        }
      }
      return None;
    }

    /** `browser_policy_for_credential_scope` */
    method BrowserPolicyForCredentialScope(scope: string) returns (found: Option<(nat, PolicySpec)>)
      ensures found.Some? ==>
                var (i, x) := found.value;
                i < |records| && Guards(records[i], x) && x.credentialScope == Some(scope)
      ensures found.None? ==>
                forall i, x :: 0 <= i < |records| && Guards(records[i], x) ==> x.credentialScope != Some(scope)
    {
      for i := 0 to |records|
        invariant forall j, x :: 0 <= j < i && Guards(records[j], x) ==> x.credentialScope != Some(scope)
      {
        if records[i].status.Active? && records[i].spec.Some? {
          var policies := records[i].spec.value.policies;
          for k := 0 to |policies|
            invariant forall m :: 0 <= m < k ==> policies[m].credentialScope != Some(scope)
          {
            if policies[k].credentialScope == Some(scope) {
              return Some((i, policies[k]));
            }
          }
        }
      }
      return None;
    }

    /** `package_resolver`, up to the record whose resolver is loaded: the longest prefix that matches. */
    method PackageResolver(packageId: string) returns (found: Option<(string, nat)>)
      ensures found.None? ==> forall p, i :: Serves(records, p, i) ==> !StartsWith(packageId, p)
      ensures found.Some? ==>
        var (prefix, i) := found.value;
        && Serves(records, prefix, i) && StartsWith(packageId, prefix)
        && records[i].status.Active? && records[i].spec.value.resolver.Some? && prefix in records[i].spec.value.prefixes
        && forall p, j :: Serves(records, p, j) && StartsWith(packageId, p) ==>
             |p| < |prefix| || (|p| == |prefix| && i <= j)
    {
      hide SortByLength, Providers;
      var providers := SortByLength(Providers(records, |records|));
      ProvidersAscend(records, |records|);
      SortKeeps(Providers(records, |records|));
      forall p: string, i: nat ensures (p, i) in providers <==> Serves(records, p, i) {
        ProvidersServe(records, |records|, p, i);
      }
      for k := 0 to |providers|
        invariant forall m :: 0 <= m < k ==> !StartsWith(packageId, providers[m].0)
      {
        if StartsWith(packageId, providers[k].0) {
          forall p: string, j: nat | Serves(records, p, j) && StartsWith(packageId, p)
            ensures |p| < |providers[k].0| || (|p| == |providers[k].0| && providers[k].1 <= j)
          {
            assert (p, j) in providers;
            var m :| 0 <= m < |providers| && providers[m] == (p, j);
          }
          return Some(providers[k]);
        }
      }
      forall p: string, i: nat | Serves(records, p, i) ensures !StartsWith(packageId, p) {
        assert (p, i) in providers;
      }
      return None;
    }
  }

  // ---- lookups ----

  /** The record is active and declares the integration. */
  predicate Offers(r: Record, x: IntegrationSpec) {
    r.status.Active? && r.spec.Some? && x in r.spec.value.integrations
  }

  /** The record is active and declares the browser policy. */
  predicate Guards(r: Record, x: PolicySpec) {
    r.status.Active? && r.spec.Some? && x in r.spec.value.policies
  }

  predicate CanResolve(r: Record) {
    r.status.Active? && r.spec.Some? && r.spec.value.resolver.Some?
  }

  /** Record i is active, has a resolver, and declares the package prefix p. */
  predicate Serves(records: seq<Record>, p: string, i: nat) {
    i < |records| && CanResolve(records[i]) && p in records[i].spec.value.prefixes
  }

  function Pairs(prefixes: seq<string>, i: nat): (items: seq<(string, nat)>) {
    seq(|prefixes|, k requires 0 <= k < |prefixes| => (prefixes[k], i))
  }

  /** The (prefix, record) pairs of those that can resolve among the first n records, in order. */
  function Providers(records: seq<Record>, n: nat): (items: seq<(string, nat)>)
    requires n <= |records|
  {
    if n == 0 then []
    else Providers(records, n - 1)
         + if CanResolve(records[n - 1]) then Pairs(records[n - 1].spec.value.prefixes, n - 1) else []
  }

  lemma {:induction false} ProvidersServe(records: seq<Record>, n: nat, p: string, i: nat)
    requires n <= |records|
    ensures (p, i) in Providers(records, n) <==> i < n && Serves(records, p, i)
  {
    if n > 0 {
      ProvidersServe(records, n - 1, p, i);
      if CanResolve(records[n - 1]) {
        var prefixes := records[n - 1].spec.value.prefixes;
        var pairs := Pairs(prefixes, n - 1);
        assert forall k | 0 <= k < |prefixes| :: pairs[k] == (prefixes[k], n - 1);
        if p in prefixes {
          var k :| 0 <= k < |prefixes| && prefixes[k] == p;
          assert pairs[k] == (p, n - 1);
        }
      }
    }
  }

  function InsertByLength(s: seq<(string, nat)>, x: (string, nat)): (items: seq<(string, nat)>) {
    if s != [] && |s[0].0| >= |x.0| then [s[0]] + InsertByLength(s[1..], x) else [x] + s
  }

  /** `sorted(..., key=len of the prefix, reverse=True)`: stable, longest first. */
  function SortByLength(s: seq<(string, nat)>): (items: seq<(string, nat)>) {
    if s == [] then [] else InsertByLength(SortByLength(s[..|s| - 1]), s[|s| - 1])
  }

  predicate Precedes(x: (string, nat), y: (string, nat)) {
    |x.0| > |y.0| || (|x.0| == |y.0| && x.1 <= y.1)
  }

  /** The longer first, and of equally long ones the earlier record. */
  predicate LongestFirst(s: seq<(string, nat)>) {
    forall i, j :: 0 <= i < j < |s| ==> Precedes(s[i], s[j])
  }

  lemma {:induction false} InsertKeeps(s: seq<(string, nat)>, x: (string, nat))
    requires LongestFirst(s) && forall y :: y in s ==> y.1 <= x.1
    ensures LongestFirst(InsertByLength(s, x)) && forall y :: y in InsertByLength(s, x) <==> y == x || y in s
  {
    if s != [] {
      assert s == [s[0]] + s[1..];
      forall y | y in s[1..] ensures Precedes(s[0], y) {
        var m :| 0 <= m < |s[1..]| && s[1..][m] == y;
        assert s[m + 1] == y;
      }
      if |s[0].0| >= |x.0| {
        InsertKeeps(s[1..], x);
        var t := InsertByLength(s[1..], x);
        forall j | 0 <= j < |t| ensures Precedes(s[0], t[j]) {
          assert t[j] in t;
        }
      }
    }
  }

  lemma {:induction false} SortKeeps(s: seq<(string, nat)>)
    requires Ascending(s)
    ensures LongestFirst(SortByLength(s)) && forall y :: y in SortByLength(s) <==> y in s
  {
    if s != [] {
      SortKeeps(s[..|s| - 1]);
      InsertKeeps(SortByLength(s[..|s| - 1]), s[|s| - 1]);
      assert s == s[..|s| - 1] + [s[|s| - 1]];
    }
  }

  predicate Ascending(s: seq<(string, nat)>) {
    forall i, j :: 0 <= i < j < |s| ==> s[i].1 <= s[j].1
  }

  lemma {:induction false} ProvidersAscend(records: seq<Record>, n: nat)
    requires n <= |records|
    ensures Ascending(Providers(records, n)) && forall y :: y in Providers(records, n) ==> y.1 < n
  {
    if n > 0 {
      ProvidersAscend(records, n - 1);
      var before, all := Providers(records, n - 1), Providers(records, n);
      forall i | 0 <= i < |before| ensures before[i].1 < n - 1 {
        assert before[i] in before;
      }
      assert forall i | |before| <= i < |all| :: all[i].1 == n - 1;
    }
  }

  /** First match among the active records: `integration_provider`, `browser_policy`, and the others like them. */
  function FirstActive(records: seq<Record>, c: Claim, from: nat): (r: Option<nat>)
    requires from <= |records|
    ensures r.Some? ==> from <= r.value < |records| && records[r.value].status.Active? && Claims(records[r.value], c)
    ensures r.None? ==> forall i :: from <= i < |records| && records[i].status.Active? ==> !Claims(records[i], c)
    decreases |records| - from
  {
    if from == |records| then None
    else if records[from].status.Active? && Claims(records[from], c) then Some(from)
    else FirstActive(records, c, from + 1)
  }

  // ---- what the pass achieves ----

  /** Record i is installed and has kept its claims. */
  predicate Survives(records: seq<Record>, i: nat, failed: set<nat>) {
    i < |records| && IsInstalled(records[i]) && i !in failed
  }

  /** The claim table lists exactly the claims of the survivors, each under the only survivor that makes it. */
  ghost predicate Owned(records: seq<Record>, n: nat, t: Tables) {
    && (forall i :: i in t.failed ==> i < n && i < |records| && IsInstalled(records[i]))
    && (forall c :: c in t.owners ==>
          t.owners[c] < n && Survives(records, t.owners[c], t.failed) && Claims(records[t.owners[c]], c))
    && (forall i, c :: 0 <= i < n && Survives(records, i, t.failed) && Claims(records[i], c)
          ==> c in t.owners && t.owners[c] == i)
  }

  lemma VisitOwns(records: seq<Record>, i: nat, t: Tables)
    requires i < |records| && Owned(records, i, t)
    ensures Owned(records, i + 1, Visit(records, i, t))
  {
    hide Declarations, WithContracts, ContractConflict, ClaimConflict, WithClaims;
    var t' := Visit(records, i, t);
    if IsInstalled(records[i]) && !ClaimConflict(records[i].spec.value, t)
        && !ContractConflict(records[i].spec.value, t) {
      ClaimsAdded(records[i].spec.value, t, i);
      forall k: nat, c | k < i + 1 && Survives(records, k, t'.failed) && Claims(records[k], c)
        ensures c in t'.owners && t'.owners[c] == k
      {
        if k < i {
          assert c in t.owners && t.owners[c] == k;
        }
      }
    }
  }

  lemma ClaimsAdded(spec: Spec, t: Tables, i: nat)
    requires !ClaimConflict(spec, t)
    ensures var owners := WithClaims(t.owners, Declarations(spec), i);
            && (forall c :: c in t.owners ==> c in owners && owners[c] == t.owners[c] && c !in Declarations(spec))
            && (forall c :: c in Declarations(spec) ==> c in owners && owners[c] == i)
            && (forall c :: c in owners ==> c in t.owners || c in Declarations(spec))
  {
    hide Declarations;
  }

  lemma {:induction false} PassOwns(records: seq<Record>, n: nat)
    requires n <= |records|
    ensures Owned(records, n, After(records, n))
  {
    hide Visit, Owned;
    if n == 0 {
      NothingOwned(records);
    } else {
      PassOwns(records, n - 1);
      VisitOwns(records, n - 1, After(records, n - 1));
    }
  }

  lemma NothingOwned(records: seq<Record>)
    ensures Owned(records, 0, Tables(map[], map[], {}))
  {
  }

  /** Whether a record failed is settled when it is visited. */
  lemma {:induction false} FailedSettled(records: seq<Record>, j: nat, n: nat)
    requires j < n <= |records|
    ensures j in After(records, n).failed <==> j in After(records, j + 1).failed
    ensures j !in After(records, j).failed
  {
    PassOwns(records, j);
    if j + 1 < n {
      FailedSettled(records, j, n - 1);
    }
  }

  /** The tables are functional: no two surviving modules claim the same dashboard, namespace, prefix, entity
      type, integration, action, policy or credential scope. */
  lemma NoTwoOwners(records: seq<Record>, i: nat, j: nat, c: Claim)
    requires i < |records| && j < |records| && i != j
    requires var failed := After(records, |records|).failed;
             Survives(records, i, failed) && Survives(records, j, failed)
    ensures !(Claims(records[i], c) && Claims(records[j], c))
  {
    hide After, Declarations;
    PassOwns(records, |records|);
    if Claims(records[i], c) && Claims(records[j], c) {
      assert After(records, |records|).owners[c] == i;
      assert false;
    }
  }

  /** The same on the declared fields: no two surviving modules share a dashboard URL, a storage namespace, a package
      prefix, an entity type, an integration id, a UI action, a browser policy or a credential scope. */
  lemma SurvivorsShareNothing(records: seq<Record>, i: nat, j: nat)
    requires i < |records| && j < |records| && i != j
    requires var failed := After(records, |records|).failed;
             Survives(records, i, failed) && Survives(records, j, failed)
    ensures var a, b := records[i].spec.value, records[j].spec.value;
            && (a.dashboardUrl.Some? ==> a.dashboardUrl != b.dashboardUrl)
            && (forall v :: v in a.namespaces ==> v !in b.namespaces)
            && (forall v :: v in a.prefixes ==> v !in b.prefixes)
            && (forall v :: v in a.entityTypes ==> v !in b.entityTypes)
            && (forall x, y :: x in a.integrations && y in b.integrations ==> x.id != y.id)
            && (forall v :: v in a.uiActions ==> v !in b.uiActions)
            && (forall x, y :: x in a.policies && y in b.policies ==> x.id != y.id)
            && (forall x, y :: x in a.policies && y in b.policies && x.credentialScope.Some? ==>
                  x.credentialScope != y.credentialScope)
  {
    hide After, Declarations;
    var a, b := records[i].spec.value, records[j].spec.value;
    forall kind, v ensures !(Declares(a, kind, v) && Declares(b, kind, v)) {
      NoTwoOwners(records, i, j, Claim(kind, v));
      ClaimsExactly(records[i], kind, v);
      ClaimsExactly(records[j], kind, v);
    }
    DisjointFields(a, b);
  }

  lemma DisjointFields(a: Spec, b: Spec)
    requires forall kind, v :: !(Declares(a, kind, v) && Declares(b, kind, v))
    ensures a.dashboardUrl.Some? ==> a.dashboardUrl != b.dashboardUrl
    ensures forall v :: v in a.namespaces ==> v !in b.namespaces
    ensures forall v :: v in a.prefixes ==> v !in b.prefixes
    ensures forall v :: v in a.entityTypes ==> v !in b.entityTypes
    ensures forall x, y :: x in a.integrations && y in b.integrations ==> x.id != y.id
    ensures forall v :: v in a.uiActions ==> v !in b.uiActions
    ensures forall x, y :: x in a.policies && y in b.policies ==> x.id != y.id
    ensures forall x, y :: x in a.policies && y in b.policies && x.credentialScope.Some? ==>
              x.credentialScope != y.credentialScope
  {
    if a.dashboardUrl.Some? {
      assert Declares(a, DashboardUrl, a.dashboardUrl.value) == true;
    }
    forall v | v in a.namespaces ensures v !in b.namespaces { assert Declares(a, StorageNamespace, v); }
    forall v | v in a.prefixes ensures v !in b.prefixes { assert Declares(a, PackagePrefix, v); }
    forall v | v in a.entityTypes ensures v !in b.entityTypes { assert Declares(a, EntityType, v); }
    forall v | v in a.uiActions ensures v !in b.uiActions { assert Declares(a, UiAction, v); }
    forall x, y | x in a.integrations && y in b.integrations ensures x.id != y.id {
      assert Declares(a, Integration, x.id);
    }
    forall x, y | x in a.policies && y in b.policies ensures x.id != y.id {
      assert Declares(a, BrowserPolicy, x.id);
    }
    forall x, y | x in a.policies && y in b.policies && x.credentialScope.Some?
      ensures x.credentialScope != y.credentialScope
    {
      assert Declares(a, CredentialScope, x.credentialScope.value);
    }
  }

  /** Two integrations of one contract agree, in one module. */
  predicate Consistent(spec: Spec) {
    ConsistentList(spec.integrations)
  }

  predicate ConsistentList(integrations: seq<IntegrationSpec>) {
    forall x, y | x in integrations && y in integrations && x.contract.Some? && x.contract == y.contract
      :: x.schema == y.schema
  }

  predicate Implements(r: Record, x: IntegrationSpec, contract: string) {
    r.spec.Some? && x in r.spec.value.integrations && x.contract == Some(contract)
  }

  /** Some survivor among the first n gave the contract its schema. */
  ghost predicate Known(records: seq<Record>, n: nat, t: Tables, k: string)
    requires k in t.contracts
  {
    exists i: nat, x :: i < n && Survives(records, i, t.failed) && Implements(records[i], x, k)
           && x.schema == t.contracts[k]
  }

  predicate Heeds(x: IntegrationSpec, k: string, t: Tables) {
    k in t.contracts && t.contracts[k] == x.schema
  }

  /** Every survivor agrees with the contract table. */
  ghost predicate Agreed(records: seq<Record>, n: nat, t: Tables) {
    && (forall k :: k in t.contracts ==> Known(records, n, t, k))
    && (forall i: nat, x, k :: i < n && Survives(records, i, t.failed) && Implements(records[i], x, k)
          ==> Heeds(x, k, t))
  }

  lemma {:induction false} WithContractsAdds(contracts: map<string, Schema>, integrations: seq<IntegrationSpec>)
    requires ConsistentList(integrations) && forall x :: x in integrations ==> !Disagrees(x, contracts)
    ensures var result := WithContracts(contracts, integrations);
            && (forall k :: k in contracts ==> k in result && result[k] == contracts[k])
            && (forall x :: x in integrations && x.contract.Some? ==>
                  x.contract.value in result && result[x.contract.value] == x.schema)
            && (forall k :: k in result && k !in contracts ==>
                  exists x :: x in integrations && x.contract == Some(k) && x.schema == result[k])
    decreases |integrations|
  {
    if integrations != [] {
      var x := integrations[0];
      assert x in integrations && forall y :: y in integrations[1..] ==> y in integrations;
      var contracts' := if x.contract.Some? then contracts[x.contract.value := x.schema] else contracts;
      WithContractsAdds(contracts', integrations[1..]);
      assert integrations == [x] + integrations[1..];
    }
  }

  lemma VisitAgrees(records: seq<Record>, i: nat, t: Tables)
    requires i < |records| && Agreed(records, i, t) && (forall k :: k in t.failed ==> k < i)
    requires Survives(records, i, Visit(records, i, t).failed) ==> Consistent(records[i].spec.value)
    ensures Agreed(records, i + 1, Visit(records, i, t))
  {
    hide ClaimConflict, WithClaims, WithContracts, Consistent, ConsistentList;
    var t' := Visit(records, i, t);
    assert forall k: nat :: k < i ==> (Survives(records, k, t'.failed) <==> Survives(records, k, t.failed));
    var adds := Survives(records, i, t'.failed);
    if adds {
      ConsistentMeans(records[i].spec.value);
      WithContractsAdds(t.contracts, records[i].spec.value.integrations);
    }
    forall k | k in t'.contracts ensures Known(records, i + 1, t', k) {
      if k in t.contracts {
        assert Known(records, i, t, k);
        var m: nat, x :| m < i && Survives(records, m, t.failed) && Implements(records[m], x, k)
                        && x.schema == t.contracts[k];
        assert Survives(records, m, t'.failed);
      } else {
        var x :| x in records[i].spec.value.integrations && x.contract == Some(k) && x.schema == t'.contracts[k];
        assert Implements(records[i], x, k);
      }
    }
    forall m: nat, x, k | m < i + 1 && Survives(records, m, t'.failed) && Implements(records[m], x, k)
      ensures Heeds(x, k, t')
    {
      if m < i {
        assert Survives(records, m, t.failed);
        assert Heeds(x, k, t);
      }
    }
  }

  lemma ConsistentMeans(spec: Spec)
    requires Consistent(spec)
    ensures ConsistentList(spec.integrations)
  {
  }

  /** Every module that keeps its claims is consistent in itself; the pass does not check that. */
  ghost predicate SurvivorsConsistent(records: seq<Record>) {
    forall i: nat :: Survives(records, i, After(records, |records|).failed) ==> Consistent(records[i].spec.value)
  }

  lemma {:induction false} PassAgrees(records: seq<Record>, n: nat)
    requires n <= |records| && SurvivorsConsistent(records)
    ensures Agreed(records, n, After(records, n))
  {
    hide Visit, Agreed, Consistent;
    if n == 0 {
      NothingAgreed(records);
    } else {
      PassAgrees(records, n - 1);
      PassOwns(records, n - 1);
      FailedSettled(records, n - 1, |records|);
      VisitAgrees(records, n - 1, After(records, n - 1));
    }
  }

  lemma NothingAgreed(records: seq<Record>)
    ensures Agreed(records, 0, Tables(map[], map[], {}))
  {
  }

  /** Any two integrations of one contract among the survivors have the same schema. */
  ghost predicate ContractsFunctional(records: seq<Record>) {
    var failed := After(records, |records|).failed;
    forall i: nat, j: nat, x, y, k | Survives(records, i, failed) && Survives(records, j, failed)
                                     && Implements(records[i], x, k) && Implements(records[j], y, k)
      :: x.schema == y.schema
  }

  /** The contract table is functional exactly if no survivor contradicts itself: a module with two schemas for
      one contract passes, and the later of the two becomes what others are held to. */
  lemma ContractsAgreeExactly(records: seq<Record>)
    ensures ContractsFunctional(records) <==> SurvivorsConsistent(records)
  {
    hide After, Agreed;
    var failed := After(records, |records|).failed;
    if SurvivorsConsistent(records) {
      PassAgrees(records, |records|);
      forall i: nat, j: nat, x, y, k | Survives(records, i, failed) && Survives(records, j, failed)
                                       && Implements(records[i], x, k) && Implements(records[j], y, k)
        ensures x.schema == y.schema
      {
        AgreedMeans(records, After(records, |records|), i, j, x, y, k);
      }
    } else {
      var i: nat :| Survives(records, i, failed) && !Consistent(records[i].spec.value);
      var spec := records[i].spec.value;
      var x, y :| x in spec.integrations && y in spec.integrations && x.contract.Some? && x.contract == y.contract
                 && x.schema != y.schema;
      assert Implements(records[i], x, x.contract.value) && Implements(records[i], y, x.contract.value);
    }
  }

  /** Every installed module is consistent in itself, which can be checked before the pass. */
  ghost predicate ModulesConsistent(records: seq<Record>) {
    forall i: nat :: i < |records| && IsInstalled(records[i]) ==> Consistent(records[i].spec.value)
  }

  /** So the table is functional whenever every installed module is consistent. */
  lemma ConsistentModulesAgree(records: seq<Record>)
    requires ModulesConsistent(records)
    ensures SurvivorsConsistent(records) && ContractsFunctional(records)
  {
    hide After, Consistent, ContractsFunctional;
    ContractsAgreeExactly(records);
  }

  function Torn(contract: string): (r: Record) {
    Record("torn", Some(Spec(None, [], [], None, [],
                             [IntegrationSpec("one", Some(contract), Schema("a", "b")),
                              IntegrationSpec("two", Some(contract), Schema("c", "d"))], [], [])), Active)
  }

  /** An input that shows it: one module that gives one contract two schemas survives the pass. */
  lemma TornModuleSurvives(contract: string)
    ensures var records := [Torn(contract)];
            Survives(records, 0, After(records, 1).failed) && !Consistent(records[0].spec.value)
            && !ContractsFunctional(records)
  {
    hide Declarations, WithContracts, WithClaims;
    var records := [Torn(contract)];
    var xs := records[0].spec.value.integrations;
    assert After(records, 0) == Tables(map[], map[], {});
    assert xs[0] in xs && xs[1] in xs && xs[0].schema.request[0] == 'a' && xs[1].schema.request[0] == 'c';
    assert Implements(records[0], xs[0], contract) && Implements(records[0], xs[1], contract);
  }

  lemma AgreedMeans(records: seq<Record>, t: Tables, i: nat, j: nat, x: IntegrationSpec, y: IntegrationSpec, k: string)
    requires Agreed(records, |records|, t)
    requires Survives(records, i, t.failed) && Survives(records, j, t.failed)
    requires Implements(records[i], x, k) && Implements(records[j], y, k)
    ensures x.schema == y.schema
  {
    assert Heeds(x, k, t) && Heeds(y, k, t);
  }

  /** A reason to fail: a survivor before it has the claim, or another schema for the contract. */
  ghost predicate ClashesWith(records: seq<Record>, i: nat, j: nat)
    requires i < |records| && j < |records|
  {
    || (exists c :: Claims(records[i], c) && Claims(records[j], c))
    || (exists x, y, k :: Implements(records[i], x, k) && Implements(records[j], y, k) && x.schema != y.schema)
  }

  /** The earliest keeps the claim: an installed module fails exactly if it clashes with a surviving module
      before it in the order; a failed one stands in nobody's way. */
  lemma FailsExactly(records: seq<Record>, j: nat)
    requires j < |records| && IsInstalled(records[j]) && SurvivorsConsistent(records)
    ensures var failed := After(records, |records|).failed;
            j in failed <==> exists i: nat :: i < j && Survives(records, i, failed) && ClashesWith(records, i, j)
  {
    hide Agreed, Owned, Declarations, Consistent, WithContracts, WithClaims;
    var t, failed := After(records, j), After(records, |records|).failed;
    PassOwns(records, j);
    PassAgrees(records, j);
    FailedSettled(records, j, |records|);
    SurvivorsSettled(records, j);
    var spec := records[j].spec.value;
    ConflictMeans(records, j, t);
    assert j in failed <==> ClaimConflict(spec, t) || ContractConflict(spec, t);
  }

  /** The same under a condition that can be checked before the pass. */
  lemma FailsExactlyIfConsistent(records: seq<Record>, j: nat)
    requires j < |records| && IsInstalled(records[j]) && ModulesConsistent(records)
    ensures var failed := After(records, |records|).failed;
            j in failed <==> exists i: nat :: i < j && Survives(records, i, failed) && ClashesWith(records, i, j)
  {
    hide After, ModulesConsistent, SurvivorsConsistent, ContractsFunctional, ClashesWith, Survives;
    ConsistentModulesAgree(records);
    FailsExactly(records, j);
  }

  /** Some survivor stands behind every entry of the contract table. */
  ghost predicate AllKnown(records: seq<Record>, n: nat, t: Tables) {
    forall k :: k in t.contracts ==> Known(records, n, t, k)
  }

  lemma {:induction false} WithContractsKnown(contracts: map<string, Schema>, integrations: seq<IntegrationSpec>,
                                           k: string)
    requires k in WithContracts(contracts, integrations)
    ensures var schema := WithContracts(contracts, integrations)[k];
            || (k in contracts && contracts[k] == schema)
            || exists x :: x in integrations && x.contract == Some(k) && x.schema == schema
    decreases |integrations|
  {
    if integrations != [] {
      var x := integrations[0];
      var contracts' := if x.contract.Some? then contracts[x.contract.value := x.schema] else contracts;
      assert integrations == [x] + integrations[1..];
      WithContractsKnown(contracts', integrations[1..], k);
    }
  }

  lemma VisitKnows(records: seq<Record>, i: nat, t: Tables)
    requires i < |records| && AllKnown(records, i, t) && (forall k :: k in t.failed ==> k < i)
    ensures AllKnown(records, i + 1, Visit(records, i, t))
  {
    hide ClaimConflict, ContractConflict, WithClaims, WithContracts;
    var t' := Visit(records, i, t);
    forall k | k in t'.contracts ensures Known(records, i + 1, t', k) {
      if k in t.contracts && t'.contracts[k] == t.contracts[k] {
        assert Known(records, i, t, k);
        var m: nat, x :| m < i && Survives(records, m, t.failed) && Implements(records[m], x, k)
                         && x.schema == t.contracts[k];
        assert Survives(records, m, t'.failed);
      } else {
        WithContractsKnown(t.contracts, records[i].spec.value.integrations, k);
        var x :| x in records[i].spec.value.integrations && x.contract == Some(k) && x.schema == t'.contracts[k];
        assert Survives(records, i, t'.failed) && Implements(records[i], x, k);
      }
    }
  }

  lemma {:induction false} PassKnows(records: seq<Record>, n: nat)
    requires n <= |records|
    ensures AllKnown(records, n, After(records, n))
  {
    hide Visit, AllKnown;
    if n == 0 {
      NothingKnown(records);
    } else {
      PassKnows(records, n - 1);
      PassOwns(records, n - 1);
      VisitKnows(records, n - 1, After(records, n - 1));
    }
  }

  lemma NothingKnown(records: seq<Record>)
    ensures AllKnown(records, 0, Tables(map[], map[], {}))
  {
  }

  /** Whatever the modules declare: a module that fails clashes with a survivor before it, and one that shares a
      claim with a survivor before it fails. */
  lemma FailureHasCause(records: seq<Record>, j: nat)
    requires j < |records| && IsInstalled(records[j])
    ensures var failed := After(records, |records|).failed;
            && (j in failed ==> exists i: nat :: i < j && Survives(records, i, failed) && ClashesWith(records, i, j))
            && ((exists i: nat, c :: i < j && Survives(records, i, failed) && Claims(records[i], c)
                     && Claims(records[j], c))
                ==> j in failed)
  {
    hide Owned, AllKnown, Declarations, WithContracts, WithClaims, ClashesWith;
    var t, failed := After(records, j), After(records, |records|).failed;
    PassOwns(records, j);
    PassKnows(records, j);
    FailedSettled(records, j, |records|);
    SurvivorsSettled(records, j);
    var spec := records[j].spec.value;
    if ClaimConflict(spec, t) {
      var i := ClaimClash(records, j, t);
    } else if ContractConflict(spec, t) {
      var i := ContractClash(records, j, t);
    }
    if i: nat, c :| i < j && Survives(records, i, failed) && Claims(records[i], c) && Claims(records[j], c) {
      SharedClaimConflicts(records, i, j, t, c);
    }
  }

  lemma SharedClaimConflicts(records: seq<Record>, i: nat, j: nat, t: Tables, c: Claim)
    requires i < j < |records| && IsInstalled(records[j]) && Owned(records, j, t) && Survives(records, i, t.failed)
    requires Claims(records[i], c) && Claims(records[j], c)
    ensures ClaimConflict(records[j].spec.value, t)
  {
    hide Declarations;
    assert c in Declarations(records[j].spec.value) && c in t.owners;
  }

  lemma SurvivorsSettled(records: seq<Record>, j: nat)
    requires j < |records|
    ensures forall i: nat :: i < j ==>
              (Survives(records, i, After(records, j).failed)
               <==> Survives(records, i, After(records, |records|).failed))
  {
    forall i: nat | i < j ensures i in After(records, j).failed <==> i in After(records, |records|).failed {
      FailedSettled(records, i, j);
      FailedSettled(records, i, |records|);
    }
  }

  lemma ConflictMeans(records: seq<Record>, j: nat, t: Tables)
    requires j < |records| && IsInstalled(records[j]) && Owned(records, j, t) && Agreed(records, j, t)
    ensures ClaimConflict(records[j].spec.value, t) || ContractConflict(records[j].spec.value, t)
            <==> exists i: nat :: i < j && Survives(records, i, t.failed) && ClashesWith(records, i, j)
  {
    hide Declarations, Owned, Agreed, ClaimConflict, ContractConflict, ClashesWith, Survives;
    var spec := records[j].spec.value;
    if ClaimConflict(spec, t) {
      var i := ClaimClash(records, j, t);
    }
    if ContractConflict(spec, t) {
      AgreedIsKnown(records, j, t);
      var i := ContractClash(records, j, t);
    }
    if i: nat :| i < j && Survives(records, i, t.failed) && ClashesWith(records, i, j) {
      ClashConflicts(records, i, j, t);
    }
  }

  lemma AgreedIsKnown(records: seq<Record>, n: nat, t: Tables)
    requires Agreed(records, n, t)
    ensures AllKnown(records, n, t)
  {
  }

  lemma ClaimClash(records: seq<Record>, j: nat, t: Tables) returns (i: nat)
    requires j < |records| && IsInstalled(records[j]) && Owned(records, j, t) && ClaimConflict(records[j].spec.value, t)
    ensures i < j && Survives(records, i, t.failed) && ClashesWith(records, i, j)
  {
    hide Declarations;
    var c :| c in Declarations(records[j].spec.value) && c in t.owners;
    i := t.owners[c];
    assert Claims(records[j], c) && Claims(records[i], c);
  }

  lemma ContractClash(records: seq<Record>, j: nat, t: Tables) returns (i: nat)
    requires j < |records| && IsInstalled(records[j]) && AllKnown(records, j, t)
    requires ContractConflict(records[j].spec.value, t)
    ensures i < j && Survives(records, i, t.failed) && ClashesWith(records, i, j)
  {
    var y :| y in records[j].spec.value.integrations && Disagrees(y, t.contracts);
    var k := y.contract.value;
    assert Known(records, j, t, k);
    var m: nat, x :| m < j && Survives(records, m, t.failed) && Implements(records[m], x, k)
                      && x.schema == t.contracts[k];
    i := m;
    assert Implements(records[j], y, k);
  }

  lemma ClashConflicts(records: seq<Record>, i: nat, j: nat, t: Tables)
    requires i < j < |records| && IsInstalled(records[j]) && Owned(records, j, t) && Agreed(records, j, t)
    requires Survives(records, i, t.failed) && ClashesWith(records, i, j)
    ensures ClaimConflict(records[j].spec.value, t) || ContractConflict(records[j].spec.value, t)
  {
    hide Declarations;
    if c :| Claims(records[i], c) && Claims(records[j], c) {
      assert c in Declarations(records[j].spec.value) && c in t.owners;
    } else {
      var x, y, k :| Implements(records[i], x, k) && Implements(records[j], y, k) && x.schema != y.schema;
      assert Heeds(x, k, t);
      assert Disagrees(y, t.contracts);
    }
  }

  // ---- lookups on a validated registry ----

  lemma ActiveSurvives(records: seq<Record>, i: nat)
    requires i < |records| && Validated(records)[i].status.Active? && records[i].spec.Some?
    ensures Survives(records, i, After(records, |records|).failed) && Validated(records)[i] == records[i]
  {
  }

  /** First match is the only match: whichever active module declares the entry is the one that is found, and no
      failed module is. */
  lemma FirstMatchIsOnlyMatch(records: seq<Record>, c: Claim, i: nat)
    requires i < |records|
    ensures var v := Validated(records);
            FirstActive(v, c, 0) == Some(i) <==> v[i].status.Active? && Claims(v[i], c)
  {
    hide After, Declarations;
    var v := Validated(records);
    var found := FirstActive(v, c, 0);
    if v[i].status.Active? && Claims(v[i], c) {
      ActiveSurvives(records, i);
      ActiveSurvives(records, found.value);
      if found.value != i {
        NoTwoOwners(records, i, found.value, c);
      }
    }
  }

  /** No module declares two integrations, or two policies, of one id: the constructor of a specification sees to it. */
  predicate NoOwnRepeats(spec: Spec) {
    && (forall x, y :: x in spec.integrations && y in spec.integrations && x.id == y.id ==> x == y)
    && (forall x, y :: x in spec.policies && y in spec.policies && x.id == y.id ==> x == y)
  }

  /** On a validated registry the lookups have one answer at most: whoever offers an integration or a policy of that
      id is the module that is found, with the entry that is found; for a credential scope, the module. */
  lemma LookupsAreUnique(records: seq<Record>, i: nat, j: nat)
    requires i < |records| && j < |records|
    requires forall r :: r in records && r.spec.Some? ==> NoOwnRepeats(r.spec.value)
    ensures var v := Validated(records);
            && (forall x, y :: Offers(v[i], x) && Offers(v[j], y) && x.id == y.id ==> i == j && x == y)
            && (forall x, y :: Guards(v[i], x) && Guards(v[j], y) && x.id == y.id ==> i == j && x == y)
            && (forall x, y ::
                  Guards(v[i], x) && Guards(v[j], y)
                  && x.credentialScope.Some? && x.credentialScope == y.credentialScope
                  ==> i == j)
  {
    hide After, NoOwnRepeats;
    var v := Validated(records);
    if v[i].status.Active? && v[j].status.Active? && records[i].spec.Some? && records[j].spec.Some? {
      ActiveSurvives(records, i);
      ActiveSurvives(records, j);
      if i != j {
        SurvivorsShareNothing(records, i, j);
      } else {
        OwnEntries(records[i].spec.value);
      }
    }
  }

  lemma OwnEntries(spec: Spec)
    requires NoOwnRepeats(spec)
    ensures forall x, y :: x in spec.integrations && y in spec.integrations && x.id == y.id ==> x == y
    ensures forall x, y :: x in spec.policies && y in spec.policies && x.id == y.id ==> x == y
  {
  }

  /** What the pass does to a record: only its status can change, only to failed, and only if it is installed, that
      is, declared and active, disabled or failed. */
  lemma PassMarks(records: seq<Record>, i: nat)
    requires i < |records|
    ensures var r, v := records[i], Validated(records)[i];
            && v.id == r.id && v.spec == r.spec
            && (v.status == r.status || (v.status == Failed && r.spec.Some?
                                         && (r.status.Active? || r.status.Disabled? || r.status.Failed?)))
    ensures records[i].spec.Some? && (records[i].status.Active? || records[i].status.Disabled?) ==>
              (Validated(records)[i].status == Failed <==> i in After(records, |records|).failed)
    ensures records[i].spec.Some? && records[i].status.Disabled? && i !in After(records, |records|).failed ==>
              Survives(records, i, After(records, |records|).failed)
  {
    hide After, Declarations;
    PassOwns(records, |records|);
  }

  /** The longest matching prefix is one prefix of one module, so the resolver does not depend on the order. */
  lemma LongestPrefixIsOne(records: seq<Record>, packageId: string, p: string, i: nat, q: string, j: nat)
    requires var v := Validated(records);
             && Serves(v, p, i) && Serves(v, q, j) && |p| == |q|
             && StartsWith(packageId, p) && StartsWith(packageId, q)
    ensures p == q && i == j
  {
    hide After;
    ActiveSurvives(records, i);
    ActiveSurvives(records, j);
    PrefixIsClaim(records[i], p);
    PrefixIsClaim(records[j], q);
    if i != j {
      NoTwoOwners(records, i, j, Claim(PackagePrefix, p));
    }
  }

  lemma PrefixIsClaim(r: Record, p: string)
    requires r.spec.Some? && p in r.spec.value.prefixes
    ensures Claims(r, Claim(PackagePrefix, p))
  {
    var spec := r.spec.value;
    var k :| 0 <= k < |spec.prefixes| && spec.prefixes[k] == p;
    assert Tagged(PackagePrefix, spec.prefixes)[k] == Claim(PackagePrefix, p);
    assert Claim(PackagePrefix, p) in Tagged(PackagePrefix, spec.prefixes);
  }
}
