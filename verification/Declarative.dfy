/** Validate, Diff and Apply as they are written, over a store whose calls may fail, Apply within a
    transaction. */
module Declarative {
  import opened Options
  import opened Sorting
  import opened DeclarativeModel

  datatype Lookup = Row(id: nat) | NoRows | LookupFailed

  class Database {
    var orgs: map<string, nat>
    var apps: map<(nat, string), App>
    var rules: seq<Rule>
    var keys: seq<nat>
    var nextID: nat
    const reliable: bool // whether no call ever fails

    constructor (s: Store, reliable: bool)
      ensures State() == s && this.reliable == reliable
    {
      orgs, apps, rules, keys, nextID := s.orgs, s.apps, s.rules, s.keys, s.nextID;
      this.reliable := reliable;
    }

    function State(): Store
      reads this
    {
      Store(orgs, apps, rules, keys, nextID)
    }

    method Fails() returns (fails: bool)
      ensures fails ==> !reliable
    {
      fails := *;
      fails := fails && !reliable;
    }

    method GetOrganisationByName(name: string) returns (res: Lookup)
      ensures res.Row? ==> name in orgs && res.id == orgs[name]
      ensures res.NoRows? ==> name !in orgs
      ensures res.LookupFailed? ==> !reliable
    {
      var fails := Fails();
      return if fails then LookupFailed else if name in orgs then Row(orgs[name]) else NoRows;
    }

    method CreateOrganisation(name: string) returns (id: Option<nat>)
      requires name !in orgs
      modifies this
      ensures id.Some? ==> State() == WithOrg(old(State()), name) && id.value == orgs[name]
      ensures id.None? ==> !reliable
    {
      var fails := Fails();
      if fails { return None; }
      orgs, nextID := orgs[name := nextID], nextID + 1;
      return Some(orgs[name]);
    }

    // The applications of one organisation, by name.
    method ListApplicationsByOrganisation(org: nat) returns (res: Option<map<string, App>>)
      ensures res.Some? ==> Mirrors(State(), org, res.value)
      ensures res.None? ==> !reliable
    {
      var fails := Fails();
      if fails { return None; }
      return Some(map n: string | n in (set k | k in apps.Keys && k.0 == org :: k.1) :: apps[(org, n)]);
    }

    method UpdateApplicationSettings(org: nat, name: string, settings: Settings) returns (app: Option<App>)
      requires (org, name) in apps
      modifies this`apps
      ensures app.Some? ==> app.value == old(apps)[(org, name)].(settings := settings)
                            && apps == old(apps)[(org, name) := app.value]
      ensures app.None? ==> !reliable
    {
      var fails := Fails();
      if fails { return None; }
      apps := apps[(org, name) := apps[(org, name)].(settings := settings)];
      return Some(apps[(org, name)]);
    }

    method CreateApplication(org: nat, name: string, settings: Settings) returns (app: Option<App>)
      requires (org, name) !in apps
      modifies this`apps, this`nextID
      ensures app.Some? ==> app.value == App(old(nextID), settings)
                            && apps == old(apps)[(org, name) := app.value] && nextID == old(nextID) + 1
      ensures app.None? ==> !reliable
    {
      var fails := Fails();
      if fails { return None; }
      apps, nextID := apps[(org, name) := App(nextID, settings)], nextID + 1;
      return Some(apps[(org, name)]);
    }

    method ListAlertingRulesByApplication(app: nat) returns (res: Option<seq<Rule>>)
      ensures res.Some? ==> forall r :: r in res.value <==> r in rules && r.app == app
      ensures res.None? ==> !reliable
    {
      var fails := Fails();
      if fails { return None; }
      var found := [];
      var i := 0;
      while i < |rules|
        invariant 0 <= i <= |rules| && forall r :: r in found <==> r in rules[..i] && r.app == app
      {
        assert rules[..i + 1] == rules[..i] + [rules[i]];
        if rules[i].app == app { found := found + [rules[i]]; }
        i := i + 1;
      }
      assert rules[..i] == rules;
      return Some(found);
    }

    method CreateAlertingRule(rule: Rule) returns (ok: bool)
      modifies this`rules
      ensures ok ==> rules == old(rules) + [rule]
      ensures !ok ==> !reliable
    {
      var fails := Fails();
      if fails { return false; }
      rules := rules + [rule];
      return true;
    }

    method HasAPIKeys(org: nat) returns (res: Option<bool>)
      ensures res.Some? ==> (res.value <==> org in keys)
      ensures res.None? ==> !reliable
    {
      var fails := Fails();
      return if fails then None else Some(org in keys);
    }

    method CreateAPIKey(org: nat) returns (ok: bool)
      modifies this`keys
      ensures ok ==> keys == old(keys) + [org]
      ensures !ok ==> !reliable
    {
      var fails := Fails();
      if fails { return false; }
      keys := keys + [org];
      return true;
    }

    method Rollback(s: Store)
      modifies this
      ensures State() == s
    {
      orgs, apps, rules, keys, nextID := s.orgs, s.apps, s.rules, s.keys, s.nextID;
    }
  }

  ghost predicate Mirrors(s: Store, org: nat, m: map<string, App>) {
    forall n :: MirrorsAt(s, org, m, n)
  }

  predicate MirrorsAt(s: Store, org: nat, m: map<string, App>, n: string) {
    (n in m <==> (org, n) in s.apps) && (n in m ==> m[n] == s.apps[(org, n)])
  }

  // ---- Validate --------------------------------------------------------------------------

  /** Exactly the valid configurations pass. */
  method Validate(cfg: Config) returns (ok: bool)
    ensures ok <==> ValidConfig(cfg)
  {
    if cfg.version != "1" && cfg.version != "v1" {
      return false;
    }
    var appSet;
    ok, appSet := ValidateApplications(cfg.applications);
    if !ok {
      return false;
    }
    ok := ValidateRules(appSet, cfg.alertRules);
    if !ok {
      return false;
    }
    ok := ValidatePlanes(cfg.planes);
  }

  method ValidateApplications(apps: seq<AppSpec>) returns (ok: bool, appSet: set<string>)
    ensures ok <==> (forall a <- apps :: NameOk(a.name)) && DistinctNames(apps)
    ensures ok ==> appSet == Names(apps)
  {
    hide NameOk;
    appSet := {};
    var i := 0;
    while i < |apps|
      invariant 0 <= i <= |apps|
      invariant appSet == Names(apps[..i]) && DistinctNames(apps[..i])
      invariant forall a <- apps[..i] :: NameOk(a.name)
    {
      var app := apps[i];
      assert apps[..i + 1] == apps[..i] + [app] && app in apps;
      NamesOfOneMore(apps[..i], app);
      if !NameOk(app.name) {
        return false, appSet;
      }
      if app.name in appSet {
        return false, appSet;
      }
      appSet := appSet + {app.name};
      i := i + 1;
    }
    assert apps[..i] == apps;
    ok := true;
  }

  method ValidateRules(appSet: set<string>, rules: seq<RuleSpec>) returns (ok: bool)
    ensures ok <==> forall r <- rules :: r.app != "" && RuleOk(appSet, r)
  {
    var j := 0;
    while j < |rules|
      invariant 0 <= j <= |rules|
      invariant forall r <- rules[..j] :: r.app != "" && RuleOk(appSet, r)
    {
      var rule := rules[j];
      assert rules[..j + 1] == rules[..j] + [rule] && rule in rules;
      if rule.app == "" || !RuleOk(appSet, rule) {
        return false;
      }
      j := j + 1;
    }
    assert rules[..j] == rules;
    return true;
  }

  method ValidatePlanes(planes: map<string, Plane>) returns (ok: bool)
    ensures ok <==> forall n :: n in planes ==> PlaneOk(planes[n])
  {
    var left := planes.Keys;
    while left != {}
      invariant left <= planes.Keys && forall n :: n in planes && n !in left ==> PlaneOk(planes[n])
      decreases |left|
    {
      var n :| n in left;
      left := left - {n};
      if !PlaneOk(planes[n]) {
        return false;
      }
    }
    return true;
  }

  // The data planes, ranged over in any order.
  method PlaneItems(cfg: Config) returns (items: seq<Item>)
    ensures IsPlanes(cfg, items)
  {
    items := [];
    var left := cfg.planes.Keys;
    while left != {}
      invariant left <= cfg.planes.Keys && NoDuplicates(items)
      invariant forall i :: i in items <==>
        i.name in cfg.planes && i.name !in left && i == Item(UNCHANGED, DataPlane, i.name)
      decreases |left|
    {
      var n :| n in left;
      left := left - {n};
      assert Item(UNCHANGED, DataPlane, n) !in items;
      items := items + [Item(UNCHANGED, DataPlane, n)];
    }
  }

  // ---- Diff ------------------------------------------------------------------------------

  method FindRule(rules: seq<Rule>, kind: string, receiver: nat) returns (found: bool)
    ensures found <==> exists r <- rules :: r.kind == kind && r.receiver == receiver
  {
    var i := 0;
    found := false;
    while i < |rules| && !found
      invariant 0 <= i <= |rules| && (found <==> exists r <- rules[..i] :: r.kind == kind && r.receiver == receiver)
    {
      assert rules[..i + 1] == rules[..i] + [rules[i]];
      found := rules[i].kind == kind && rules[i].receiver == receiver;
      i := i + 1;
    }
    assert found || rules[..i] == rules;
    if found {
      var r :| r in rules[..i] && r.kind == kind && r.receiver == receiver;
      assert r in rules;
    }
  }

  // One rule against the store as it is; exists is empty when the organisation is missing.
  method DiffRule(db: Database, cfg: Config, existing: map<string, App>, rule: RuleSpec) returns (item: Option<Item>)
    requires cfg.organisation in db.orgs ==> Mirrors(db.State(), db.orgs[cfg.organisation], existing)
    requires cfg.organisation !in db.orgs ==> existing == map[]
    ensures item.Some? ==> item.value == Item(Act(IsStored(db.State(), cfg, KeyOf(rule))), AlertRule, RuleName(rule))
    ensures item.None? ==> !db.reliable
  {
    assert cfg.organisation in db.orgs ==>
      MirrorsAt(db.State(), db.orgs[cfg.organisation], existing, rule.app)
      && MirrorsAt(db.State(), db.orgs[cfg.organisation], existing, rule.receivingApp);
    if rule.app !in existing {
      return Some(Item(CREATE, AlertRule, RuleName(rule)));
    }
    var app := existing[rule.app];
    var recvAppID := app.id;
    if rule.receivingApp != "" && rule.receivingApp != rule.app {
      if rule.receivingApp !in existing {
        return Some(Item(CREATE, AlertRule, RuleName(rule)));
      }
      recvAppID := existing[rule.receivingApp].id;
    }
    var rules := db.ListAlertingRulesByApplication(app.id);
    if rules.None? {
      return None;
    }
    var found := FindRule(rules.value, rule.kind, recvAppID);
    assert found <==> HasRule(db.rules, app.id, rule.kind, recvAppID);
    if found {
      return Some(Item(UNCHANGED, AlertRule, RuleName(rule)));
    }
    return Some(Item(CREATE, AlertRule, RuleName(rule)));
  }

  method Diff(db: Database, cfg: Config) returns (res: Option<seq<Item>>)
    ensures res.Some? ==> IsDiff(db.State(), cfg, res.value)
    ensures res.None? ==> !db.reliable
  {
    hide IsPlanes, Mirrors, Stored;
    var org := db.GetOrganisationByName(cfg.organisation);
    var existing: map<string, App> := map[];
    var items: seq<Item>;
    match org {
      case LookupFailed => return None;
      case NoRows => items := [Item(CREATE, Organisation, cfg.organisation)];
      case Row(id) =>
        items := [Item(UNCHANGED, Organisation, cfg.organisation)];
        var apps := db.ListApplicationsByOrganisation(id);
        if apps.None? {
          return None;
        }
        existing := apps.value;
    }
    var appItems := DiffAllApps(db, cfg, existing);
    var ruleItems := DiffAllRules(db, cfg, existing);
    if ruleItems.None? {
      return None;
    }
    var planeItems := PlaneItems(cfg);
    return Some(items + appItems + ruleItems.value + planeItems);
  }

  method DiffAllApps(db: Database, cfg: Config, existing: map<string, App>) returns (items: seq<Item>)
    requires cfg.organisation in db.orgs ==> Mirrors(db.State(), db.orgs[cfg.organisation], existing)
    requires cfg.organisation !in db.orgs ==> existing == map[]
    ensures items == DiffApps(db.State(), cfg, cfg.applications)
  {
    items := [];
    var i := 0;
    while i < |cfg.applications|
      invariant 0 <= i <= |cfg.applications| && items == DiffApps(db.State(), cfg, cfg.applications[..i])
    {
      var app := cfg.applications[i];
      assert cfg.applications[..i + 1][..i] == cfg.applications[..i];
      assert cfg.organisation in db.orgs ==> MirrorsAt(db.State(), db.orgs[cfg.organisation], existing, app.name);
      if app.name in existing {
        items := items + [Item(UNCHANGED, Application, app.name)];
      } else {
        items := items + [Item(CREATE, Application, app.name)];
      }
      i := i + 1;
    }
    assert cfg.applications[..i] == cfg.applications;
  }

  method DiffAllRules(db: Database, cfg: Config, existing: map<string, App>) returns (items: Option<seq<Item>>)
    requires cfg.organisation in db.orgs ==> Mirrors(db.State(), db.orgs[cfg.organisation], existing)
    requires cfg.organisation !in db.orgs ==> existing == map[]
    ensures items.Some? ==> items.value == DiffRules(db.State(), cfg, cfg.alertRules)
    ensures items.None? ==> !db.reliable
  {
    hide Mirrors, IsStored;
    var out := [];
    var i := 0;
    while i < |cfg.alertRules|
      invariant 0 <= i <= |cfg.alertRules| && out == DiffRules(db.State(), cfg, cfg.alertRules[..i])
    {
      assert cfg.alertRules[..i + 1][..i] == cfg.alertRules[..i];
      var item := DiffRule(db, cfg, existing, cfg.alertRules[i]);
      if item.None? {
        return None;
      }
      out := out + [item.value];
      i := i + 1;
    }
    assert cfg.alertRules[..i] == cfg.alertRules;
    return Some(out);
  }

  // ---- Apply -----------------------------------------------------------------------------

  datatype ApplyError = StoreFailed | MissingApplication | MissingReceiver | DestinationUnresolved | KeyInvalid

  // What the environment decides: whether a rule's secrets can be resolved, and whether the API
  // key it provides, if it provides one, is well formed.
  datatype Environment = Environment(resolves: RuleSpec -> bool, keyOk: bool)

  datatype Outcome<T> = Ok(value: T) | Err(error: ApplyError)

  method ApplyApp(db: Database, org: nat, app: AppSpec, appMap: map<string, App>)
    returns (item: Option<Item>, after: map<string, App>)
    requires Mirrors(db.State(), org, appMap)
    modifies db
    ensures item.Some? ==>
      && db.State() == WithApp(old(db.State()), org, app)
      && item.value == Item(Act((org, app.name) in old(db.apps)), Application, app.name)
      && Mirrors(db.State(), org, after)
    ensures item.None? ==> !db.reliable
  {
    ghost var before := db.State();
    assert MirrorsAt(before, org, appMap, app.name);
    var existing: map<string, Value> := map[];
    if app.name in appMap {
      existing := Fields(appMap[app.name].settings);
    }
    if app.description != "" {
      existing := existing["description" := Text(app.description)];
    }
    if app.stuckSLASecs > 0 {
      existing := existing["stuck_sla_secs" := Number(app.stuckSLASecs)];
    }
    if app.executorTimeoutSecs > 0 {
      existing := existing["executorTimeoutSecs" := Number(app.executorTimeoutSecs)];
    }
    if app.name in appMap {
      var updated := db.UpdateApplicationSettings(org, app.name, Object(existing));
      if updated.None? {
        return None, appMap;
      }
      after := appMap[app.name := updated.value];
      item := Some(Item(UNCHANGED, Application, app.name));
    } else {
      var created := db.CreateApplication(org, app.name, Object(existing));
      if created.None? {
        return None, appMap;
      }
      after := appMap[app.name := created.value];
      item := Some(Item(CREATE, Application, app.name));
    }
    forall n ensures MirrorsAt(db.State(), org, after, n) { assert MirrorsAt(before, org, appMap, n); }
  }

  method ApplyApps(db: Database, org: nat, apps: seq<AppSpec>, listed: map<string, App>)
    returns (items: Option<seq<Item>>, appMap: map<string, App>)
    requires Mirrors(db.State(), org, listed)
    modifies db
    ensures items.Some? ==>
      && db.State() == WithApps(old(db.State()), org, apps)
      && items.value == AppliedApps(old(db.State()), org, apps)
      && Mirrors(db.State(), org, appMap)
    ensures items.None? ==> !db.reliable
  {
    hide Mirrors, WithApp;
    ghost var before := db.State();
    var out := [];
    appMap := listed;
    var i := 0;
    while i < |apps|
      invariant 0 <= i <= |apps| && Mirrors(db.State(), org, appMap)
      invariant db.State() == WithApps(before, org, apps[..i]) && out == AppliedApps(before, org, apps[..i])
    {
      assert apps[..i + 1][..i] == apps[..i];
      var item;
      item, appMap := ApplyApp(db, org, apps[i], appMap);
      if item.None? {
        return None, appMap;
      }
      out := out + [item.value];
      i := i + 1;
    }
    assert apps[..i] == apps;
    items := Some(out);
  }

  method ApplyRule(db: Database, org: nat, rule: RuleSpec, appMap: map<string, App>, env: Environment)
    returns (item: Outcome<Item>)
    requires Mirrors(db.State(), org, appMap)
    modifies db`rules
    ensures item.Ok? ==>
      && db.State() == WithRule(old(db.State()), org, rule)
      && item.value == Item(Act(Stored(old(db.State()), org, KeyOf(rule))), AlertRule, RuleName(rule))
    ensures item == Err(MissingApplication) || item == Err(MissingReceiver) ==> !Apps(old(db.State()), org, KeyOf(rule))
    ensures item == Err(DestinationUnresolved) ==> !env.resolves(rule)
    ensures item == Err(StoreFailed) ==> !db.reliable
    ensures item != Err(KeyInvalid)
  {
    assert MirrorsAt(db.State(), org, appMap, rule.app) && MirrorsAt(db.State(), org, appMap, rule.receivingApp);
    hide Mirrors;
    if rule.app !in appMap {
      return Err(MissingApplication);
    }
    var app := appMap[rule.app];
    var recvAppID := app.id;
    if rule.receivingApp != "" && rule.receivingApp != rule.app {
      if rule.receivingApp !in appMap {
        return Err(MissingReceiver);
      }
      recvAppID := appMap[rule.receivingApp].id;
    }
    var rules := db.ListAlertingRulesByApplication(app.id);
    if rules.None? {
      return Err(StoreFailed);
    }
    var matching := FindRule(rules.value, rule.kind, recvAppID);
    assert matching <==> HasRule(db.rules, app.id, rule.kind, recvAppID);
    if matching {
      return Ok(Item(UNCHANGED, AlertRule, RuleName(rule)));
    }
    if !env.resolves(rule) {
      return Err(DestinationUnresolved);
    }
    var minInterval := None;
    if rule.minIntervalSecs > 0 {
      minInterval := Some(rule.minIntervalSecs);
    }
    var created := db.CreateAlertingRule(Rule(app.id, recvAppID, rule.kind, minInterval));
    if !created {
      return Err(StoreFailed);
    }
    return Ok(Item(CREATE, AlertRule, RuleName(rule)));
  }

  lemma RulesKeepMirror(s: Store, org: nat, rules: seq<RuleSpec>, m: map<string, App>)
    requires Mirrors(s, org, m)
    ensures Mirrors(WithRules(s, org, rules), org, m)
  {
    RulesLeaveApps(s, org, rules);
    hide WithRules;
    forall n ensures MirrorsAt(WithRules(s, org, rules), org, m, n) { assert MirrorsAt(s, org, m, n); }
  }

  method ApplyRules(db: Database, org: nat, rules: seq<RuleSpec>, appMap: map<string, App>, env: Environment)
    returns (items: Outcome<seq<Item>>)
    requires Mirrors(db.State(), org, appMap)
    modifies db`rules
    ensures items.Ok? ==>
      && db.State() == WithRules(old(db.State()), org, rules)
      && items.value == AppliedRules(old(db.State()), org, rules)
    ensures items == Err(MissingApplication) || items == Err(MissingReceiver) ==>
      !AppsPresent(old(db.State()), org, rules)
    ensures items == Err(DestinationUnresolved) ==> exists r <- rules :: !env.resolves(r)
    ensures items == Err(StoreFailed) ==> !db.reliable
    ensures items != Err(KeyInvalid)
  {
    hide Mirrors, WithRule, Stored;
    ghost var before := db.State();
    var out := [];
    var i := 0;
    while i < |rules|
      invariant 0 <= i <= |rules|
      invariant db.State() == WithRules(before, org, rules[..i]) && out == AppliedRules(before, org, rules[..i])
    {
      assert rules[..i + 1][..i] == rules[..i];
      RulesKeepMirror(before, org, rules[..i], appMap);
      RulesLeaveApps(before, org, rules[..i]);
      var item := ApplyRule(db, org, rules[i], appMap, env);
      if item.Err? {
        return Err(item.error);
      }
      out := out + [item.value];
      i := i + 1;
    }
    assert rules[..i] == rules;
    return Ok(out);
  }

  // The default key, unless there is one already or the keys cannot be listed.
  method EnsureKey(db: Database, org: nat, env: Environment) returns (items: Outcome<seq<Item>>, listed: bool)
    modifies db`keys
    ensures items.Ok? ==>
      && db.State() == WithKey(old(db.State()), org, listed)
      && items.value == KeyItems(old(db.State()), org, listed)
    ensures items.Err? ==> (items.error == StoreFailed && !db.reliable) || (items.error == KeyInvalid && !env.keyOk)
    ensures !listed ==> !db.reliable
  {
    var some := db.HasAPIKeys(org);
    listed := some.Some?;
    if !listed || some.value {
      return Ok([]), listed;
    }
    if !env.keyOk {
      return Err(KeyInvalid), listed;
    }
    var created := db.CreateAPIKey(org);
    if !created {
      return Err(StoreFailed), listed;
    }
    return Ok([Item(CREATE, APIKey, "default-conductor-key")]), listed;
  }

  method ApplyInTx(db: Database, cfg: Config, env: Environment) returns (res: Outcome<seq<Item>>, listed: bool)
    modifies db
    ensures res.Ok? ==>
      db.State() == Applied(old(db.State()), cfg, listed) && IsReport(old(db.State()), cfg, listed, res.value)
    ensures res.Err? ==> ErrorIsJustified(old(db.State()), cfg, env, db.reliable, res.error)
    ensures db.reliable ==> listed
  {
    hide Mirrors, WithApps, WithRules, AppliedApps, AppliedRules, KeyItems, WithKey, IsPlanes, AppsPresent;
    ghost var s := db.State();
    listed := true;
    var org := db.GetOrganisationByName(cfg.organisation);
    var id: nat;
    var orgItem: Item;
    match org {
      case LookupFailed => return Err(StoreFailed), listed;
      case NoRows =>
        var created := db.CreateOrganisation(cfg.organisation);
        if created.None? {
          return Err(StoreFailed), listed;
        }
        id := created.value;
        orgItem := Item(CREATE, Organisation, cfg.organisation);
      case Row(found) =>
        id := found;
        orgItem := Item(UNCHANGED, Organisation, cfg.organisation);
    }
    assert db.State() == WithOrg(s, cfg.organisation) && id == OrgID(s, cfg) && orgItem == OrgItem(s, cfg);
    hide WithOrg, OrgItem;
    var apps := db.ListApplicationsByOrganisation(id);
    if apps.None? {
      return Err(StoreFailed), listed;
    }
    var appItems, appMap := ApplyApps(db, id, cfg.applications, apps.value);
    if appItems.None? {
      return Err(StoreFailed), listed;
    }
    var ruleItems := ApplyRules(db, id, cfg.alertRules, appMap, env);
    if ruleItems.Err? {
      return Err(ruleItems.error), listed;
    }
    var planeItems := PlaneItems(cfg);
    ghost var s2 := db.State();
    var keyItems;
    keyItems, listed := EnsureKey(db, id, env);
    if keyItems.Err? {
      return Err(keyItems.error), listed;
    }
    RulesLeaveApps(AfterApps(s, cfg), id, cfg.alertRules);
    KeysUntouched(s, cfg);
    KeyItemsSame(s2, s, id, listed);
    return Ok([orgItem] + appItems.value + ruleItems.value + planeItems + keyItems.value), listed;
  }

  lemma KeysUntouched(s: Store, cfg: Config)
    ensures AfterApps(s, cfg).keys == s.keys
  {
    AppsAfter(WithOrg(s, cfg.organisation), OrgID(s, cfg), cfg.applications, 0, "");
  }

  lemma KeyItemsSame(s: Store, t: Store, org: nat, listed: bool)
    requires s.keys == t.keys
    ensures KeyItems(s, org, listed) == KeyItems(t, org, listed)
  {
  }

  ghost predicate ErrorIsJustified(s: Store, cfg: Config, env: Environment, reliable: bool, e: ApplyError) {
    match e
    case StoreFailed => !reliable
    case KeyInvalid => !env.keyOk
    case DestinationUnresolved => exists r <- cfg.alertRules :: !env.resolves(r)
    case _ => !AppsPresent(AfterApps(s, cfg), OrgID(s, cfg), cfg.alertRules)
  }

  /** Either the store becomes what the configuration asks for, as reported, or it stays as it was.
      For a valid configuration an application can never be missing, so that only the store or the
      environment can make it fail. */
  method Apply(db: Database, cfg: Config, env: Environment) returns (res: Outcome<seq<Item>>, listed: bool)
    requires WellFormed(db.State())
    modifies db
    ensures res.Ok? ==>
      db.State() == Applied(old(db.State()), cfg, listed) && IsReport(old(db.State()), cfg, listed, res.value)
    ensures res.Err? ==> db.State() == old(db.State())
    ensures ValidConfig(cfg) ==>
      && WellFormed(db.State())
      && res != Err(MissingApplication) && res != Err(MissingReceiver)
      && (db.reliable && env.keyOk && (forall r <- cfg.alertRules :: env.resolves(r)) ==> res.Ok?)
    ensures db.reliable ==> listed
  {
    hide Applied, IsReport, WellFormed, ValidConfig, AppsPresent, AfterApps, OrgID;
    var before := db.State();
    var fails := db.Fails();
    if fails { // to begin
      return Err(StoreFailed), false;
    }
    res, listed := ApplyInTx(db, cfg, env);
    if res.Ok? {
      fails := db.Fails();
      if fails { // to commit
        res := Err(StoreFailed);
      }
    }
    if res.Err? {
      db.Rollback(before);
    }
    if ValidConfig(cfg) {
      RuleAppsPresent(before, cfg);
      AppliedIsWellFormed(before, cfg, listed);
    }
  }

  lemma AppliedIsWellFormed(s: Store, cfg: Config, listed: bool)
    requires WellFormed(s) && ValidConfig(cfg)
    ensures WellFormed(Applied(s, cfg, listed))
  {
    AfterAppsIsWellFormed(s, cfg);
    RuleAppsPresent(s, cfg);
    hide AfterApps, OrgID, ValidConfig, AppsPresent;
    RulesKeepWellFormed(AfterApps(s, cfg), OrgID(s, cfg), cfg.alertRules);
  }

  lemma {:induction false} RulesKeepWellFormed(s: Store, org: nat, rules: seq<RuleSpec>)
    requires WellFormed(s) && AppsPresent(s, org, rules)
    ensures WellFormed(WithRules(s, org, rules))
    decreases |rules|
  {
    hide WellFormed, WithRule;
    if rules != [] {
      var before, last := rules[..|rules| - 1], rules[|rules| - 1];
      assert last in rules;
      RulesKeepWellFormed(s, org, before);
      RulesLeaveApps(s, org, before);
      StoredAfterRule(WithRules(s, org, before), org, last, KeyOf(last));
    }
  }
}
