/** Declarative configuration on plain values: what Diff reports, what Apply makes of a store and
    reports, and how the two relate. */
module DeclarativeModel {
  import opened Options
  import opened Sorting

  // ---- Configurations --------------------------------------------------------------------

  datatype AppSpec = AppSpec(name: string, description: string, stuckSLASecs: int, executorTimeoutSecs: int)

  datatype RuleSpec = RuleSpec(app: string, kind: string, receivingApp: string, minIntervalSecs: int)

  datatype Plane = Plane(url: string, hasSource: bool, mode: string, integration: string)

  datatype Config = Config(
    version: string,
    organisation: string,
    applications: seq<AppSpec>,
    alertRules: seq<RuleSpec>,
    planes: map<string, Plane>)

  predicate NameChar(c: char) { 'a' <= c <= 'z' || '0' <= c <= '9' || c == '-' || c == '_' }

  predicate NameOk(name: string) { 3 <= |name| <= 256 && forall c <- name :: NameChar(c) }

  function Names(apps: seq<AppSpec>): set<string> { set a | a in apps :: a.name }

  predicate RuleOk(names: set<string>, r: RuleSpec) {
    && r.app in names
    && (r.receivingApp != "" ==> r.receivingApp in names)
    && r.kind in {"UnresponsiveApplication", "WorkflowFailure", "SlowQueue"}
  }

  predicate PlaneOk(p: Plane) {
    && (p.integration == "attached" || p.url != "" || p.hasSource)
    && p.mode in {"", "read", "read-write"}
    && p.integration in {"", "hybrid", "direct", "attached"}
  }

  ghost predicate DistinctNames(apps: seq<AppSpec>) {
    forall i, j :: 0 <= i < j < |apps| ==> apps[i].name != apps[j].name
  }

  ghost predicate ValidConfig(cfg: Config) {
    && (cfg.version == "1" || cfg.version == "v1")
    && (forall a <- cfg.applications :: NameOk(a.name))
    && DistinctNames(cfg.applications)
    && (forall r <- cfg.alertRules :: r.app != "" && RuleOk(Names(cfg.applications), r))
    && (forall n :: n in cfg.planes ==> PlaneOk(cfg.planes[n]))
  }

  /** Names and data planes that are refused, and some at the edge that are not. */
  lemma RefusedAndAccepted(name: string, p: Plane)
    ensures NameOk("abc") && NameOk("a-b_9") && !NameOk("ab") && !NameOk("Abc") && !NameOk("a.b")
    ensures |name| < 3 || |name| > 256 ==> !NameOk(name)
    ensures (|name| == 3 || |name| == 256) && (forall c <- name :: c == 'a') ==> NameOk(name)
    ensures !PlaneOk(p.(mode := "write")) && !PlaneOk(p.(integration := "other"))
    ensures !PlaneOk(p.(url := "", hasSource := false, integration := ""))
    ensures PlaneOk(Plane("", false, "read-write", "attached")) && PlaneOk(Plane("", true, "", "hybrid"))
    ensures PlaneOk(Plane("db", false, "read", "direct"))
  {
    assert "Abc"[0] in "Abc" && !NameChar("Abc"[0]);
    assert "a.b"[1] in "a.b" && !NameChar("a.b"[1]);
  }

  // ---- The store -------------------------------------------------------------------------

  datatype Value = Text(text: string) | Number(number: int) | Other(id: nat)

  // Stored settings are a JSON object, or nothing that can be read as one.
  datatype Settings = Object(fields: map<string, Value>) | NoObject

  datatype App = App(id: nat, settings: Settings)

  datatype Rule = Rule(app: nat, receiver: nat, kind: string, minInterval: Option<int>)

  // Applications are unique by organisation and name; rules need not be unique. keys holds the
  // organisation of every API key. IDs are handed out in order.
  datatype Store = Store(
    orgs: map<string, nat>,
    apps: map<(nat, string), App>,
    rules: seq<Rule>,
    keys: seq<nat>,
    nextID: nat)

  // References are to what exists, and no two applications share an ID.
  ghost predicate WellFormed(s: Store) {
    && (forall o :: o in s.orgs ==> s.orgs[o] < s.nextID)
    && (forall k :: k in s.apps ==> k.0 < s.nextID && s.apps[k].id < s.nextID)
    && (forall j, k :: j in s.apps && k in s.apps && j != k ==> s.apps[j].id != s.apps[k].id)
    && (forall r <- s.rules :: r.app < s.nextID && r.receiver < s.nextID)
  }

  // ---- What Apply makes of it ------------------------------------------------------------

  function WithOrg(s: Store, name: string): (t: Store)
    ensures name in t.orgs
  {
    if name in s.orgs then s else s.(orgs := s.orgs[name := s.nextID], nextID := s.nextID + 1)
  }

  function Fields(settings: Settings): map<string, Value> { if settings.Object? then settings.fields else map[] }

  // The stored settings with those the configuration gives put over them.
  function Merged(settings: Settings, a: AppSpec): Settings {
    var described :=
      if a.description != "" then Fields(settings)["description" := Text(a.description)] else Fields(settings);
    var stuck := if a.stuckSLASecs > 0 then described["stuck_sla_secs" := Number(a.stuckSLASecs)] else described;
    Object(if a.executorTimeoutSecs > 0 then stuck["executorTimeoutSecs" := Number(a.executorTimeoutSecs)] else stuck)
  }

  function WithApp(s: Store, org: nat, a: AppSpec): Store {
    var key := (org, a.name);
    if key in s.apps
    then s.(apps := s.apps[key := s.apps[key].(settings := Merged(s.apps[key].settings, a))])
    else s.(apps := s.apps[key := App(s.nextID, Merged(NoObject, a))], nextID := s.nextID + 1)
  }

  function WithApps(s: Store, org: nat, apps: seq<AppSpec>): Store {
    if apps == [] then s else WithApp(WithApps(s, org, apps[..|apps| - 1]), org, apps[|apps| - 1])
  }

  // What tells rules apart: the application, the type and the application that receives it.
  datatype Key = Key(app: string, kind: string, receiver: string)

  function KeyOf(r: RuleSpec): Key { Key(r.app, r.kind, if r.receivingApp == "" then r.app else r.receivingApp) }

  predicate HasRule(rules: seq<Rule>, app: nat, kind: string, receiver: nat) {
    exists r <- rules :: r.app == app && r.kind == kind && r.receiver == receiver
  }

  predicate Apps(s: Store, org: nat, k: Key) { (org, k.app) in s.apps && (org, k.receiver) in s.apps }

  predicate Stored(s: Store, org: nat, k: Key) {
    Apps(s, org, k) && HasRule(s.rules, s.apps[(org, k.app)].id, k.kind, s.apps[(org, k.receiver)].id)
  }

  function NewRule(s: Store, org: nat, r: RuleSpec): Rule
    requires Apps(s, org, KeyOf(r))
  {
    Rule(s.apps[(org, KeyOf(r).app)].id, s.apps[(org, KeyOf(r).receiver)].id, r.kind,
         if r.minIntervalSecs > 0 then Some(r.minIntervalSecs) else None)
  }

  function WithRule(s: Store, org: nat, r: RuleSpec): Store {
    if Stored(s, org, KeyOf(r)) || !Apps(s, org, KeyOf(r)) then s else s.(rules := s.rules + [NewRule(s, org, r)])
  }

  function WithRules(s: Store, org: nat, rules: seq<RuleSpec>): Store {
    if rules == [] then s else WithRule(WithRules(s, org, rules[..|rules| - 1]), org, rules[|rules| - 1])
  }

  // listed: whether the keys could be listed. If not, none is made.
  function WithKey(s: Store, org: nat, listed: bool): Store {
    if listed && org !in s.keys then s.(keys := s.keys + [org]) else s
  }

  function AfterApps(s: Store, cfg: Config): Store {
    var t := WithOrg(s, cfg.organisation);
    WithApps(t, t.orgs[cfg.organisation], cfg.applications)
  }

  function OrgID(s: Store, cfg: Config): nat { WithOrg(s, cfg.organisation).orgs[cfg.organisation] }

  function Applied(s: Store, cfg: Config, listed: bool): Store {
    WithKey(WithRules(AfterApps(s, cfg), OrgID(s, cfg), cfg.alertRules), OrgID(s, cfg), listed)
  }

  // ---- What is reported ------------------------------------------------------------------

  datatype Action = CREATE | UNCHANGED

  datatype Kind = Organisation | Application | AlertRule | DataPlane | APIKey

  datatype Item = Item(action: Action, kind: Kind, name: string)

  function Act(exists_: bool): Action { if exists_ then UNCHANGED else CREATE }

  function RuleName(r: RuleSpec): string { r.app + "/" + r.kind }

  function OrgItem(s: Store, cfg: Config): Item {
    Item(Act(cfg.organisation in s.orgs), Organisation, cfg.organisation)
  }

  predicate HasApp(s: Store, cfg: Config, name: string) {
    cfg.organisation in s.orgs && (s.orgs[cfg.organisation], name) in s.apps
  }

  predicate IsStored(s: Store, cfg: Config, k: Key) {
    cfg.organisation in s.orgs && Stored(s, s.orgs[cfg.organisation], k)
  }

  // Diff looks everything up in the store as it is.
  function DiffApps(s: Store, cfg: Config, apps: seq<AppSpec>): (items: seq<Item>)
    ensures |items| == |apps|
  {
    if apps == [] then []
    else
      var last := apps[|apps| - 1];
      DiffApps(s, cfg, apps[..|apps| - 1]) + [Item(Act(HasApp(s, cfg, last.name)), Application, last.name)]
  }

  function DiffRules(s: Store, cfg: Config, rules: seq<RuleSpec>): (items: seq<Item>)
    ensures |items| == |rules|
  {
    if rules == [] then []
    else
      var last := rules[|rules| - 1];
      DiffRules(s, cfg, rules[..|rules| - 1]) + [Item(Act(IsStored(s, cfg, KeyOf(last))), AlertRule, RuleName(last))]
  }

  // Apply looks everything up in the store as it is by then.
  function AppliedApps(s: Store, org: nat, apps: seq<AppSpec>): (items: seq<Item>)
    ensures |items| == |apps|
  {
    if apps == [] then []
    else
      var before, last := apps[..|apps| - 1], apps[|apps| - 1];
      AppliedApps(s, org, before) +
      [Item(Act((org, last.name) in WithApps(s, org, before).apps), Application, last.name)]
  }

  function AppliedRules(s: Store, org: nat, rules: seq<RuleSpec>): (items: seq<Item>)
    ensures |items| == |rules|
  {
    if rules == [] then []
    else
      var before, last := rules[..|rules| - 1], rules[|rules| - 1];
      AppliedRules(s, org, before) +
      [Item(Act(Stored(WithRules(s, org, before), org, KeyOf(last))), AlertRule, RuleName(last))]
  }

  // The data planes are reported alike by both, in any order.
  ghost predicate IsPlanes(cfg: Config, items: seq<Item>) {
    NoDuplicates(items) && forall i :: i in items <==> i.name in cfg.planes && i == Item(UNCHANGED, DataPlane, i.name)
  }

  ghost predicate IsDiff(s: Store, cfg: Config, items: seq<Item>) {
    exists planes :: IsPlanes(cfg, planes) && items ==
      [OrgItem(s, cfg)] + DiffApps(s, cfg, cfg.applications) + DiffRules(s, cfg, cfg.alertRules) + planes
  }

  function KeyItems(s: Store, org: nat, listed: bool): seq<Item> {
    if listed && org !in s.keys then [Item(CREATE, APIKey, "default-conductor-key")] else []
  }

  ghost predicate IsReport(s: Store, cfg: Config, listed: bool, items: seq<Item>) {
    exists planes :: IsPlanes(cfg, planes) && items ==
      [OrgItem(s, cfg)] + AppliedApps(WithOrg(s, cfg.organisation), OrgID(s, cfg), cfg.applications)
      + AppliedRules(AfterApps(s, cfg), OrgID(s, cfg), cfg.alertRules) + planes + KeyItems(s, OrgID(s, cfg), listed)
  }

  /** Diff names the organisation, each application, and each rule by its application and type, and says that it is
      unchanged exactly when the store has it. */
  lemma {:induction false} DiffSays(s: Store, cfg: Config, apps: seq<AppSpec>, rules: seq<RuleSpec>, i: nat)
    ensures OrgItem(s, cfg) ==
      Item(if cfg.organisation in s.orgs then UNCHANGED else CREATE, Organisation, cfg.organisation)
    ensures i < |apps| ==> var item := DiffApps(s, cfg, apps)[i];
      && item.name == apps[i].name && item.kind == Application
      && (item.action == UNCHANGED <==>
          cfg.organisation in s.orgs && (s.orgs[cfg.organisation], apps[i].name) in s.apps)
    ensures i < |rules| ==> var item := DiffRules(s, cfg, rules)[i];
      && item.name == rules[i].app + "/" + rules[i].kind && item.kind == AlertRule
      && (item.action == UNCHANGED <==> IsStored(s, cfg, KeyOf(rules[i])))
    decreases |apps| + |rules|
  {
    hide IsStored;
    if i < |apps| - 1 {
      DiffSays(s, cfg, apps[..|apps| - 1], [], i);
    }
    if i < |rules| - 1 {
      DiffSays(s, cfg, [], rules[..|rules| - 1], i);
    }
  }

  // ---- Applications ----------------------------------------------------------------------

  lemma {:induction false} AppsAfter(s: Store, org: nat, apps: seq<AppSpec>, o: nat, name: string)
    ensures var t := WithApps(s, org, apps);
      && t.orgs == s.orgs && t.rules == s.rules && t.keys == s.keys && t.nextID >= s.nextID
      && ((o, name) in t.apps <==> (o, name) in s.apps || (o == org && name in Names(apps)))
      && ((o, name) in s.apps ==> t.apps[(o, name)].id == s.apps[(o, name)].id)
      && ((o, name) in t.apps && (o, name) !in s.apps ==> t.apps[(o, name)].id >= s.nextID)
    decreases |apps|
  {
    if apps == [] {
    } else {
      var before, last := apps[..|apps| - 1], apps[|apps| - 1];
      AppsAfter(s, org, before, o, name);
      NamesOfOneMore(before, last);
      assert apps == before + [last];
    }
  }

  lemma NamesOfOneMore(apps: seq<AppSpec>, a: AppSpec)
    ensures Names(apps + [a]) == Names(apps) + {a.name}
  {
    forall n | n in Names(apps) ensures n in Names(apps + [a]) {
      var x :| x in apps && x.name == n;
      assert x in apps + [a];
    }
    assert a in apps + [a];
  }

  lemma {:induction false} AppsKeepWellFormed(s: Store, org: nat, apps: seq<AppSpec>)
    requires WellFormed(s) && org < s.nextID
    ensures WellFormed(WithApps(s, org, apps)) && WithApps(s, org, apps).nextID >= s.nextID
    decreases |apps|
  {
    if apps != [] {
      AppsKeepWellFormed(s, org, apps[..|apps| - 1]);
    }
  }

  // A new application has no rules yet, and an old one keeps its own.
  lemma StoredThroughApps(s: Store, org: nat, apps: seq<AppSpec>, k: Key)
    requires WellFormed(s)
    ensures Stored(WithApps(s, org, apps), org, k) <==> Stored(s, org, k)
  {
    AppsAfter(s, org, apps, org, k.app);
    AppsAfter(s, org, apps, org, k.receiver);
  }

  lemma MergedTwice(settings: Settings, a: AppSpec)
    ensures Merged(Merged(settings, a), a) == Merged(settings, a)
  {
  }

  predicate Settled(s: Store, org: nat, a: AppSpec) {
    (org, a.name) in s.apps && s.apps[(org, a.name)].settings == Merged(s.apps[(org, a.name)].settings, a)
  }

  // Names being distinct, no later application undoes an earlier one's settings.
  lemma {:induction false} AppsSettle(s: Store, org: nat, apps: seq<AppSpec>)
    requires DistinctNames(apps)
    ensures forall a <- apps :: Settled(WithApps(s, org, apps), org, a)
    decreases |apps|
  {
    if apps != [] {
      var before, last := apps[..|apps| - 1], apps[|apps| - 1];
      AppsSettle(s, org, before);
      var t := WithApps(s, org, before);
      MergedTwice(if (org, last.name) in t.apps then t.apps[(org, last.name)].settings else NoObject, last);
      hide Merged;
      forall a | a in apps ensures Settled(WithApp(t, org, last), org, a) {
        var i :| 0 <= i < |apps| && apps[i] == a;
        if i < |before| {
          assert before[i] == a && apps[i].name != last.name;
          assert Settled(t, org, a);
        }
      }
    }
  }

  lemma {:induction false} SettledAppsStay(t: Store, org: nat, apps: seq<AppSpec>)
    requires forall a <- apps :: Settled(t, org, a)
    ensures WithApps(t, org, apps) == t
    decreases |apps|
  {
    if apps != [] {
      var last := apps[|apps| - 1];
      SettledAppsStay(t, org, apps[..|apps| - 1]);
      assert Settled(t, org, last);
      hide Merged;
      assert t.apps[(org, last.name) := t.apps[(org, last.name)]] == t.apps;
    }
  }

  // ---- Rules -----------------------------------------------------------------------------

  ghost predicate AppsPresent(s: Store, org: nat, rules: seq<RuleSpec>) {
    forall r <- rules :: Apps(s, org, KeyOf(r))
  }

  predicate Mentions(rules: seq<RuleSpec>, k: Key) { exists r <- rules :: KeyOf(r) == k }

  lemma HasRuleAfter(rules: seq<Rule>, new_: Rule, app: nat, kind: string, receiver: nat)
    ensures HasRule(rules + [new_], app, kind, receiver) <==>
      HasRule(rules, app, kind, receiver) || (new_.app == app && new_.kind == kind && new_.receiver == receiver)
  {
    if HasRule(rules, app, kind, receiver) {
      var r :| r in rules && r.app == app && r.kind == kind && r.receiver == receiver;
      assert r in rules + [new_];
    }
    assert new_ in rules + [new_];
  }

  lemma StoredAfterRule(s: Store, org: nat, r: RuleSpec, k: Key)
    requires WellFormed(s) && Apps(s, org, KeyOf(r)) && Apps(s, org, k)
    ensures WithRule(s, org, r).apps == s.apps && WellFormed(WithRule(s, org, r))
    ensures Stored(WithRule(s, org, r), org, k) <==> Stored(s, org, k) || KeyOf(r) == k
  {
    if !Stored(s, org, KeyOf(r)) {
      HasRuleAfter(s.rules, NewRule(s, org, r), s.apps[(org, k.app)].id, k.kind, s.apps[(org, k.receiver)].id);
      hide HasRule;
    }
  }

  lemma MentionsOneMore(rules: seq<RuleSpec>, r: RuleSpec, k: Key)
    ensures Mentions(rules + [r], k) <==> Mentions(rules, k) || KeyOf(r) == k
  {
    if Mentions(rules, k) {
      var x :| x in rules && KeyOf(x) == k;
      assert x in rules + [r];
    }
    assert r in rules + [r];
  }

  lemma {:induction false} RulesAfter(s: Store, org: nat, rules: seq<RuleSpec>, k: Key)
    requires WellFormed(s) && AppsPresent(s, org, rules) && Apps(s, org, k)
    ensures var t := WithRules(s, org, rules);
      && t.orgs == s.orgs && t.apps == s.apps && t.keys == s.keys && WellFormed(t)
      && (Stored(t, org, k) <==> Stored(s, org, k) || Mentions(rules, k))
    decreases |rules|
  {
    if rules != [] {
      var before, last := rules[..|rules| - 1], rules[|rules| - 1];
      assert rules == before + [last] && last in rules;
      RulesAfter(s, org, before, k);
      MentionsOneMore(before, last, k);
      hide WellFormed, Stored, Mentions;
      StoredAfterRule(WithRules(s, org, before), org, last, k);
    }
  }

  lemma {:induction false} StoredRulesStay(t: Store, org: nat, rules: seq<RuleSpec>)
    requires forall r <- rules :: Stored(t, org, KeyOf(r))
    ensures WithRules(t, org, rules) == t
    decreases |rules|
  {
    if rules != [] {
      StoredRulesStay(t, org, rules[..|rules| - 1]);
      assert rules[|rules| - 1] in rules;
    }
  }

  // ---- Convergence -----------------------------------------------------------------------

  lemma OrgKeepsWellFormed(s: Store, name: string)
    requires WellFormed(s)
    ensures WellFormed(WithOrg(s, name)) && WithOrg(s, name).orgs[name] < WithOrg(s, name).nextID
  {
  }

  ghost predicate NoCreates(items: seq<Item>) { forall i <- items :: i.action == UNCHANGED }

  // The store has everything the configuration asks for.
  ghost predicate Meets(t: Store, cfg: Config) {
    && cfg.organisation in t.orgs
    && (forall a <- cfg.applications :: Settled(t, t.orgs[cfg.organisation], a))
    && (forall r <- cfg.alertRules :: Stored(t, t.orgs[cfg.organisation], KeyOf(r)))
  }

  lemma RuleAppsPresent(s: Store, cfg: Config)
    requires ValidConfig(cfg)
    ensures AppsPresent(AfterApps(s, cfg), OrgID(s, cfg), cfg.alertRules)
  {
    var t, org := WithOrg(s, cfg.organisation), OrgID(s, cfg);
    hide WithApps, WithOrg;
    forall r | r in cfg.alertRules ensures Apps(AfterApps(s, cfg), org, KeyOf(r)) {
      AppsAfter(t, org, cfg.applications, org, KeyOf(r).app);
      AppsAfter(t, org, cfg.applications, org, KeyOf(r).receiver);
    }
  }

  lemma AfterAppsIsWellFormed(s: Store, cfg: Config)
    requires WellFormed(s)
    ensures WellFormed(AfterApps(s, cfg))
  {
    OrgKeepsWellFormed(s, cfg.organisation);
    hide WellFormed;
    AppsKeepWellFormed(WithOrg(s, cfg.organisation), OrgID(s, cfg), cfg.applications);
  }

  lemma KeyLeavesRules(s: Store, org: nat, listed: bool, k: Key)
    requires WellFormed(s)
    ensures var t := WithKey(s, org, listed);
      && WellFormed(t) && t.orgs == s.orgs && t.apps == s.apps
      && (Stored(t, org, k) <==> Stored(s, org, k))
  {
  }

  // After Apply a rule is stored if it was before or the configuration has it.
  lemma AppliedRulesAre(s: Store, cfg: Config, listed: bool, k: Key)
    requires WellFormed(s) && ValidConfig(cfg) && Apps(AfterApps(s, cfg), OrgID(s, cfg), k)
    ensures var t := Applied(s, cfg, listed);
      && WellFormed(t)
      && t.orgs == AfterApps(s, cfg).orgs && t.apps == AfterApps(s, cfg).apps
      && (Stored(t, OrgID(s, cfg), k) <==> Stored(AfterApps(s, cfg), OrgID(s, cfg), k) || Mentions(cfg.alertRules, k))
  {
    var t, org := AfterApps(s, cfg), OrgID(s, cfg);
    var u := WithRules(t, org, cfg.alertRules);
    assert Applied(s, cfg, listed) == WithKey(u, org, listed);
    hide *;
    AfterAppsIsWellFormed(s, cfg);
    RuleAppsPresent(s, cfg);
    RulesAfter(t, org, cfg.alertRules, k);
    KeyLeavesRules(u, org, listed, k);
  }

  lemma {:induction false} RulesLeaveApps(s: Store, org: nat, rules: seq<RuleSpec>)
    ensures var t := WithRules(s, org, rules);
      t.orgs == s.orgs && t.apps == s.apps && t.keys == s.keys && t.nextID == s.nextID
    decreases |rules|
  {
    if rules != [] { RulesLeaveApps(s, org, rules[..|rules| - 1]); }
  }

  lemma AppliedMeets(s: Store, cfg: Config, listed: bool)
    requires WellFormed(s) && ValidConfig(cfg)
    ensures Meets(Applied(s, cfg, listed), cfg)
    ensures Applied(s, cfg, listed).orgs[cfg.organisation] == OrgID(s, cfg)
  {
    var t, org := AfterApps(s, cfg), OrgID(s, cfg);
    AppsAfter(WithOrg(s, cfg.organisation), org, cfg.applications, org, "");
    AppsSettle(WithOrg(s, cfg.organisation), org, cfg.applications);
    RulesLeaveApps(t, org, cfg.alertRules);
    RuleAppsPresent(s, cfg);
    hide WithApps, WithRules, WellFormed, ValidConfig, Stored, WithOrg;
    forall r | r in cfg.alertRules ensures Stored(Applied(s, cfg, listed), org, KeyOf(r)) {
      AppliedRulesAre(s, cfg, listed, KeyOf(r));
    }
    forall a | a in cfg.applications ensures Settled(Applied(s, cfg, listed), org, a) {
      assert Settled(t, org, a);
    }
  }

  lemma {:induction false} MetAppsAreUnchanged(t: Store, cfg: Config, apps: seq<AppSpec>)
    requires cfg.organisation in t.orgs && forall a <- apps :: Settled(t, t.orgs[cfg.organisation], a)
    ensures NoCreates(DiffApps(t, cfg, apps)) && NoCreates(AppliedApps(t, t.orgs[cfg.organisation], apps))
    decreases |apps|
  {
    if apps != [] {
      var before := apps[..|apps| - 1];
      MetAppsAreUnchanged(t, cfg, before);
      SettledAppsStay(t, t.orgs[cfg.organisation], before);
      assert Settled(t, t.orgs[cfg.organisation], apps[|apps| - 1]);
    }
  }

  lemma {:induction false} MetRulesAreUnchanged(t: Store, cfg: Config, rules: seq<RuleSpec>)
    requires cfg.organisation in t.orgs && forall r <- rules :: Stored(t, t.orgs[cfg.organisation], KeyOf(r))
    ensures NoCreates(DiffRules(t, cfg, rules)) && NoCreates(AppliedRules(t, t.orgs[cfg.organisation], rules))
    decreases |rules|
  {
    hide Stored;
    if rules != [] {
      var before := rules[..|rules| - 1];
      MetRulesAreUnchanged(t, cfg, before);
      StoredRulesStay(t, t.orgs[cfg.organisation], before);
      assert rules[|rules| - 1] in rules;
    }
  }

  lemma DiffOfMetCreatesNothing(t: Store, cfg: Config, items: seq<Item>)
    requires Meets(t, cfg) && IsDiff(t, cfg, items)
    ensures NoCreates(items)
  {
    MetAppsAreUnchanged(t, cfg, cfg.applications);
    MetRulesAreUnchanged(t, cfg, cfg.alertRules);
    hide Meets, Settled, Stored, DiffApps, DiffRules, AppliedApps, AppliedRules;
  }

  /** After Apply has succeeded, Diff of the same configuration finds nothing to create. */
  lemma DiffAfterApplyCreatesNothing(s: Store, cfg: Config, listed: bool, items: seq<Item>)
    requires WellFormed(s) && ValidConfig(cfg) && IsDiff(Applied(s, cfg, listed), cfg, items)
    ensures NoCreates(items)
  {
    hide *;
    AppliedMeets(s, cfg, listed);
    DiffOfMetCreatesNothing(Applied(s, cfg, listed), cfg, items);
  }

  // Everything but the key is in place already.
  lemma AppliedToMet(t: Store, cfg: Config, listed: bool)
    requires Meets(t, cfg)
    ensures Applied(t, cfg, listed) == WithKey(t, t.orgs[cfg.organisation], listed)
  {
    SettledAppsStay(t, t.orgs[cfg.organisation], cfg.applications);
    StoredRulesStay(t, t.orgs[cfg.organisation], cfg.alertRules);
  }

  /** Applying the same configuration again leaves the store as it is and creates nothing, exactly
      when the organisation has an API key by then or the keys cannot be listed this time: always,
      that is, if the first Apply could list them. */
  lemma SecondApplyExactlyWhen(s: Store, cfg: Config, first: bool, second: bool, items: seq<Item>)
    requires WellFormed(s) && ValidConfig(cfg) && IsReport(Applied(s, cfg, first), cfg, second, items)
    ensures var t := Applied(s, cfg, first);
      && (Applied(t, cfg, second) == t <==> OrgID(s, cfg) in t.keys || !second)
      && (NoCreates(items) <==> OrgID(s, cfg) in t.keys || !second)
      && (first ==> OrgID(s, cfg) in t.keys)
  {
    var t := Applied(s, cfg, first);
    AppliedMeets(s, cfg, first);
    AppliedToMet(t, cfg, second);
    MetAppsAreUnchanged(t, cfg, cfg.applications);
    MetRulesAreUnchanged(t, cfg, cfg.alertRules);
    SettledAppsStay(t, t.orgs[cfg.organisation], cfg.applications);
    var org := t.orgs[cfg.organisation];
    hide WithRules, WithApps, Meets, WellFormed, ValidConfig;
    var planes :| IsPlanes(cfg, planes) && items == [OrgItem(t, cfg)] + AppliedApps(t, org, cfg.applications)
      + AppliedRules(t, org, cfg.alertRules) + planes + KeyItems(t, org, second);
    if second && org !in t.keys { assert items[|items| - 1] == Item(CREATE, APIKey, "default-conductor-key"); }
  }

  // ---- What Apply keeps ------------------------------------------------------------------

  const SETTINGS := {"description", "stuck_sla_secs", "executorTimeoutSecs"}

  predicate SameAt(f: map<string, Value>, g: map<string, Value>, k: string) {
    (k in g <==> k in f) && (k in f ==> g[k] == f[k])
  }

  // Setting k has the configured value where there is one, and is otherwise as it was.
  predicate SetTo(f: map<string, Value>, g: map<string, Value>, k: string, given: bool, v: Value) {
    if given then k in g && g[k] == v else SameAt(f, g, k)
  }

  // g is f with what the configuration gives put over it, and nothing else changed.
  ghost predicate PutOver(f: map<string, Value>, g: map<string, Value>, a: AppSpec) {
    && (forall k :: k !in SETTINGS ==> SameAt(f, g, k))
    && SetTo(f, g, "description", a.description != "", Text(a.description))
    && SetTo(f, g, "stuck_sla_secs", a.stuckSLASecs > 0, Number(a.stuckSLASecs))
    && SetTo(f, g, "executorTimeoutSecs", a.executorTimeoutSecs > 0, Number(a.executorTimeoutSecs))
  }

  lemma MergingPutsOver(settings: Settings, a: AppSpec)
    ensures Merged(settings, a).Object?
    ensures PutOver(if settings.Object? then settings.fields else map[], Merged(settings, a).fields, a)
  {
  }

  // What is stored for an application, as far as it can be read.
  function StoredFields(s: Store, org: nat, name: string): map<string, Value> {
    if (org, name) in s.apps && s.apps[(org, name)].settings.Object? then s.apps[(org, name)].settings.fields else map[]
  }

  // Distinct names: an application is merged with its own settings, once.
  lemma {:induction false} MergedOnce(s: Store, org: nat, apps: seq<AppSpec>, a: AppSpec)
    requires DistinctNames(apps) && a in apps
    ensures var t := WithApps(s, org, apps);
      && (org, a.name) in t.apps
      && t.apps[(org, a.name)].settings ==
        Merged(if (org, a.name) in s.apps then s.apps[(org, a.name)].settings else NoObject, a)
    decreases |apps|
  {
    hide Merged;
    var before, last := apps[..|apps| - 1], apps[|apps| - 1];
    var i :| 0 <= i < |apps| && apps[i] == a;
    if i < |before| {
      assert before[i] == a && apps[i].name != last.name;
      MergedOnce(s, org, before, a);
    } else {
      forall j | 0 <= j < |before| ensures before[j].name != a.name { assert before[j] == apps[j]; }
      OthersUntouched(s, org, before, org, a.name);
    }
  }

  // An application that is not named, or belongs to another organisation, keeps its record.
  lemma {:induction false} OthersUntouched(s: Store, org: nat, apps: seq<AppSpec>, o: nat, name: string)
    requires o != org || forall j :: 0 <= j < |apps| ==> apps[j].name != name
    ensures var t := WithApps(s, org, apps);
      ((o, name) in t.apps <==> (o, name) in s.apps) && ((o, name) in s.apps ==> t.apps[(o, name)] == s.apps[(o, name)])
    decreases |apps|
  {
    hide Merged;
    if apps != [] {
      OthersUntouched(s, org, apps[..|apps| - 1], o, name);
    }
  }

  lemma AppliedAppsAre(s: Store, cfg: Config, listed: bool)
    ensures Applied(s, cfg, listed).apps == AfterApps(s, cfg).apps
    ensures Applied(s, cfg, listed).orgs == AfterApps(s, cfg).orgs == WithOrg(s, cfg.organisation).orgs
    ensures WithOrg(s, cfg.organisation).apps == s.apps
  {
    RulesLeaveApps(AfterApps(s, cfg), OrgID(s, cfg), cfg.alertRules);
    AppsAfter(WithOrg(s, cfg.organisation), OrgID(s, cfg), cfg.applications, 0, "");
    hide WithApps, WithRules;
  }

  /** Apply keeps what it is not told to change. Each configured application has afterwards the settings
      it had, with those that the configuration gives put over them, and keeps its ID; every other
      application, of this organisation or another, keeps its record. */
  lemma ApplyKeepsTheRest(s: Store, cfg: Config, listed: bool)
    requires ValidConfig(cfg)
    ensures var t, org := Applied(s, cfg, listed), OrgID(s, cfg);
      && (forall a <- cfg.applications ::
        && (org, a.name) in t.apps && t.apps[(org, a.name)].settings.Object?
        && PutOver(StoredFields(s, org, a.name), t.apps[(org, a.name)].settings.fields, a)
        && ((org, a.name) in s.apps ==> t.apps[(org, a.name)].id == s.apps[(org, a.name)].id))
      && (forall o, name :: o != org || name !in Names(cfg.applications) ==>
        && ((o, name) in t.apps <==> (o, name) in s.apps)
        && ((o, name) in s.apps ==> t.apps[(o, name)] == s.apps[(o, name)]))
  {
    var t, org, w := Applied(s, cfg, listed), OrgID(s, cfg), WithOrg(s, cfg.organisation);
    AppliedAppsAre(s, cfg, listed);
    hide WithApps, WithOrg, Applied, Merged, PutOver;
    forall a | a in cfg.applications
      ensures && (org, a.name) in t.apps && t.apps[(org, a.name)].settings.Object?
              && PutOver(StoredFields(s, org, a.name), t.apps[(org, a.name)].settings.fields, a)
              && ((org, a.name) in s.apps ==> t.apps[(org, a.name)].id == s.apps[(org, a.name)].id)
    {
      MergedOnce(w, org, cfg.applications, a);
      MergingPutsOver(if (org, a.name) in s.apps then s.apps[(org, a.name)].settings else NoObject, a);
      AppsAfter(w, org, cfg.applications, org, a.name);
    }
    forall o: nat, name | o != org || name !in Names(cfg.applications)
      ensures (o, name) in t.apps <==> (o, name) in s.apps
      ensures (o, name) in s.apps ==> t.apps[(o, name)] == s.apps[(o, name)]
    {
      OthersUntouched(w, org, cfg.applications, o, name);
    }
  }

  // The rule that spec asks for, among the applications of s.
  predicate Makes(s: Store, org: nat, spec: RuleSpec, r: Rule) {
    var receiving := if spec.receivingApp == "" then spec.app else spec.receivingApp;
    && (org, spec.app) in s.apps && r.app == s.apps[(org, spec.app)].id
    && (org, receiving) in s.apps && r.receiver == s.apps[(org, receiving)].id
    && r.kind == spec.kind
    && r.minInterval == if spec.minIntervalSecs > 0 then Some(spec.minIntervalSecs) else None
  }

  // Nothing before position i in rules has its application, type and receiver.
  predicate IsFirst(rules: seq<Rule>, i: nat) {
    i < |rules| && !HasRule(rules[..i], rules[i].app, rules[i].kind, rules[i].receiver)
  }

  ghost predicate Made(s: Store, org: nat, specs: seq<RuleSpec>, rules: seq<Rule>) {
    && s.rules <= rules
    && (forall i :: |s.rules| <= i < |rules| ==> MadeAt(s, org, specs, rules, i))
  }

  // The rule at position i is asked for, and is the first of its kind.
  ghost predicate MadeAt(s: Store, org: nat, specs: seq<RuleSpec>, rules: seq<Rule>, i: nat) {
    IsFirst(rules, i) && exists spec <- specs :: Makes(s, org, spec, rules[i])
  }

  lemma MadeOneMore(s: Store, org: nat, specs: seq<RuleSpec>, spec: RuleSpec, rules: seq<Rule>, r: Rule)
    requires Made(s, org, specs, rules)
    ensures Made(s, org, specs + [spec], rules)
    ensures Makes(s, org, spec, r) && !HasRule(rules, r.app, r.kind, r.receiver) ==>
      Made(s, org, specs + [spec], rules + [r])
  {
    hide Makes, HasRule;
    forall i | |s.rules| <= i < |rules| ensures MadeAt(s, org, specs + [spec], rules, i) {
      assert MadeAt(s, org, specs, rules, i);
      var x :| x in specs && Makes(s, org, x, rules[i]);
      assert x in specs + [spec];
    }
    if Makes(s, org, spec, r) && !HasRule(rules, r.app, r.kind, r.receiver) {
      assert spec in specs + [spec];
      forall i | |s.rules| <= i < |rules| + 1 ensures MadeAt(s, org, specs + [spec], rules + [r], i) {
        assert (rules + [r])[..i] == rules[..i];
        assert rules[..|rules|] == rules;
        assert i < |rules| ==> MadeAt(s, org, specs + [spec], rules, i);
      }
    }
  }

  /** Every rule that is added is one that the configuration asks for, with the interval it gives, and
      none has been there before under the same application, type and receiver; the rules that were
      stored stay as they are. */
  lemma {:induction false} AddedRulesAreAskedFor(s: Store, org: nat, specs: seq<RuleSpec>)
    requires AppsPresent(s, org, specs)
    ensures Made(s, org, specs, WithRules(s, org, specs).rules)
    decreases |specs|
  {
    if specs != [] {
      var before, last := specs[..|specs| - 1], specs[|specs| - 1];
      var t := WithRules(s, org, before);
      assert specs == before + [last] && last in specs;
      AddedRulesAreAskedFor(s, org, before);
      RulesLeaveApps(s, org, before);
      NewRuleIsMade(s, t, org, last);
      hide Made, Makes;
      MadeOneMore(s, org, before, last, t.rules, NewRule(t, org, last));
    }
  }

  lemma NewRuleIsMade(s: Store, t: Store, org: nat, spec: RuleSpec)
    requires t.apps == s.apps && Apps(s, org, KeyOf(spec))
    ensures Makes(s, org, spec, NewRule(t, org, spec))
    ensures var r := NewRule(t, org, spec);
      WithRule(t, org, spec).rules == if HasRule(t.rules, r.app, r.kind, r.receiver) then t.rules else t.rules + [r]
  {
  }

  /** So it is for Apply: the stored rules come first, unchanged, then those added, each asked for and
      the first of its kind. */
  lemma ApplyAddsRulesAskedFor(s: Store, cfg: Config, listed: bool)
    requires ValidConfig(cfg)
    ensures var t, org := Applied(s, cfg, listed), OrgID(s, cfg);
      && s.rules <= t.rules
      && (forall i :: |s.rules| <= i < |t.rules| ==> MadeAt(t, org, cfg.alertRules, t.rules, i))
  {
    var t, org, u := Applied(s, cfg, listed), OrgID(s, cfg), AfterApps(s, cfg);
    RuleAppsPresent(s, cfg);
    AppliedAppsAre(s, cfg, listed);
    AppsAfter(WithOrg(s, cfg.organisation), org, cfg.applications, 0, "");
    AddedRulesAreAskedFor(u, org, cfg.alertRules);
    assert t.rules == WithRules(u, org, cfg.alertRules).rules && u.rules == s.rules;
    hide Applied, AfterApps, OrgID, WithRules, AppsPresent, ValidConfig;
    forall i | |s.rules| <= i < |t.rules| ensures MadeAt(t, org, cfg.alertRules, t.rules, i) {
      assert MadeAt(u, org, cfg.alertRules, t.rules, i);
      var spec :| spec in cfg.alertRules && Makes(u, org, spec, t.rules[i]);
      assert Makes(t, org, spec, t.rules[i]);
    }
  }

  // ---- Prediction ------------------------------------------------------------------------

  // A rule that is not stored yet is given twice.
  ghost predicate RepeatAt(s: Store, cfg: Config, rules: seq<RuleSpec>, i: nat, j: nat) {
    i < j < |rules| && KeyOf(rules[i]) == KeyOf(rules[j]) && !IsStored(s, cfg, KeyOf(rules[j]))
  }

  ghost predicate RepeatsUnstored(s: Store, cfg: Config, rules: seq<RuleSpec>) {
    exists i, j :: RepeatAt(s, cfg, rules, i, j)
  }

  // An organisation that is missing has no applications yet.
  lemma LookupsAgree(s: Store, cfg: Config, name: string)
    requires WellFormed(s)
    ensures HasApp(s, cfg, name) <==> (OrgID(s, cfg), name) in WithOrg(s, cfg.organisation).apps
  {
  }

  lemma StoredAgrees(s: Store, cfg: Config, k: Key)
    requires WellFormed(s)
    ensures Stored(AfterApps(s, cfg), OrgID(s, cfg), k) <==> IsStored(s, cfg, k)
  {
    var t, org := WithOrg(s, cfg.organisation), OrgID(s, cfg);
    OrgKeepsWellFormed(s, cfg.organisation);
    StoredThroughApps(t, org, cfg.applications, k);
    LookupsAgree(s, cfg, k.app);
    LookupsAgree(s, cfg, k.receiver);
    hide WithApps;
  }

  lemma {:induction false} AppsArePredicted(s: Store, cfg: Config, apps: seq<AppSpec>)
    requires WellFormed(s) && DistinctNames(apps)
    ensures AppliedApps(WithOrg(s, cfg.organisation), OrgID(s, cfg), apps) == DiffApps(s, cfg, apps)
    decreases |apps|
  {
    if apps != [] {
      var before, last := apps[..|apps| - 1], apps[|apps| - 1];
      AppsArePredicted(s, cfg, before);
      LookupsAgree(s, cfg, last.name);
      AppsAfter(WithOrg(s, cfg.organisation), OrgID(s, cfg), before, OrgID(s, cfg), last.name);
      assert last.name !in Names(before);
    }
  }

  // What Apply reports for a rule: unchanged if it is stored or was given before.
  function GivenRules(s: Store, cfg: Config, rules: seq<RuleSpec>): (items: seq<Item>)
    ensures |items| == |rules|
  {
    if rules == [] then []
    else
      var before, last := rules[..|rules| - 1], rules[|rules| - 1];
      GivenRules(s, cfg, before) +
      [Item(Act(IsStored(s, cfg, KeyOf(last)) || Mentions(before, KeyOf(last))), AlertRule, RuleName(last))]
  }

  lemma {:induction false} AppliedRulesAreGiven(s: Store, cfg: Config, t: Store, rules: seq<RuleSpec>)
    requires WellFormed(s) && t == AfterApps(s, cfg) && WellFormed(t) && AppsPresent(t, OrgID(s, cfg), rules)
    ensures AppliedRules(t, OrgID(s, cfg), rules) == GivenRules(s, cfg, rules)
    decreases |rules|
  {
    hide WellFormed, Stored, IsStored, AfterApps, Mentions, OrgID;
    if rules != [] {
      var before, last := rules[..|rules| - 1], rules[|rules| - 1];
      assert last in rules;
      AppliedRulesAreGiven(s, cfg, t, before);
      RulesAfter(t, OrgID(s, cfg), before, KeyOf(last));
      StoredAgrees(s, cfg, KeyOf(last));
    }
  }

  lemma {:induction false} WithoutRepeats(s: Store, cfg: Config, rules: seq<RuleSpec>)
    requires !RepeatsUnstored(s, cfg, rules)
    ensures GivenRules(s, cfg, rules) == DiffRules(s, cfg, rules)
    decreases |rules|
  {
    hide IsStored;
    if rules != [] {
      var before, last := rules[..|rules| - 1], rules[|rules| - 1];
      forall i: nat, j: nat ensures !RepeatAt(s, cfg, before, i, j) { assert !RepeatAt(s, cfg, rules, i, j); }
      WithoutRepeats(s, cfg, before);
      if Mentions(before, KeyOf(last)) {
        var i: nat :| i < |before| && KeyOf(before[i]) == KeyOf(last);
        assert !RepeatAt(s, cfg, rules, i, |rules| - 1);
      }
    }
  }

  // Apply reports creating x no more often than Diff does, and once less after the repeat at j.
  lemma {:induction false} WithRepeats(s: Store, cfg: Config, rules: seq<RuleSpec>, n: nat, i: nat, j: nat)
    requires n <= |rules| && RepeatAt(s, cfg, rules, i, j)
    ensures var x := Item(CREATE, AlertRule, RuleName(rules[j]));
      multiset(GivenRules(s, cfg, rules[..n]))[x] + (if j < n then 1 else 0)
        <= multiset(DiffRules(s, cfg, rules[..n]))[x]
    decreases n
  {
    hide *;
    RepeatIsMentioned(s, cfg, rules, i, j);
    if n > 0 {
      var before, last, x := rules[..n - 1], rules[n - 1], Item(CREATE, AlertRule, RuleName(rules[j]));
      WithRepeats(s, cfg, rules, n - 1, i, j);
      assert rules[..n] == before + [last];
      RulesOneMore(s, cfg, before, last, x);
    } else {
      NoRules(s, cfg, rules);
    }
  }

  lemma NoRules(s: Store, cfg: Config, rules: seq<RuleSpec>)
    ensures GivenRules(s, cfg, rules[..0]) == [] == DiffRules(s, cfg, rules[..0])
  {
  }

  lemma RulesOneMore(s: Store, cfg: Config, before: seq<RuleSpec>, last: RuleSpec, x: Item)
    requires x.action == CREATE
    ensures var g, f := GivenRules(s, cfg, before + [last]), DiffRules(s, cfg, before + [last]);
      var found := IsStored(s, cfg, KeyOf(last));
      && multiset(g)[x] == multiset(GivenRules(s, cfg, before))[x]
        + (if !found && !Mentions(before, KeyOf(last)) && x == Item(CREATE, AlertRule, RuleName(last)) then 1 else 0)
      && multiset(f)[x] == multiset(DiffRules(s, cfg, before))[x]
        + (if !found && x == Item(CREATE, AlertRule, RuleName(last)) then 1 else 0)
  {
    hide IsStored, Mentions, KeyOf, RuleName;
    var found := IsStored(s, cfg, KeyOf(last));
    var given := found || Mentions(before, KeyOf(last));
    assert (before + [last])[..|before|] == before;
    CountOneMore(GivenRules(s, cfg, before), Item(Act(given), AlertRule, RuleName(last)), x);
    CountOneMore(DiffRules(s, cfg, before), Item(Act(found), AlertRule, RuleName(last)), x);
  }

  lemma CountOneMore(items: seq<Item>, e: Item, x: Item)
    ensures multiset(items + [e])[x] == multiset(items)[x] + if e == x then 1 else 0
  {
  }

  lemma RepeatIsMentioned(s: Store, cfg: Config, rules: seq<RuleSpec>, i: nat, j: nat)
    requires RepeatAt(s, cfg, rules, i, j)
    ensures i < j < |rules| && Mentions(rules[..j], KeyOf(rules[j])) && !IsStored(s, cfg, KeyOf(rules[j]))
  {
    assert rules[..j][i] in rules[..j];
  }

  lemma Cancelling(report: multiset<Item>, diff: multiset<Item>, given: multiset<Item>, found: multiset<Item>,
                   keys: multiset<Item>)
    requires report + found == diff + given + keys
    ensures report == diff + keys <==> given == found
  {
    forall x ensures report[x] + found[x] == diff[x] + given[x] + keys[x] {
      assert (report + found)[x] == report[x] + found[x];
      assert (diff + given + keys)[x] == (diff + given)[x] + keys[x];
    }
    assert report == diff + keys ==> forall x :: given[x] == found[x] && (diff + keys)[x] == diff[x] + keys[x];
  }

  /** Diff predicts what Apply reports, apart from the API key, exactly when no rule that is not
      stored yet is given twice: application, type and receiving application all the same. */
  lemma DiffPredictsExactlyWhen(s: Store, cfg: Config, listed: bool, diff: seq<Item>, report: seq<Item>)
    requires WellFormed(s) && ValidConfig(cfg) && IsDiff(s, cfg, diff) && IsReport(s, cfg, listed, report)
    ensures multiset(report) == multiset(diff) + multiset(KeyItems(s, OrgID(s, cfg), listed)) <==>
      !RepeatsUnstored(s, cfg, cfg.alertRules)
  {
    var rules := cfg.alertRules;
    ReportIs(s, cfg, listed, diff, report);
    var given, found := GivenRules(s, cfg, rules), DiffRules(s, cfg, rules);
    hide *;
    var keys := KeyItems(s, OrgID(s, cfg), listed);
    Cancelling(multiset(report), multiset(diff), multiset(given), multiset(found), multiset(keys));
    RulesDiffer(s, cfg, rules);
  }

  lemma RulesDiffer(s: Store, cfg: Config, rules: seq<RuleSpec>)
    ensures multiset(GivenRules(s, cfg, rules)) == multiset(DiffRules(s, cfg, rules)) <==>
      !RepeatsUnstored(s, cfg, rules)
  {
    if i: nat, j: nat :| RepeatAt(s, cfg, rules, i, j) {
      WithRepeats(s, cfg, rules, |rules|, i, j);
      assert rules[..|rules|] == rules;
    } else {
      WithoutRepeats(s, cfg, rules);
    }
  }

  /** Such a configuration is valid: Validate does not refuse a rule given twice. */
  lemma RepeatIsValid()
    ensures var r := RuleSpec("orders", "SlowQueue", "", 0);
      var cfg := Config("1", "default", [AppSpec("orders", "", 0, 0)], [r, r.(receivingApp := "orders")], map[]);
      ValidConfig(cfg) && RepeatsUnstored(Store(map[], map[], [], [], 0), cfg, cfg.alertRules)
  {
    var r := RuleSpec("orders", "SlowQueue", "", 0);
    var a := AppSpec("orders", "", 0, 0);
    var cfg := Config("1", "default", [a], [r, r.(receivingApp := "orders")], map[]);
    assert a in cfg.applications;
    assert "orders" in Names(cfg.applications);
    assert RepeatAt(Store(map[], map[], [], [], 0), cfg, cfg.alertRules, 0, 1);
  }

  // The two reports differ at most in their rules.
  lemma ReportIs(s: Store, cfg: Config, listed: bool, diff: seq<Item>, report: seq<Item>)
    requires WellFormed(s) && ValidConfig(cfg) && IsDiff(s, cfg, diff) && IsReport(s, cfg, listed, report)
    ensures multiset(report) + multiset(DiffRules(s, cfg, cfg.alertRules)) ==
      multiset(diff) + multiset(GivenRules(s, cfg, cfg.alertRules)) + multiset(KeyItems(s, OrgID(s, cfg), listed))
  {
    var t, org := AfterApps(s, cfg), OrgID(s, cfg);
    AfterAppsIsWellFormed(s, cfg);
    RuleAppsPresent(s, cfg);
    AppsArePredicted(s, cfg, cfg.applications);
    AppliedRulesAreGiven(s, cfg, t, cfg.alertRules);
    var o, apps, keys := [OrgItem(s, cfg)], DiffApps(s, cfg, cfg.applications), KeyItems(s, org, listed);
    var found, given := DiffRules(s, cfg, cfg.alertRules), GivenRules(s, cfg, cfg.alertRules);
    var a :| IsPlanes(cfg, a) && diff ==
      [OrgItem(s, cfg)] + DiffApps(s, cfg, cfg.applications) + DiffRules(s, cfg, cfg.alertRules) + a;
    var b :| IsPlanes(cfg, b) && report ==
      [OrgItem(s, cfg)] + AppliedApps(WithOrg(s, cfg.organisation), org, cfg.applications)
      + AppliedRules(t, org, cfg.alertRules) + b + KeyItems(s, org, listed);
    SameElementsSameMultiset(a, b);
    assert diff == o + apps + found + a && report == o + apps + given + b + keys;
    hide *;
    Regroup(o, apps, found, given, a, b, keys);
  }

  lemma Regroup(o: seq<Item>, apps: seq<Item>, found: seq<Item>, given: seq<Item>, a: seq<Item>, b: seq<Item>,
                keys: seq<Item>)
    requires multiset(a) == multiset(b)
    ensures multiset(o + apps + given + b + keys) + multiset(found) ==
      multiset(o + apps + found + a) + multiset(given) + multiset(keys)
  {
  }
}
