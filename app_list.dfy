/** `get_app_list`: the models registered with the admin site, filtered by the request
    user's permissions and grouped by application. */
module AppList {
  import opened Common
  import opened Strings
  import opened Sorting
  import opened Framework

  /** One `(model, model_admin)` pair of the admin registry, with what the admin answers
      for the current request. */
  datatype RegisteredModel = RegisteredModel(
    appLabel: string,
    modelName: string,
    objectName: string,
    verboseNamePlural: string,
    hasModulePerms: bool,       // model_admin.has_module_permission(request)
    perms: map<string, bool>)   // model_admin.get_model_perms(request)

  /** The model dict: name, object_name, perms, model_name and the optional URLs. */
  datatype ModelEntry = ModelEntry(
    name: string,
    objectName: string,
    perms: map<string, bool>,
    modelName: string,
    adminUrl: Option<string>,
    addUrl: Option<string>)

  /** The app dict: name, app_label, app_url, has_module_perms and its models. */
  datatype AppEntry = AppEntry(
    name: string,
    appLabel: string,
    appUrl: string,
    hasModulePerms: bool,
    models: seq<ModelEntry>)

  /** `perms.get(p, False)`. */
  predicate Granted(perms: map<string, bool>, p: string) {
    p in perms && perms[p]
  }

  /** The user sees the module and holds at least one of its permissions. */
  predicate Visible(m: RegisteredModel) {
    m.hasModulePerms && true in m.perms.Values
  }

  function ChangelistCall(env: Env, m: RegisteredModel): ReverseCall {
    ReverseCall("admin:" + m.appLabel + "_" + m.modelName + "_changelist", [], map[], Some(env.siteName))
  }

  function AddCall(env: Env, m: RegisteredModel): ReverseCall {
    ReverseCall("admin:" + m.appLabel + "_" + m.modelName + "_add", [], map[], Some(env.siteName))
  }

  function AppIndexCall(env: Env, appLabel: string): ReverseCall {
    ReverseCall("admin:app_list", [], map["app_label" := appLabel], Some(env.siteName))
  }

  /** The model dict built for a visible registered model. */
  function EntryOf(env: Env, m: RegisteredModel): (e: ModelEntry)
    ensures e.adminUrl.Some? <==> Granted(m.perms, "change") && env.reverse(ChangelistCall(env, m)).Some?
    ensures e.adminUrl.Some? ==> e.adminUrl == env.reverse(ChangelistCall(env, m))
    ensures e.addUrl.Some? <==> Granted(m.perms, "add") && env.reverse(AddCall(env, m)).Some?
    ensures e.addUrl.Some? ==> e.addUrl == env.reverse(AddCall(env, m))
  {
    ModelEntry(
      env.capfirst(m.verboseNamePlural), m.objectName, m.perms, m.modelName,
      if Granted(m.perms, "change") then env.reverse(ChangelistCall(env, m)) else None,
      if Granted(m.perms, "add") then env.reverse(AddCall(env, m)) else None)
  }

  /** The app labels of the visible models, each once, in order of first appearance. */
  function Labels(reg: seq<RegisteredModel>): seq<string> {
    if reg == [] then []
    else
      var init := Labels(reg[..|reg| - 1]);
      var m := reg[|reg| - 1];
      if Visible(m) && m.appLabel !in init then init + [m.appLabel] else init
  }

  /** The model dicts of the visible models of app label `app`, in registry order. */
  function ModelsOf(env: Env, reg: seq<RegisteredModel>, app: string): seq<ModelEntry> {
    if reg == [] then []
    else
      var m := reg[|reg| - 1];
      ModelsOf(env, reg[..|reg| - 1], app)
        + (if Visible(m) && m.appLabel == app then [EntryOf(env, m)] else [])
  }

  function AppUrl(env: Env, app: string): Option<string> {
    env.reverse(AppIndexCall(env, app))
  }

  /** The app dict of app label `app`, whose index URL resolved to `url`. */
  function AppOf(env: Env, reg: seq<RegisteredModel>, app: string, url: string): AppEntry {
    AppEntry(env.appVerboseName(app), app, url, true, ModelsOf(env, reg, app))
  }

  predicate Resolvable(env: Env, labels: seq<string>) {
    forall l :: l in labels ==> AppUrl(env, l).Some?
  }

  /** `list(app_dict.values())`: one app per label, in order of first appearance; the
      resolver failing on any app index raises. */
  function Unordered(env: Env, reg: seq<RegisteredModel>): Result<seq<AppEntry>, Error> {
    var labels := Labels(reg);
    if Resolvable(env, labels) then
      Ok(seq(|labels|, k requires 0 <= k < |labels| => AppOf(env, reg, labels[k], AppUrl(env, labels[k]).value)))
    else
      Err(NoReverseMatch("admin:app_list"))
  }

  function NameKey(a: AppEntry): string {
    Lower(a.name)
  }

  function ModelKey(e: ModelEntry): string {
    e.name
  }

  function WithSortedModels(a: AppEntry): AppEntry {
    a.(models := SortBy(a.models, ModelKey))
  }

  /** What `get_app_list(context, order)` returns. */
  function AppListSpec(env: Env, reg: seq<RegisteredModel>, order: bool): Result<seq<AppEntry>, Error> {
    var apps :- Unordered(env, reg);
    if order then
      var sorted := SortBy(apps, NameKey);
      Ok(seq(|sorted|, k requires 0 <= k < |sorted| => WithSortedModels(sorted[k])))
    else
      Ok(apps)
  }

  method GetAppList(env: Env, registry: seq<RegisteredModel>, order: bool) returns (r: Result<seq<AppEntry>, Error>)
    ensures r == AppListSpec(env, registry, order)
  {
    var appDict: map<string, AppEntry> := map[];
    var keys: seq<string> := [];  // the insertion order of appDict
    for i := 0 to |registry|
      invariant Grouped(env, registry[..i], keys, appDict)
    {
      var model := registry[i];
      var appLabel := model.appLabel;
      var hasModulePerms := model.hasModulePerms;
      if hasModulePerms {
        var perms := model.perms;
        if true in perms.Values {
          var adminUrl: Option<string> := None;
          var addUrl: Option<string> := None;
          if Granted(perms, "change") {
            adminUrl := env.reverse(ChangelistCall(env, model));
          }
          if Granted(perms, "add") {
            addUrl := env.reverse(AddCall(env, model));
          }
          var modelDict := ModelEntry(env.capfirst(model.verboseNamePlural), model.objectName, perms,
                                      model.modelName, adminUrl, addUrl);
          if appLabel in appDict {
            GroupAppend(env, registry, i, keys, appDict);
            appDict := appDict[appLabel := appDict[appLabel].(models := appDict[appLabel].models + [modelDict])];
          } else {
            var name := env.appVerboseName(appLabel);
            var appUrl := env.reverse(AppIndexCall(env, appLabel));
            if appUrl.None? {
              GroupUnresolvable(env, registry, i, keys, appDict);
              return Err(NoReverseMatch("admin:app_list"));
            }
            GroupNew(env, registry, i, keys, appDict);
            appDict := appDict[appLabel := AppEntry(name, appLabel, appUrl.value, hasModulePerms, [modelDict])];
            keys := keys + [appLabel];
          }
        } else {
          GroupSkip(env, registry, i, keys, appDict);
        }
      } else {
        GroupSkip(env, registry, i, keys, appDict);
      }
    }
    assert registry[..|registry|] == registry;
    var appList := seq(|keys|, k requires 0 <= k < |keys| => appDict[keys[k]]);
    GroupDone(env, registry, keys, appDict, appList);
    if order {
      appList := SortApps(appList);
    }
    return Ok(appList);
  }

  /** The loop invariant of GetAppList: `keys` and `appDict` group the registry prefix `prefix`. */
  ghost predicate Grouped(env: Env, prefix: seq<RegisteredModel>, keys: seq<string>, appDict: map<string, AppEntry>) {
    && keys == Labels(prefix)
    && Resolvable(env, keys)
    && (forall l :: l in keys <==> l in appDict)
    && (forall l :: l in keys ==> appDict[l] == AppOf(env, prefix, l, AppUrl(env, l).value))
  }

  lemma ModelsOfStep(env: Env, reg: seq<RegisteredModel>, i: nat)
    requires i < |reg|
    ensures Labels(reg[..i + 1]) ==
      if Visible(reg[i]) && reg[i].appLabel !in Labels(reg[..i]) then Labels(reg[..i]) + [reg[i].appLabel] else Labels(reg[..i])
    ensures forall l :: ModelsOf(env, reg[..i + 1], l)
                      == ModelsOf(env, reg[..i], l) + (if Visible(reg[i]) && reg[i].appLabel == l then [EntryOf(env, reg[i])] else [])
  {
    assert reg[..i + 1][..i] == reg[..i];
  }

  lemma GroupSkip(env: Env, reg: seq<RegisteredModel>, i: nat, keys: seq<string>, appDict: map<string, AppEntry>)
    requires i < |reg| && Grouped(env, reg[..i], keys, appDict) && !Visible(reg[i])
    ensures Grouped(env, reg[..i + 1], keys, appDict)
  {
    ModelsOfStep(env, reg, i);
  }

  lemma GroupAppend(env: Env, reg: seq<RegisteredModel>, i: nat, keys: seq<string>, appDict: map<string, AppEntry>)
    requires i < |reg| && Grouped(env, reg[..i], keys, appDict) && Visible(reg[i]) && reg[i].appLabel in appDict
    ensures var l := reg[i].appLabel;
      Grouped(env, reg[..i + 1], keys, appDict[l := appDict[l].(models := appDict[l].models + [EntryOf(env, reg[i])])])
  {
    ModelsOfStep(env, reg, i);
  }

  lemma GroupNew(env: Env, reg: seq<RegisteredModel>, i: nat, keys: seq<string>, appDict: map<string, AppEntry>)
    requires i < |reg| && Grouped(env, reg[..i], keys, appDict) && Visible(reg[i]) && reg[i].appLabel !in appDict
    requires AppUrl(env, reg[i].appLabel).Some?
    ensures var l := reg[i].appLabel;
      Grouped(env, reg[..i + 1], keys + [l],
              appDict[l := AppEntry(env.appVerboseName(l), l, AppUrl(env, l).value, true, [EntryOf(env, reg[i])])])
  {
    ModelsOfStep(env, reg, i);
    ModelsOfExact(env, reg[..i], reg[i].appLabel);
  }

  lemma GroupDone(env: Env, reg: seq<RegisteredModel>, keys: seq<string>, appDict: map<string, AppEntry>, apps: seq<AppEntry>)
    requires Grouped(env, reg, keys, appDict)
    requires apps == seq(|keys|, k requires 0 <= k < |keys| => appDict[keys[k]])
    ensures Unordered(env, reg) == Ok(apps)
  {
    var labels := Labels(reg);
    var spec := seq(|labels|, k requires 0 <= k < |labels| => AppOf(env, reg, labels[k], AppUrl(env, labels[k]).value));
    assert |spec| == |apps|;
    forall k | 0 <= k < |apps| ensures apps[k] == spec[k] {
      assert keys[k] in keys;
    }
    assert apps == spec;
  }

  lemma GroupUnresolvable(env: Env, reg: seq<RegisteredModel>, i: nat, keys: seq<string>, appDict: map<string, AppEntry>)
    requires i < |reg| && Grouped(env, reg[..i], keys, appDict) && Visible(reg[i]) && reg[i].appLabel !in appDict
    requires AppUrl(env, reg[i].appLabel).None?
    ensures Unordered(env, reg).Err?
  {
    ModelsOfStep(env, reg, i);
    LabelsPrefix(reg, i + 1);
  }

  /** Sorts the apps by lower-cased name, then each app's models by name, in place. */
  method SortApps(apps: seq<AppEntry>) returns (appList: seq<AppEntry>)
    ensures appList == seq(|apps|, k requires 0 <= k < |apps| => WithSortedModels(SortBy(apps, NameKey)[k]))
  {
    appList := SortBy(apps, NameKey);
    ghost var sorted := appList;
    for k := 0 to |appList|
      invariant |appList| == |sorted|
      invariant forall t :: 0 <= t < k ==> appList[t] == WithSortedModels(sorted[t])
      invariant forall t :: k <= t < |appList| ==> appList[t] == sorted[t]
    {
      appList := appList[k := appList[k].(models := SortBy(appList[k].models, ModelKey))];
    }
  }

  /** Every label of a prefix of the registry is a label of the whole registry. */
  lemma {:induction false} LabelsPrefix(reg: seq<RegisteredModel>, i: nat)
    requires i <= |reg|
    ensures forall l :: l in Labels(reg[..i]) ==> l in Labels(reg)
  {
    if i < |reg| {
      LabelsPrefix(reg[..|reg| - 1], i);
      assert reg[..|reg| - 1][..i] == reg[..i];
    } else {
      assert reg[..i] == reg;
    }
  }

  /** Each app label occurs once in the grouping, and exactly the labels of visible models occur. */
  lemma {:induction false} LabelsExact(reg: seq<RegisteredModel>)
    ensures forall i, j :: 0 <= i < j < |Labels(reg)| ==> Labels(reg)[i] != Labels(reg)[j]
    ensures forall l :: l in Labels(reg) <==> exists i :: 0 <= i < |reg| && Visible(reg[i]) && reg[i].appLabel == l
  {
    if reg != [] {
      var init := reg[..|reg| - 1];
      LabelsExact(init);
      forall l ensures l in Labels(reg) <==> exists i :: 0 <= i < |reg| && Visible(reg[i]) && reg[i].appLabel == l {
        if l in Labels(init) {
          var i :| 0 <= i < |init| && Visible(init[i]) && init[i].appLabel == l;
          assert reg[i] == init[i];
        }
        if exists i :: 0 <= i < |reg| && Visible(reg[i]) && reg[i].appLabel == l {
          var i :| 0 <= i < |reg| && Visible(reg[i]) && reg[i].appLabel == l;
          if i < |init| { assert init[i] == reg[i]; }
        }
      }
    }
  }

  /** An app's model list is non-empty exactly when the app is listed, and holds exactly
      the model dicts of that app's visible models. */
  lemma {:induction false} ModelsOfExact(env: Env, reg: seq<RegisteredModel>, app: string)
    ensures |ModelsOf(env, reg, app)| > 0 <==> app in Labels(reg)
    ensures forall e :: e in ModelsOf(env, reg, app) <==>
      exists i :: 0 <= i < |reg| && Visible(reg[i]) && reg[i].appLabel == app && e == EntryOf(env, reg[i])
  {
    if reg != [] {
      var init := reg[..|reg| - 1];
      ModelsOfExact(env, init, app);
      LabelsExact(reg);
      LabelsExact(init);
      forall e ensures e in ModelsOf(env, reg, app) <==>
        exists i :: 0 <= i < |reg| && Visible(reg[i]) && reg[i].appLabel == app && e == EntryOf(env, reg[i])
      {
        if e in ModelsOf(env, init, app) {
          var i :| 0 <= i < |init| && Visible(init[i]) && init[i].appLabel == app && e == EntryOf(env, init[i]);
          assert reg[i] == init[i];
        }
        if exists i :: 0 <= i < |reg| && Visible(reg[i]) && reg[i].appLabel == app && e == EntryOf(env, reg[i]) {
          var i :| 0 <= i < |reg| && Visible(reg[i]) && reg[i].appLabel == app && e == EntryOf(env, reg[i]);
          if i < |init| { assert init[i] == reg[i]; }
        }
      }
      if app in Labels(init) {
        var i :| 0 <= i < |init| && Visible(init[i]) && init[i].appLabel == app;
        assert reg[i] == init[i];
      }
    }
  }
}

module AppListProperties {
  import opened Common
  import opened Strings
  import opened Sorting
  import opened Framework
  import opened AppList

  /** What holds of one app of the result, sorted or not: it is the app of a label of a
      visible model, it is listed with module permission, and its models are exactly the
      model dicts of that app's visible models. */
  ghost predicate WellGrouped(env: Env, reg: seq<RegisteredModel>, a: AppEntry) {
    && a.appLabel in Labels(reg)
    && a.hasModulePerms
    && AppUrl(env, a.appLabel) == Some(a.appUrl)
    && a.name == env.appVerboseName(a.appLabel)
    && multiset(a.models) == multiset(ModelsOf(env, reg, a.appLabel))
  }

  lemma UnorderedShape(env: Env, reg: seq<RegisteredModel>)
    requires Unordered(env, reg).Ok?
    ensures var apps := Unordered(env, reg).value;
      && |apps| == |Labels(reg)|
      && (forall k :: 0 <= k < |apps| ==> apps[k].appLabel == Labels(reg)[k])
      && (forall k :: 0 <= k < |apps| ==> WellGrouped(env, reg, apps[k]))
      && (forall k :: 0 <= k < |apps| ==> apps[k].models == ModelsOf(env, reg, apps[k].appLabel))
  {
  }

  /** Each app label of a visible model appears in `apps` and no two apps share a label. */
  ghost predicate EachLabelOnce(reg: seq<RegisteredModel>, apps: seq<AppEntry>) {
    && (forall i, j :: 0 <= i < j < |apps| ==> apps[i].appLabel != apps[j].appLabel)
    && (forall i :: 0 <= i < |reg| && Visible(reg[i]) ==>
          exists a :: 0 <= a < |apps| && apps[a].appLabel == reg[i].appLabel)
  }

  /** `get_app_list` lists each app label of a visible model exactly once and no other,
      with a non-empty model list holding exactly that app's visible models; with `order`
      the apps are sorted by lower-cased name and each app's models by name. */
  lemma AppListShape(env: Env, reg: seq<RegisteredModel>, order: bool)
    requires AppListSpec(env, reg, order).Ok?
    ensures var apps := AppListSpec(env, reg, order).value;
      && EachLabelOnce(reg, apps)
      && (forall a :: 0 <= a < |apps| ==> WellGrouped(env, reg, apps[a]) && |apps[a].models| > 0)
      && (!order ==> forall a :: 0 <= a < |apps| ==> apps[a].models == ModelsOf(env, reg, apps[a].appLabel))
      && (order ==> SortedBy(apps, NameKey))
      && (order ==> forall a :: 0 <= a < |apps| ==> SortedBy(apps[a].models, ModelKey))
  {
    UnorderedFacts(env, reg);
    if order {
      OrderedFacts(env, reg);
    }
  }

  lemma UnorderedFacts(env: Env, reg: seq<RegisteredModel>)
    requires Unordered(env, reg).Ok?
    ensures var apps := Unordered(env, reg).value;
      && EachLabelOnce(reg, apps)
      && (forall a :: 0 <= a < |apps| ==> WellGrouped(env, reg, apps[a]) && |apps[a].models| > 0)
      && (forall a :: 0 <= a < |apps| ==> apps[a].models == ModelsOf(env, reg, apps[a].appLabel))
  {
    var apps := Unordered(env, reg).value;
    UnorderedShape(env, reg);
    LabelsExact(reg);
    forall a | 0 <= a < |apps| ensures |apps[a].models| > 0 {
      ModelsOfExact(env, reg, apps[a].appLabel);
    }
    forall i | 0 <= i < |reg| && Visible(reg[i])
      ensures exists a :: 0 <= a < |apps| && apps[a].appLabel == reg[i].appLabel
    {
      assert reg[i].appLabel in Labels(reg);
      var k :| 0 <= k < |Labels(reg)| && Labels(reg)[k] == reg[i].appLabel;
      assert apps[k].appLabel == reg[i].appLabel;
    }
  }

  lemma OrderedFacts(env: Env, reg: seq<RegisteredModel>)
    requires Unordered(env, reg).Ok?
    ensures var apps := AppListSpec(env, reg, true).value;
      && EachLabelOnce(reg, apps)
      && (forall a :: 0 <= a < |apps| ==> WellGrouped(env, reg, apps[a]) && |apps[a].models| > 0)
      && SortedBy(apps, NameKey)
      && (forall a :: 0 <= a < |apps| ==> SortedBy(apps[a].models, ModelKey))
  {
    var unordered := Unordered(env, reg).value;
    UnorderedFacts(env, reg);
    SortedAppsFacts(env, reg, unordered, SortBy(unordered, NameKey), AppListSpec(env, reg, true).value);
  }

  lemma SortedAppsFacts(env: Env, reg: seq<RegisteredModel>, unordered: seq<AppEntry>, sorted: seq<AppEntry>, apps: seq<AppEntry>)
    requires EachLabelOnce(reg, unordered)
    requires forall a :: 0 <= a < |unordered| ==> WellGrouped(env, reg, unordered[a]) && |unordered[a].models| > 0
    requires sorted == SortBy(unordered, NameKey)
    requires apps == seq(|sorted|, k requires 0 <= k < |sorted| => WithSortedModels(sorted[k]))
    ensures EachLabelOnce(reg, apps)
    ensures forall a :: 0 <= a < |apps| ==> WellGrouped(env, reg, apps[a]) && |apps[a].models| > 0
    ensures SortedBy(apps, NameKey)
    ensures forall a :: 0 <= a < |apps| ==> SortedBy(apps[a].models, ModelKey)
  {
    forall a | 0 <= a < |apps| ensures WellGrouped(env, reg, apps[a]) && |apps[a].models| > 0 {
      SortedAppGrouped(env, reg, unordered, sorted, a);
    }
    SortedLabelsOnce(reg, unordered, sorted, apps);
    forall i, j | 0 <= i < j < |apps| ensures Le(NameKey(apps[i]), NameKey(apps[j])) {
      assert NameKey(apps[i]) == NameKey(sorted[i]) && NameKey(apps[j]) == NameKey(sorted[j]);
    }
  }

  lemma SortedAppGrouped(env: Env, reg: seq<RegisteredModel>, unordered: seq<AppEntry>, sorted: seq<AppEntry>, a: nat)
    requires forall a :: 0 <= a < |unordered| ==> WellGrouped(env, reg, unordered[a]) && |unordered[a].models| > 0
    requires sorted == SortBy(unordered, NameKey)
    requires a < |sorted|
    ensures WellGrouped(env, reg, WithSortedModels(sorted[a])) && |WithSortedModels(sorted[a]).models| > 0
  {
    assert sorted[a] in multiset(unordered);
    var k :| 0 <= k < |unordered| && sorted[a] == unordered[k];
  }

  lemma SortedLabelsOnce(reg: seq<RegisteredModel>, unordered: seq<AppEntry>, sorted: seq<AppEntry>, apps: seq<AppEntry>)
    requires EachLabelOnce(reg, unordered)
    requires sorted == SortBy(unordered, NameKey)
    requires apps == seq(|sorted|, k requires 0 <= k < |sorted| => WithSortedModels(sorted[k]))
    ensures EachLabelOnce(reg, apps)
  {
    DistinctPreserved(unordered, NameKey, (x: AppEntry) => x.appLabel);
    forall i | 0 <= i < |reg| && Visible(reg[i])
      ensures exists a :: 0 <= a < |apps| && apps[a].appLabel == reg[i].appLabel
    {
      var k :| 0 <= k < |unordered| && unordered[k].appLabel == reg[i].appLabel;
      assert unordered[k] in multiset(sorted);
      var a :| 0 <= a < |sorted| && sorted[a] == unordered[k];
      assert apps[a].appLabel == reg[i].appLabel;
    }
  }
}
