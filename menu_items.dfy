/** `get_menu_items`: the side menu of the admin, built from the configured menu, the
    deprecated configured apps, or else the app list itself, with the current entry flagged. */
module MenuItems {
  import opened Common
  import opened Framework
  import opened AppList
  import opened Menu
  import opened CustomMenu
  import opened DeprecatedMenu
  import opened CurrentItem

  /** What `get_menu_items` reads off the request: its path, whether its user is
      authenticated, and the app labels that user has pinned. */
  datatype Request = Request(path: string, authenticated: bool, pinned: set<string>)

  /** The branch taken when neither setting is given: every app lists its models as items. */
  function DefaultAppList(original: seq<MenuApp>): (r: seq<MenuApp>)
    ensures |r| == |original|
    ensures forall k :: 0 <= k < |r| ==> r[k] == original[k].(items := original[k].models)
  {
    seq(|original|, k requires 0 <= k < |original| => original[k].(items := original[k].models))
  }

  /** The default branch only sets each app's `items` to its `models`: dropping them again
      gives back the original records, in their order. */
  lemma DefaultRoundTrip(original: seq<MenuApp>)
    requires Fresh(original)
    ensures var r := DefaultAppList(original);
      && |r| == |original|
      && forall k :: 0 <= k < |r| ==> r[k].items.Some? && r[k].items == r[k].models && r[k].(items := None) == original[k]
  {
  }

  /** The menu the three branches build, before the current entry is flagged. Only the
      default branch cannot raise, and only the configured menu can hold an app without
      `items`. */
  ghost function Branch(env: Env, request: Request, original: seq<MenuApp>,
                        custom: Setting<AppItemConf>, deprecated: Setting<DeprecatedEntry>): (r: Result<seq<MenuApp>, Error>)
    requires IsOriginalList(original)
    ensures r.Err? ==> !custom.Unset? || !deprecated.Unset?
    ensures r.Ok? && custom.Unset? ==> forall k :: 0 <= k < |r.value| ==> r.value[k].items.Some?
  {
    if !custom.Unset? then MenuItemApps(env, original, request.pinned, EntriesFor(custom, env.siteName))
    else if !deprecated.Unset? then DeprecatedSpec(original, EntriesFor(deprecated, env.siteName))
    else Ok(DefaultAppList(original))
  }

  /** `get_menu_items`, as a value. */
  ghost function MenuItemsSpec(env: Env, registry: seq<RegisteredModel>, request: Request,
                               custom: Setting<AppItemConf>, deprecated: Setting<DeprecatedEntry>): Result<seq<MenuApp>, Error>
  {
    var apps :- AppListSpec(env, registry, true);
    OriginalMenuItemsFacts(env, registry, request.authenticated, request.pinned);
    var original := OriginalMenuItems(apps, PinnedApps(request.authenticated, request.pinned));
    var appList :- Branch(env, request, original, custom, deprecated);
    Marked(appList, request.path)
  }

  /** `get_menu_items(context)`: at most one app or model item comes out flagged current,
      and only one whose url the request path starts with. */
  method GetMenuItems(env: Env, registry: seq<RegisteredModel>, request: Request,
                      custom: Setting<AppItemConf>, deprecated: Setting<DeprecatedEntry>)
    returns (r: Result<seq<MenuApp>, Error>)
    ensures r == MenuItemsSpec(env, registry, request, custom, deprecated)
    ensures r.Ok? ==> SingleCurrent(r.value) && FlagsMatch(r.value, request.path)
  {
    var apps :- GetAppList(env, registry, true);
    OriginalMenuItemsFacts(env, registry, request.authenticated, request.pinned);
    var original := OriginalMenuItems(apps, PinnedApps(request.authenticated, request.pinned));
    var appList: seq<MenuApp>;
    if !custom.Unset? {
      appList :- CustomAppList(env, original, request.pinned, EntriesFor(custom, env.siteName));
    } else if !deprecated.Unset? {
      appList :- DeprecatedAppList(original, EntriesFor(deprecated, env.siteName));
    } else {
      appList := DefaultAppList(original);
    }
    BranchUnmarked(env, request, original, custom, deprecated);
    r := MarkCurrent(appList, request.path);
    if r.Ok? {
      MarkedFlags(appList, request.path);
    }
  }

  /** When `get_menu_items` succeeds, the app list was built, the chosen branch produced a
      menu, and the result is that menu with exactly its first matching item or app, in
      walk order, flagged current. */
  lemma MenuItemsCurrent(env: Env, registry: seq<RegisteredModel>, request: Request,
                         custom: Setting<AppItemConf>, deprecated: Setting<DeprecatedEntry>)
    requires MenuItemsSpec(env, registry, request, custom, deprecated).Ok?
    ensures AppListSpec(env, registry, true).Ok?
    ensures var original := OriginalMenuItems(AppListSpec(env, registry, true).value,
                                              PinnedApps(request.authenticated, request.pinned));
      && IsOriginalList(original)
      && Branch(env, request, original, custom, deprecated).Ok?
      && var menu := Branch(env, request, original, custom, deprecated).value;
         var r := MenuItemsSpec(env, registry, request, custom, deprecated).value;
         |r| == |menu| && FlaggedAt(r, FirstHit(menu, request.path, 0))
  {
    OriginalMenuItemsFacts(env, registry, request.authenticated, request.pinned);
    var original := OriginalMenuItems(AppListSpec(env, registry, true).value,
                                      PinnedApps(request.authenticated, request.pinned));
    BranchUnmarked(env, request, original, custom, deprecated);
    MarkedFlags(Branch(env, request, original, custom, deprecated).value, request.path);
  }

  /** None of the records carries a `current` flag. */
  ghost predicate CleanModels(models: seq<MenuModel>) {
    forall j :: 0 <= j < |models| ==> models[j].current.None?
  }

  /** Whichever branch is taken, the menu it builds from the original records carries no
      `current` flag yet. */
  lemma BranchUnmarked(env: Env, request: Request, original: seq<MenuApp>,
                       custom: Setting<AppItemConf>, deprecated: Setting<DeprecatedEntry>)
    requires IsOriginalList(original) && Fresh(original)
    ensures Branch(env, request, original, custom, deprecated).Ok? ==>
      Unmarked(Branch(env, request, original, custom, deprecated).value)
  {
    if !custom.Unset? {
      CustomUnmarked(env, original, request.pinned, EntriesFor(custom, env.siteName));
    } else if !deprecated.Unset? {
      DeprecatedUnmarked(original, EntriesFor(deprecated, env.siteName));
    } else {
      var r := DefaultAppList(original);
      forall k | 0 <= k < |r| && r[k].items.Some?
        ensures forall j :: 0 <= j < |r[k].items.value| ==> r[k].items.value[j].current != Some(true)
      {
        forall j | 0 <= j < |r[k].items.value| ensures r[k].items.value[j].current != Some(true) {
          assert r[k].items.value[j] in original[k].models.value;
        }
      }
    }
  }

  lemma CustomUnmarked(env: Env, original: seq<MenuApp>, pinned: set<string>, entries: seq<AppItemConf>)
    requires IsOriginalList(original) && Fresh(original)
    ensures MenuItemApps(env, original, pinned, entries).Ok? ==> Unmarked(MenuItemApps(env, original, pinned, entries).value)
  {
    if MenuItemApps(env, original, pinned, entries).Ok? {
      var r := MenuItemApps(env, original, pinned, entries).value;
      forall k | 0 <= k < |r|
        ensures r[k].current.None?
        ensures r[k].items.Some? ==> CleanModels(r[k].items.value)
      {
        AppItemClean(env, original, pinned, entries[k]);
      }
    }
  }

  /** A configured app starts from a fresh record and keeps its items' flags unset. */
  lemma AppItemClean(env: Env, original: seq<MenuApp>, pinned: set<string>, data: AppItemConf)
    requires IsOriginalList(original) && Fresh(original)
    requires MenuItemApp(env, original, pinned, data).Ok?
    ensures var a := MenuItemApp(env, original, pinned, data).value;
      a.current.None? && (a.items.Some? ==> CleanModels(a.items.value))
  {
    var appLabel := CustomAppLabel(env, data).value;
    var base := BaseApp(original, appLabel);
    assert base.current.None? && base.items.None? by {
      if exists i :: 0 <= i < |original| && original[i].appLabel == appLabel {
        var i :| 0 <= i < |original| && original[i].appLabel == appLabel;
        assert base == original[i];
      }
    }
    if data.items.Some? {
      var items := MenuItemAppModels(env, original, appLabel, data.items.value).value;
      forall j | 0 <= j < |items| ensures items[j].current.None? {
        ModelItemClean(env, original, appLabel, data.items.value[j]);
      }
    }
  }

  /** A configured model item starts from a fresh record and keeps its flag unset. */
  lemma ModelItemClean(env: Env, original: seq<MenuApp>, appLabel: string, data: ModelItemConf)
    requires IsOriginalList(original) && Fresh(original)
    requires MenuItemAppModel(env, original, appLabel, data).Ok?
    ensures MenuItemAppModel(env, original, appLabel, data).value.current.None?
  {
    var base := BaseModelItem(original, appLabel, data.name);
    if data.name.Some? {
      var t := ModelTarget(appLabel, data.name.value).value;
      if HasModel(original, t.0, t.1) {
        var i, j :| ModelAt(original, t.0, t.1, i, j) && base.value == original[i].models.value[j];
        assert original[i].models.value[j] in original[i].models.value;
      }
    }
  }

  /** Every record of the index is one of the app's records. */
  lemma IndexOfClean(models: seq<MenuModel>)
    requires Named(models) && CleanModels(models)
    ensures forall n :: n in IndexOf(models).byName ==> IndexOf(models).byName[n].current.None?
  {
    forall n | n in IndexOf(models).byName ensures IndexOf(models).byName[n].current.None? {
      IndexOfLast(models, n);
    }
  }

  ghost predicate CleanIndex(ix: Index) {
    forall n :: n in ix.byName ==> ix.byName[n].current.None?
  }

  lemma {:induction false} ApplyLabelsClean(appLabel: string, items: Items, ix: Option<Index>, labels: seq<string>)
    requires ix.Some? ==> ValidIndex(ix.value) && CleanIndex(ix.value)
    requires CleanModels(items.models)
    ensures ApplyLabels(appLabel, items, ix, labels).Ok? ==> CleanModels(ApplyLabels(appLabel, items, ix, labels).value.models)
    decreases |labels|
  {
    if labels != [] && ix.Some? && labels[0] != "__all__" {
      if labels[0] in ix.value.byName {
        if items.Listed? {
          ApplyLabelsClean(appLabel, Listed(items.models + [ix.value.byName[labels[0]]]), ix, labels[1..]);
        }
      } else {
        ApplyLabelsClean(appLabel, items, ix, labels[1..]);
      }
    }
  }

  lemma {:induction false} RunClean(apps: map<string, MenuApp>, index: map<string, Index>, ph: Phase, entries: seq<DeprecatedEntry>)
    requires ValidIndexes(index) && apps.Keys <= ph.items.Keys
    requires forall l :: l in index ==> CleanIndex(index[l])
    requires forall l :: l in ph.items ==> CleanModels(ph.items[l].models)
    ensures Run(apps, index, ph, entries).Ok? ==>
      forall l :: l in Run(apps, index, ph, entries).value.items ==> CleanModels(Run(apps, index, ph, entries).value.items[l].models)
    decreases |entries|
  {
    if entries != [] {
      var e := entries[0];
      if e.appLabel !in apps {
        RunClean(apps, index, ph, entries[1..]);
      } else {
        var ix := IndexFor(index, e.appLabel);
        ApplyLabelsClean(e.appLabel, ph.items[e.appLabel], ix, e.modelLabels);
        var applied := ApplyLabels(e.appLabel, ph.items[e.appLabel], ix, e.modelLabels);
        if applied.Ok? {
          RunClean(apps, index, Phase(ph.items[e.appLabel := applied.value], ph.listed + [e.appLabel]), entries[1..]);
        }
      }
    }
  }

  lemma DeprecatedUnmarked(original: seq<MenuApp>, entries: seq<DeprecatedEntry>)
    requires IsOriginalList(original) && Fresh(original)
    ensures DeprecatedSpec(original, entries).Ok? ==> Unmarked(DeprecatedSpec(original, entries).value)
  {
    OriginalNamed(original);
    var apps := AppDict(original);
    var index := ModelsDict(original);
    forall l | l in index ensures CleanIndex(index[l]) {
      var i :| 0 <= i < |original| && original[i].appLabel == l;
      ModelsDictAt(original, i);
      forall j | 0 <= j < |original[i].models.value| ensures original[i].models.value[j].current.None? {
        assert original[i].models.value[j] in original[i].models.value;
      }
      IndexOfClean(original[i].models.value);
    }
    var start := Phase(InitialItems(original), []);
    RunClean(apps, index, start, entries);
    if DeprecatedSpec(original, entries).Ok? {
      var ph := Run(apps, index, start, entries).value;
      RunShape(apps, index, start, entries);
      KnownIn(apps, entries);
      var r := Project(apps, ph);
      assert DeprecatedSpec(original, entries).value == r;
      forall k | 0 <= k < |r| ensures r[k].current.None? {
        var l := ph.listed[k];
        assert l in Known(apps, entries);
        var i :| 0 <= i < |original| && original[i].appLabel == l;
        AppDictAt(original, i);
      }
    }
  }
}
