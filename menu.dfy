/** The side-menu records (`get_original_menu_items`) and the resolution of a configured
    menu URL (`get_menu_item_url`). */
module Menu {
  import opened Common
  import opened Framework
  import opened AppList
  import opened AppListProperties

  /** A model entry of the menu. Every key may be absent in an entry written in the
      custom configuration, except `has_perms`. */
  datatype MenuModel = MenuModel(
    url: Option<string>,         // "url": an absent key and the value None read alike
    urlBlank: Option<bool>,
    name: Option<string>,        // the model_name
    objectName: Option<string>,
    caption: Option<string>,     // the "label" key
    hasPerms: bool,
    current: Option<bool>)

  /** An app entry of the menu. */
  datatype MenuApp = MenuApp(
    appLabel: string,
    url: Option<string>,
    urlBlank: Option<bool>,
    caption: Option<string>,     // the "label" key
    hasPerms: bool,
    models: Option<seq<MenuModel>>,
    items: Option<seq<MenuModel>>,
    pinned: bool,
    custom: Option<bool>,
    current: Option<bool>)

  function MenuModelOf(e: ModelEntry): MenuModel {
    MenuModel(e.adminUrl, Some(false), Some(e.modelName), Some(e.objectName), Some(e.name),
              true in e.perms.Values, None)
  }

  function MenuAppOf(a: AppEntry, pinnedApps: set<string>): MenuApp {
    MenuApp(
      a.appLabel, Some(a.appUrl), Some(false), Some(a.name), a.hasModulePerms,
      Some(seq(|a.models|, k requires 0 <= k < |a.models| => MenuModelOf(a.models[k]))),
      None, a.appLabel in pinnedApps, Some(false), None)
  }

  /** The pinned app labels `get_original_menu_items` consults: those of the request's
      user when there is an authenticated one, none otherwise. */
  function PinnedApps(authenticated: bool, pinned: set<string>): (r: set<string>)
    ensures r <= pinned
    ensures authenticated ==> r == pinned
    ensures !authenticated ==> r == {}
  {
    if authenticated then pinned else {}
  }

  /** `get_original_menu_items`: one menu record per app of the (ordered) app list. */
  function OriginalMenuItems(apps: seq<AppEntry>, pinnedApps: set<string>): (r: seq<MenuApp>)
    ensures |r| == |apps|
    ensures forall k :: 0 <= k < |r| ==>
      && r[k].appLabel == apps[k].appLabel && r[k].url == Some(apps[k].appUrl)
      && (r[k].pinned <==> apps[k].appLabel in pinnedApps)
      && r[k].custom == Some(false) && r[k].urlBlank == Some(false)
      && r[k].items.None? && r[k].current.None?
      && r[k].models.Some? && |r[k].models.value| == |apps[k].models|
      && forall j :: 0 <= j < |apps[k].models| ==>
           r[k].models.value[j].objectName == Some(apps[k].models[j].objectName) && r[k].models.value[j].current.None?
  {
    seq(|apps|, k requires 0 <= k < |apps| => MenuAppOf(apps[k], pinnedApps))
  }

  /** The shape of `original_app_list`, an ordered dict keyed by app label whose apps all
      carry their model records. */
  predicate IsOriginalList(apps: seq<MenuApp>) {
    && (forall i, j :: 0 <= i < j < |apps| ==> apps[i].appLabel != apps[j].appLabel)
    && (forall i :: 0 <= i < |apps| ==> apps[i].models.Some?)
    && (forall i, m :: 0 <= i < |apps| && apps[i].models.Some? && m in apps[i].models.value ==>
          m.name.Some? && m.objectName.Some?)
  }

  /** No app or item of the menu carries a `current` flag or, for apps, an `items` list yet. */
  ghost predicate Fresh(apps: seq<MenuApp>) {
    forall i :: 0 <= i < |apps| ==>
      && apps[i].current.None?
      && apps[i].items.None?
      && apps[i].models.Some?
      && forall m :: m in apps[i].models.value ==> m.current.None?
  }

  /** `original_app_list[app_label]`: the app stored under that key, if any. */
  function FindApp(apps: seq<MenuApp>, appLabel: string): (r: Option<MenuApp>)
    ensures r.Some? <==> exists i :: 0 <= i < |apps| && apps[i].appLabel == appLabel
    ensures r.Some? ==> r.value in apps && r.value.appLabel == appLabel
  {
    if apps == [] then None
    else if apps[|apps| - 1].appLabel == appLabel then Some(apps[|apps| - 1])
    else
      var r := FindApp(apps[..|apps| - 1], appLabel);
      assert forall i :: 0 <= i < |apps| - 1 ==> apps[..|apps| - 1][i] == apps[i];
      r
  }

  /** `{x["name"]: x for x in models}[name]`: the last model record with that name, if any. */
  function FindModel(models: seq<MenuModel>, name: string): (r: Option<MenuModel>)
    ensures r.Some? <==> exists i :: 0 <= i < |models| && models[i].name == Some(name)
    ensures r.Some? ==> r.value in models && r.value.name == Some(name)
    ensures r.Some? ==> forall i :: 0 <= i < |models| && models[i].name == Some(name) && models[i] != r.value ==>
      exists j :: i < j < |models| && models[j] == r.value
  {
    if models == [] then None
    else if models[|models| - 1].name == Some(name) then Some(models[|models| - 1])
    else
      var r := FindModel(models[..|models| - 1], name);
      assert forall i :: 0 <= i < |models| - 1 ==> models[..|models| - 1][i] == models[i];
      r
  }

  /** A URL as written in the menu configuration: a string, a dict with `type` "app",
      "model" or "reverse" and the keys each needs, another dict, or any other value. */
  datatype UrlSpec =
    | Text(text: string)
    | AppUrlSpec(app: Option<string>)
    | ModelUrlSpec(app: Option<string>, model: Option<string>)
    | ReverseSpec(name: Option<string>, args: seq<string>, kwargs: map<string, string>)
    | OtherDict
    | OtherValue

  /** `get_menu_item_url`. */
  function MenuItemUrl(env: Env, original: seq<MenuApp>, spec: UrlSpec): (r: Result<Option<string>, Error>)
    requires IsOriginalList(original)
    ensures spec.Text? ==> r == Ok(Some(spec.text))
    ensures spec.OtherDict? || spec.OtherValue? ==> r == Ok(None)
    ensures spec.AppUrlSpec? ==>
      && (r.Ok? <==> spec.app.Some? && exists i :: 0 <= i < |original| && original[i].appLabel == spec.app.value)
      && (r.Ok? ==> exists i :: 0 <= i < |original| && original[i].appLabel == spec.app.value && r.value == original[i].url)
    ensures spec.ModelUrlSpec? ==>
      && (r.Ok? <==> (spec.app.Some? && spec.model.Some? && HasModel(original, spec.app.value, spec.model.value)))
      && (r.Ok? ==> exists i, j :: ModelAt(original, spec.app.value, spec.model.value, i, j) &&
                                  r.value == original[i].models.value[j].url)
    ensures spec.ReverseSpec? ==>
      && (r.Ok? <==> spec.name.Some? && env.reverse(ReverseCall(spec.name.value, spec.args, spec.kwargs, None)).Some?)
      && (r.Ok? ==> r.value == env.reverse(ReverseCall(spec.name.value, spec.args, spec.kwargs, None)))
    ensures spec.AppUrlSpec? && r.Err? ==> r.error == KeyError(if spec.app.None? then "app_label" else spec.app.value)
    ensures spec.ModelUrlSpec? && r.Err? ==>
      r.error == KeyError("app_label") || r.error == KeyError("model")
      || (spec.app.Some? && r.error == KeyError(spec.app.value)) || (spec.model.Some? && r.error == KeyError(spec.model.value))
    ensures spec.ModelUrlSpec? && spec.app.None? ==> r == Err(KeyError("app_label"))
    ensures spec.ReverseSpec? && r.Err? ==> r.error == if spec.name.None? then KeyError("name") else NoReverseMatch(spec.name.value)
  {
    match spec
    case Text(text) => Ok(Some(text))
    case AppUrlSpec(app) =>
      if app.None? then Err(KeyError("app_label"))
      else (
        match FindApp(original, app.value)
        case None => Err(KeyError(app.value))
        case Some(a) => Ok(a.url))
    case ModelUrlSpec(app, model) =>
      if app.None? then Err(KeyError("app_label"))
      else (
        match FindApp(original, app.value)
        case None => Err(KeyError(app.value))
        case Some(a) =>
          if model.None? then Err(KeyError("model"))
          else (
            match FindModel(a.models.value, model.value)
            case None =>
              assert forall i :: 0 <= i < |original| && original[i].appLabel == app.value ==> original[i] == a;
              Err(KeyError(model.value))
            case Some(m) =>
              var i :| 0 <= i < |original| && original[i] == a;
              var j :| 0 <= j < |a.models.value| && a.models.value[j] == m;
              assert ModelAt(original, app.value, model.value, i, j);
              Ok(m.url)))
    case ReverseSpec(name, args, kwargs) =>
      if name.None? then Err(KeyError("name"))
      else (
        match env.reverse(ReverseCall(name.value, args, kwargs, None))
        case None => Err(NoReverseMatch(name.value))
        case Some(url) => Ok(Some(url)))
    case OtherDict => Ok(None)
    case OtherValue => Ok(None)
  }

  /** App `app` of `original` sits at index `i` and its `j`-th model is named `model`. */
  ghost predicate ModelAt(original: seq<MenuApp>, app: string, model: string, i: int, j: int)
    requires IsOriginalList(original)
  {
    && 0 <= i < |original| && original[i].appLabel == app
    && 0 <= j < |original[i].models.value| && original[i].models.value[j].name == Some(model)
  }

  ghost predicate HasModel(original: seq<MenuApp>, app: string, model: string)
    requires IsOriginalList(original)
  {
    exists i, j :: ModelAt(original, app, model, i, j)
  }

  /** A model record of app `app` derives from a visible registered model of that app:
      it links to the change list only under the `change` permission. */
  ghost predicate FromRegistry(env: Env, reg: seq<RegisteredModel>, app: string, m: MenuModel) {
    exists i :: 0 <= i < |reg| && Visible(reg[i]) && reg[i].appLabel == app && m == MenuModelOf(EntryOf(env, reg[i]))
  }

  /** `get_original_menu_items` yields one record per listed app, in the same order, with
      `has_perms` set, `custom` false and `pinned` exactly for the pinned apps of an
      authenticated user; each model record comes from a visible model of its app, so it
      has `has_perms` set and links to its change list only under the `change` permission. */
  lemma OriginalMenuItemsFacts(env: Env, reg: seq<RegisteredModel>, authenticated: bool, pinned: set<string>)
    requires AppListSpec(env, reg, true).Ok?
    ensures var apps := AppListSpec(env, reg, true).value;
      var items := OriginalMenuItems(apps, PinnedApps(authenticated, pinned));
      && |items| == |apps|
      && IsOriginalList(items)
      && Fresh(items)
      && forall k :: 0 <= k < |items| ==>
           && items[k].appLabel == apps[k].appLabel
           && items[k].url == Some(apps[k].appUrl)
           && items[k].hasPerms
           && (items[k].pinned <==> authenticated && apps[k].appLabel in pinned)
           && items[k].custom == Some(false)
           && (forall m :: m in items[k].models.value ==> m.hasPerms && FromRegistry(env, reg, apps[k].appLabel, m))
  {
    var apps := AppListSpec(env, reg, true).value;
    var pinnedApps := PinnedApps(authenticated, pinned);
    var items := OriginalMenuItems(apps, pinnedApps);
    AppListShape(env, reg, true);
    forall k | 0 <= k < |items|
      ensures forall m :: m in items[k].models.value ==> m.hasPerms && FromRegistry(env, reg, apps[k].appLabel, m)
      ensures items[k].models.Some?
      ensures forall m :: m in items[k].models.value ==> m.name.Some? && m.objectName.Some? && m.current.None?
    {
      AppRecordFacts(env, reg, apps[k], pinnedApps);
    }
    assert IsOriginalList(items);
  }

  lemma AppRecordFacts(env: Env, reg: seq<RegisteredModel>, a: AppEntry, pinnedApps: set<string>)
    requires WellGrouped(env, reg, a)
    ensures var item := MenuAppOf(a, pinnedApps);
      forall m :: m in item.models.value ==>
        && m.hasPerms && FromRegistry(env, reg, a.appLabel, m)
        && m.name.Some? && m.objectName.Some? && m.current.None?
  {
    var models := MenuAppOf(a, pinnedApps).models.value;
    forall t | 0 <= t < |a.models|
      ensures models[t].hasPerms && FromRegistry(env, reg, a.appLabel, models[t])
    {
      ModelRecordFacts(env, reg, a, t);
    }
  }

  lemma ModelRecordFacts(env: Env, reg: seq<RegisteredModel>, a: AppEntry, t: nat)
    requires WellGrouped(env, reg, a) && t < |a.models|
    ensures var m := MenuModelOf(a.models[t]); m.hasPerms && FromRegistry(env, reg, a.appLabel, m)
  {
    var e := a.models[t];
    assert e in multiset(a.models);
    assert e in ModelsOf(env, reg, a.appLabel);
    ModelsOfExact(env, reg, a.appLabel);
    var i :| 0 <= i < |reg| && Visible(reg[i]) && reg[i].appLabel == a.appLabel && e == EntryOf(env, reg[i]);
    assert true in e.perms.Values;
  }
}
