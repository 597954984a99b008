/** The menu written in the `JET_SIDE_MENU_ITEMS` setting: the inner functions
    `get_menu_item_app_model` and `get_menu_item_app` of `get_menu_items`, and the loop
    that applies the latter to every configured app. */
module CustomMenu {
  import opened Common
  import opened Strings
  import opened Framework
  import opened Menu

  /** A configured model item: a dict with the optional keys name, label, url, url_blank
      and permissions. */
  datatype ModelItemConf = ModelItemConf(
    name: Option<string>,
    caption: Option<string>,          // the "label" key
    url: Option<UrlSpec>,
    urlBlank: Option<bool>,
    permissions: Option<seq<string>>)

  /** A configured app: a dict with the optional keys app_label, label, items, url,
      url_blank and permissions. */
  datatype AppItemConf = AppItemConf(
    appLabel: Option<string>,
    caption: Option<string>,          // the "label" key
    items: Option<seq<ModelItemConf>>,
    url: Option<UrlSpec>,
    urlBlank: Option<bool>,
    permissions: Option<seq<string>>)

  /** `{"has_perms": True}`. */
  const NewModelItem := MenuModel(None, None, None, None, None, true, None)

  /** `{"app_label": app_label, "has_perms": True}` (its `pinned` is set afterwards). */
  function NewApp(appLabel: string): MenuApp {
    MenuApp(appLabel, None, None, None, true, None, None, false, None, None)
  }

  /** The app label and model name a model item's `name` points to: `app.model`, or a bare
      model name of the enclosing app; a name with two or more dots splits into three parts,
      which do not unpack into two names. */
  function ModelTarget(appLabel: string, name: string): (r: Result<(string, string), Error>)
    ensures r.Err? <==> Count(name, '.') >= 2
    ensures r.Err? ==> r.error == UnpackError
    ensures Count(name, '.') == 0 ==> r == Ok((appLabel, name))
    ensures Count(name, '.') == 1 ==>
      r.Ok? && r.value.0 + "." + r.value.1 == name && '.' !in r.value.0 && '.' !in r.value.1
  {
    var parts := Split(name, '.', 2);
    if |parts| > 1 then
      if |parts| == 2 then Ok((parts[0], parts[1])) else Err(UnpackError)
    else
      Ok((appLabel, name))
  }

  /** The record a configured model item starts from: a copy of the named model of a known
      app, or `{"has_perms": True}`. */
  function BaseModelItem(original: seq<MenuApp>, appLabel: string, name: Option<string>): (r: Result<MenuModel, Error>)
    requires IsOriginalList(original)
    ensures r.Err? <==> name.Some? && Count(name.value, '.') >= 2
    ensures r.Ok? && name.Some? ==> var t := ModelTarget(appLabel, name.value).value;
      if HasModel(original, t.0, t.1)
      then exists i, j :: ModelAt(original, t.0, t.1, i, j) && r.value == original[i].models.value[j]
      else r.value == NewModelItem
    ensures r.Ok? && name.None? ==> r.value == NewModelItem
  {
    if name.None? then Ok(NewModelItem)
    else
      var target :- ModelTarget(appLabel, name.value);
      match FindApp(original, target.0)
      case None => Ok(NewModelItem)
      case Some(app) =>
        assert forall i :: 0 <= i < |original| && original[i].appLabel == target.0 ==> original[i] == app;
        match FindModel(app.models.value, target.1)
        case None => Ok(NewModelItem)
        case Some(m) =>
          var i :| 0 <= i < |original| && original[i] == app;
          var j :| 0 <= j < |app.models.value| && app.models.value[j] == m;
          assert ModelAt(original, target.0, target.1, i, j);
          Ok(m)
  }

  /** `get_menu_item_app_model(app_label, data)`. */
  function MenuItemAppModel(env: Env, original: seq<MenuApp>, appLabel: string, data: ModelItemConf): (r: Result<MenuModel, Error>)
    requires IsOriginalList(original)
    ensures data.name.Some? && Count(data.name.value, '.') >= 2 ==> r == Err(UnpackError)
    ensures r.Ok? ==> BaseModelItem(original, appLabel, data.name).Ok?
    ensures r.Ok? ==> var base := BaseModelItem(original, appLabel, data.name).value;
      && r.value.name == base.name && r.value.objectName == base.objectName && r.value.current == base.current
      && r.value.caption == (if data.caption.Some? then data.caption else base.caption)
      && r.value.urlBlank == (if data.urlBlank.Some? then data.urlBlank else base.urlBlank)
      && (r.value.hasPerms ==> base.hasPerms)
      && (data.permissions.None? ==> r.value.hasPerms == base.hasPerms)
      && (data.permissions.Some? ==> r.value.hasPerms == (base.hasPerms && env.userHasPerms(data.permissions.value)))
    ensures r.Ok? ==> if data.url.Some?
      then MenuItemUrl(env, original, data.url.value) == Ok(r.value.url)
      else r.value.url == BaseModelItem(original, appLabel, data.name).value.url
    ensures r.Err? <==> BaseModelItem(original, appLabel, data.name).Err? ||
                        (data.url.Some? && MenuItemUrl(env, original, data.url.value).Err?)
  {
    var base :- BaseModelItem(original, appLabel, data.name);
    var labelled := if data.caption.Some? then base.(caption := data.caption) else base;
    var linked :- if data.url.None? then Ok(labelled) else (
      var url :- MenuItemUrl(env, original, data.url.value);
      Ok(labelled.(url := url)));
    var blanked := if data.urlBlank.Some? then linked.(urlBlank := data.urlBlank) else linked;
    var permitted :=
      if data.permissions.Some?
      then blanked.(hasPerms := blanked.hasPerms && env.userHasPerms(data.permissions.value))
      else blanked;
    Ok(permitted)
  }

  /** A list built one computation at a time, as a comprehension or an appending loop
      builds it: all the values when none raises, else the error of the first that does. */
  function Collect<T>(rs: seq<Result<T, Error>>): (r: Result<seq<T>, Error>)
    ensures r.Ok? <==> forall k :: 0 <= k < |rs| ==> rs[k].Ok?
    ensures r.Ok? ==> |r.value| == |rs| && forall k :: 0 <= k < |rs| ==> r.value[k] == rs[k].value
    ensures r.Err? ==> exists k :: 0 <= k < |rs| && (forall j :: 0 <= j < k ==> rs[j].Ok?) && rs[k] == Err(r.error)
  {
    if rs == [] then Ok([])
    else
      var first :- rs[0];
      var rest :- Collect(rs[1..]);
      Ok([first] + rest)
  }

  /** When nothing raises, the list is the values in order. */
  lemma {:induction false} CollectOk<T>(rs: seq<Result<T, Error>>, xs: seq<T>)
    requires |xs| == |rs| && forall k :: 0 <= k < |rs| ==> rs[k].Ok? && xs[k] == rs[k].value
    ensures Collect(rs) == Ok(xs)
  {
    if rs != [] {
      CollectOk(rs[1..], xs[1..]);
      assert xs == [xs[0]] + xs[1..];
    }
  }

  /** When the `i`-th computation is the first to raise, its error is the list's. */
  lemma {:induction false} CollectErr<T>(rs: seq<Result<T, Error>>, i: nat)
    requires i < |rs| && rs[i].Err? && forall k :: 0 <= k < i ==> rs[k].Ok?
    ensures Collect(rs) == Err(rs[i].error)
  {
    if i > 0 {
      CollectErr(rs[1..], i - 1);
    }
  }

  /** `[get_menu_item_app_model(app_label, x) for x in items]`: stops at the first item that raises. */
  function MenuItemAppModels(env: Env, original: seq<MenuApp>, appLabel: string, items: seq<ModelItemConf>): (r: Result<seq<MenuModel>, Error>)
    requires IsOriginalList(original)
    ensures r.Ok? <==> forall k :: 0 <= k < |items| ==> MenuItemAppModel(env, original, appLabel, items[k]).Ok?
    ensures r.Ok? ==>
      && |r.value| == |items|
      && forall k :: 0 <= k < |items| ==> r.value[k] == MenuItemAppModel(env, original, appLabel, items[k]).value
    ensures r.Err? ==> exists k ::
      && 0 <= k < |items|
      && (forall j :: 0 <= j < k ==> MenuItemAppModel(env, original, appLabel, items[j]).Ok?)
      && MenuItemAppModel(env, original, appLabel, items[k]) == Err(r.error)
  {
    var rs := seq(|items|, k requires 0 <= k < |items| => MenuItemAppModel(env, original, appLabel, items[k]));
    assert forall k :: 0 <= k < |items| ==> rs[k] == MenuItemAppModel(env, original, appLabel, items[k]);
    Collect(rs)
  }

  /** The label a configured app is filed under: its `app_label`, or, when that is missing
      or empty, "custom_" followed by the slug of its `label`; without either it raises. */
  function CustomAppLabel(env: Env, data: AppItemConf): (r: Result<string, Error>)
    ensures r.Err? <==> (data.appLabel.None? || data.appLabel.value == "") && data.caption.None?
    ensures r.Err? ==> r.error == MissingLabel
    ensures data.appLabel.Some? && data.appLabel.value != "" ==> r == Ok(data.appLabel.value)
    ensures (data.appLabel.None? || data.appLabel.value == "") && data.caption.Some? ==>
      r == Ok("custom_" + env.slugify(data.caption.value))
  {
    if data.appLabel.Some? && data.appLabel.value != "" then Ok(data.appLabel.value)
    else if data.caption.None? then Err(MissingLabel)
    else Ok("custom_" + env.slugify(data.caption.value))
  }

  /** The record a configured app starts from: a copy of the known app with that label, or a new one. */
  function BaseApp(original: seq<MenuApp>, appLabel: string): (a: MenuApp)
    requires IsOriginalList(original)
    ensures a.appLabel == appLabel
    ensures forall i :: 0 <= i < |original| && original[i].appLabel == appLabel ==> a == original[i]
    ensures (forall i :: 0 <= i < |original| ==> original[i].appLabel != appLabel) ==> a == NewApp(appLabel)
  {
    FindApp(original, appLabel).GetOr(NewApp(appLabel))
  }

  /** The `items` of a configured app: its model items built one by one, or those of `base`. */
  function ConfiguredItems(env: Env, original: seq<MenuApp>, base: MenuApp, data: AppItemConf): (r: Result<Option<seq<MenuModel>>, Error>)
    requires IsOriginalList(original)
    ensures data.items.None? ==> r == Ok(base.items)
    ensures data.items.Some? ==>
      && (r.Ok? <==> MenuItemAppModels(env, original, base.appLabel, data.items.value).Ok?)
      && (r.Ok? ==> r.value.Some? && MenuItemAppModels(env, original, base.appLabel, data.items.value) == Ok(r.value.value))
      && (r.Err? ==> MenuItemAppModels(env, original, base.appLabel, data.items.value) == Err(r.error))
  {
    if data.items.None? then Ok(base.items)
    else
      var items :- MenuItemAppModels(env, original, base.appLabel, data.items.value);
      Ok(Some(items))
  }

  /** The `url` of a configured app: its resolved url, or that of `base`. */
  function ConfiguredUrl(env: Env, original: seq<MenuApp>, base: MenuApp, data: AppItemConf): (r: Result<Option<string>, Error>)
    requires IsOriginalList(original)
    ensures data.url.None? ==> r == Ok(base.url)
    ensures data.url.Some? ==> r == MenuItemUrl(env, original, data.url.value)
  {
    if data.url.None? then Ok(base.url) else MenuItemUrl(env, original, data.url.value)
  }

  /** The keys of a configured app laid over the record it starts from: its label, items,
      url and url_blank replace those of `base` when given, and its permissions can only
      withdraw `has_perms`. */
  function Customize(env: Env, original: seq<MenuApp>, base: MenuApp, data: AppItemConf): (r: Result<MenuApp, Error>)
    requires IsOriginalList(original)
    ensures r.Ok? ==>
      && r.value.appLabel == base.appLabel && r.value.pinned == base.pinned
      && r.value.models == base.models && r.value.custom == base.custom && r.value.current == base.current
      && r.value.caption == (if data.caption.Some? then data.caption else base.caption)
      && r.value.urlBlank == (if data.urlBlank.Some? then data.urlBlank else base.urlBlank)
      && (r.value.hasPerms ==> base.hasPerms)
      && (data.permissions.None? ==> r.value.hasPerms == base.hasPerms)
      && (data.permissions.Some? ==> r.value.hasPerms == (base.hasPerms && env.userHasPerms(data.permissions.value)))
      && ConfiguredItems(env, original, base, data) == Ok(r.value.items)
      && ConfiguredUrl(env, original, base, data) == Ok(r.value.url)
    ensures r.Err? <==> ConfiguredItems(env, original, base, data).Err? || ConfiguredUrl(env, original, base, data).Err?
  {
    var items :- ConfiguredItems(env, original, base, data);
    var url :- ConfiguredUrl(env, original, base, data);
    Ok(base.(
      caption := if data.caption.Some? then data.caption else base.caption,
      items := items,
      url := url,
      urlBlank := if data.urlBlank.Some? then data.urlBlank else base.urlBlank,
      hasPerms := base.hasPerms && (data.permissions.Some? ==> env.userHasPerms(data.permissions.value))))
  }

  /** `get_menu_item_app(data)`: the configured keys laid over the known app of that label
      (or a new one), pinned exactly when the label is among the pinned apps. */
  function MenuItemApp(env: Env, original: seq<MenuApp>, pinned: set<string>, data: AppItemConf): (r: Result<MenuApp, Error>)
    requires IsOriginalList(original)
    ensures CustomAppLabel(env, data).Err? ==> r == Err(MissingLabel)
    ensures r.Ok? ==> CustomAppLabel(env, data).Ok?
    ensures r.Ok? ==>
      var base := BaseApp(original, CustomAppLabel(env, data).value);
      && Customize(env, original, base, data).Ok?
      && r.value == Customize(env, original, base, data).value.(pinned := base.appLabel in pinned)
    ensures r.Ok? ==> r.value.appLabel == CustomAppLabel(env, data).value && (r.value.pinned <==> r.value.appLabel in pinned)
  {
    var appLabel :- CustomAppLabel(env, data);
    var custom :- Customize(env, original, BaseApp(original, appLabel), data);
    Ok(custom.(pinned := custom.appLabel in pinned))
  }

  /** The configured menu: one record per configured app, in configuration order, unless
      one of them raises, in which case the first such error. */
  function MenuItemApps(env: Env, original: seq<MenuApp>, pinned: set<string>, entries: seq<AppItemConf>): (r: Result<seq<MenuApp>, Error>)
    requires IsOriginalList(original)
    ensures r.Ok? <==> forall k :: 0 <= k < |entries| ==> MenuItemApp(env, original, pinned, entries[k]).Ok?
    ensures r.Ok? ==>
      && |r.value| == |entries|
      && forall k :: 0 <= k < |entries| ==> r.value[k] == MenuItemApp(env, original, pinned, entries[k]).value
    ensures r.Err? ==> exists k ::
      && 0 <= k < |entries|
      && (forall j :: 0 <= j < k ==> MenuItemApp(env, original, pinned, entries[j]).Ok?)
      && MenuItemApp(env, original, pinned, entries[k]) == Err(r.error)
  {
    var rs := AppResults(env, original, pinned, entries);
    assert forall k :: 0 <= k < |entries| ==> rs[k] == MenuItemApp(env, original, pinned, entries[k]);
    Collect(rs)
  }

  /** `get_menu_item_app` of each configured app, raised or not. */
  function AppResults(env: Env, original: seq<MenuApp>, pinned: set<string>, entries: seq<AppItemConf>): (rs: seq<Result<MenuApp, Error>>)
    requires IsOriginalList(original)
    ensures |rs| == |entries|
  {
    seq(|entries|, k requires 0 <= k < |entries| => MenuItemApp(env, original, pinned, entries[k]))
  }

  /** The first `i` configured apps have been built into `appList`, none raising. */
  ghost predicate Built(env: Env, original: seq<MenuApp>, pinned: set<string>, entries: seq<AppItemConf>, i: nat, appList: seq<MenuApp>)
    requires IsOriginalList(original)
  {
    var rs := AppResults(env, original, pinned, entries);
    && i <= |entries| && |appList| == i
    && forall k :: 0 <= k < i ==> rs[k].Ok? && appList[k] == rs[k].value
  }

  /** A configured app that does not raise extends the list. */
  lemma BuiltStep(env: Env, original: seq<MenuApp>, pinned: set<string>, entries: seq<AppItemConf>, i: nat, appList: seq<MenuApp>, item: Result<MenuApp, Error>)
    requires IsOriginalList(original) && Built(env, original, pinned, entries, i, appList)
    requires i < |entries| && item == MenuItemApp(env, original, pinned, entries[i]) && item.Ok?
    ensures Built(env, original, pinned, entries, i + 1, appList + [item.value])
  {
  }

  /** The first configured app that raises decides the error of the whole list. */
  lemma BuiltErr(env: Env, original: seq<MenuApp>, pinned: set<string>, entries: seq<AppItemConf>, i: nat, appList: seq<MenuApp>, item: Result<MenuApp, Error>)
    requires IsOriginalList(original) && Built(env, original, pinned, entries, i, appList)
    requires i < |entries| && item == MenuItemApp(env, original, pinned, entries[i]) && item.Err?
    ensures MenuItemApps(env, original, pinned, entries) == Err(item.error)
  {
    CollectErr(AppResults(env, original, pinned, entries), i);
  }

  /** Once every configured app is built, the list is the configured menu. */
  lemma BuiltDone(env: Env, original: seq<MenuApp>, pinned: set<string>, entries: seq<AppItemConf>, appList: seq<MenuApp>)
    requires IsOriginalList(original) && Built(env, original, pinned, entries, |entries|, appList)
    ensures MenuItemApps(env, original, pinned, entries) == Ok(appList)
  {
    CollectOk(AppResults(env, original, pinned, entries), appList);
  }

  /** The loop over the configured apps (`for data in custom_app_list`). */
  method CustomAppList(env: Env, original: seq<MenuApp>, pinned: set<string>, entries: seq<AppItemConf>)
    returns (r: Result<seq<MenuApp>, Error>)
    requires IsOriginalList(original)
    ensures r == MenuItemApps(env, original, pinned, entries)
  {
    var appList: seq<MenuApp> := [];
    for i := 0 to |entries|
      invariant Built(env, original, pinned, entries, i, appList)
    {
      var item := MenuItemApp(env, original, pinned, entries[i]);
      if item.Err? {
        BuiltErr(env, original, pinned, entries, i, appList, item);
        return Err(item.error);
      }
      BuiltStep(env, original, pinned, entries, i, appList, item);
      appList := appList + [item.value];
    }
    BuiltDone(env, original, pinned, entries, appList);
    return Ok(appList);
  }
}
