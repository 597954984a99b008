/** The menu written in the deprecated `JET_SIDE_MENU_CUSTOM_APPS` setting: a list of
    `(app_label, model labels)` pairs that pick models of the known apps by object name,
    or all of them with "__all__". */
module DeprecatedMenu {
  import opened Common
  import opened Menu

  /** One `(app_label, models)` pair of the setting. */
  datatype DeprecatedEntry = DeprecatedEntry(appLabel: string, modelLabels: seq<string>)

  /** `models_dict[app_label]`: model records keyed by object name, as an insertion-ordered
      dict: `names` in first-insertion order, `byName` holding the last record stored. */
  datatype Index = Index(names: seq<string>, byName: map<string, MenuModel>)

  ghost predicate ValidIndex(ix: Index) {
    && (forall i, j :: 0 <= i < j < |ix.names| ==> ix.names[i] != ix.names[j])
    && (forall n :: n in ix.byName <==> n in ix.names)
  }

  /** `d[name] = m` on an insertion-ordered dict. */
  function Put(ix: Index, name: string, m: MenuModel): (r: Index)
    requires ValidIndex(ix)
    ensures ValidIndex(r)
    ensures r.byName == ix.byName[name := m]
    ensures name in ix.byName ==> r.names == ix.names
    ensures name !in ix.byName ==> r.names == ix.names + [name]
  {
    Index(if name in ix.byName then ix.names else ix.names + [name], ix.byName[name := m])
  }

  /** `d.values()`: the records in key order. */
  function Values(ix: Index): (r: seq<MenuModel>)
    requires ValidIndex(ix)
    ensures |r| == |ix.names|
    ensures forall k :: 0 <= k < |r| ==> r[k] == ix.byName[ix.names[k]]
  {
    seq(|ix.names|, k requires 0 <= k < |ix.names| => ix.byName[ix.names[k]])
  }

  ghost predicate Named(models: seq<MenuModel>) {
    forall i :: 0 <= i < |models| ==> models[i].objectName.Some?
  }

  /** The index of an app's model records: each object name maps to the last record with
      that name, and names keep the order in which they first occur. */
  function IndexOf(models: seq<MenuModel>): (ix: Index)
    requires Named(models)
    ensures ValidIndex(ix)
  {
    if models == [] then Index([], map[])
    else
      var init := models[..|models| - 1];
      var last := models[|models| - 1];
      assert forall i :: 0 <= i < |init| ==> init[i] == models[i];
      Put(IndexOf(init), last.objectName.value, last)
  }

  /** `models[i]` is the last record named `n`. */
  ghost predicate LastNamed(models: seq<MenuModel>, n: string, i: int) {
    && 0 <= i < |models| && models[i].objectName == Some(n)
    && forall j :: i < j < |models| ==> models[j].objectName != Some(n)
  }

  /** Each object name of the index holds the last record with that name. */
  lemma {:induction false} IndexOfLast(models: seq<MenuModel>, n: string)
    requires Named(models) && n in IndexOf(models).byName
    ensures exists i :: LastNamed(models, n, i) && models[i] == IndexOf(models).byName[n]
  {
    var init := models[..|models| - 1];
    var last := models[|models| - 1];
    IndexOfInit(models);
    if last.objectName == Some(n) {
      assert LastNamed(models, n, |models| - 1);
    } else {
      IndexOfLast(init, n);
      var i :| LastNamed(init, n, i) && init[i] == IndexOf(init).byName[n];
      LastNamedExtend(models, n, i);
    }
  }

  /** A record that is the last named `n` stays so when a record of another name follows. */
  lemma LastNamedExtend(models: seq<MenuModel>, n: string, i: int)
    requires models != [] && models[|models| - 1].objectName != Some(n)
    requires LastNamed(models[..|models| - 1], n, i)
    ensures LastNamed(models, n, i) && models[i] == models[..|models| - 1][i]
  {
    var init := models[..|models| - 1];
    forall j | i < j < |models| ensures models[j].objectName != Some(n) {
      if j < |init| {
        assert models[j] == init[j];
        assert init[j].objectName != Some(n);
      }
    }
  }

  /** The index of a non-empty list is that of all but its last record, with the last
      record stored. */
  lemma IndexOfInit(models: seq<MenuModel>)
    requires Named(models) && models != []
    ensures Named(models[..|models| - 1])
    ensures IndexOf(models).byName ==
      IndexOf(models[..|models| - 1]).byName[models[|models| - 1].objectName.value := models[|models| - 1]]
    ensures IndexOf(models) == Put(IndexOf(models[..|models| - 1]), models[|models| - 1].objectName.value, models[|models| - 1])
  {
    NamedPrefix(models, |models| - 1);
  }

  /** A name is a key of the index of a non-empty list iff it is a key of the index of
      all but the last record or the last record's name. */
  lemma IndexOfKeyStep(models: seq<MenuModel>, n: string)
    requires Named(models) && models != []
    ensures Named(models[..|models| - 1])
    ensures n in IndexOf(models).byName <==>
      n in IndexOf(models[..|models| - 1]).byName || models[|models| - 1].objectName == Some(n)
  {
    IndexOfInit(models);
  }

  /** The keys of the index are exactly the object names of the records. */
  lemma {:induction false} IndexOfKeys(models: seq<MenuModel>, n: string)
    requires Named(models)
    ensures n in IndexOf(models).byName <==> exists i :: 0 <= i < |models| && models[i].objectName == Some(n)
  {
    if models != [] {
      var init := models[..|models| - 1];
      var last := |models| - 1;
      IndexOfKeyStep(models, n);
      IndexOfKeys(init, n);
      if n in IndexOf(models).byName {
        if models[last].objectName != Some(n) {
          var i :| 0 <= i < |init| && init[i].objectName == Some(n);
          assert models[i] == init[i];
        }
      }
      if exists i :: 0 <= i < |models| && models[i].objectName == Some(n) {
        var i :| 0 <= i < |models| && models[i].objectName == Some(n);
        if i < last {
          assert init[i] == models[i];
        }
      }
    }
  }

  /** No two records share an object name. */
  ghost predicate DistinctNames(models: seq<MenuModel>) {
    forall i, j :: 0 <= i < j < |models| ==> models[i].objectName != models[j].objectName
  }

  /** With distinct object names, the values of the index are the records themselves, in order. */
  lemma {:induction false} IndexOfDistinct(models: seq<MenuModel>)
    requires Named(models) && DistinctNames(models)
    ensures Values(IndexOf(models)) == models
  {
    if models != [] {
      var init := models[..|models| - 1];
      var last := models[|models| - 1];
      DistinctInit(models);
      IndexOfDistinct(init);
      var name := last.objectName.value;
      IndexOfKeys(init, name);
      IndexOfInit(models);
      ValuesPutNew(IndexOf(init), name, last);
      assert init + [last] == models;
    }
  }

  lemma DistinctInit(models: seq<MenuModel>)
    requires Named(models) && DistinctNames(models) && models != []
    ensures Named(models[..|models| - 1]) && DistinctNames(models[..|models| - 1])
    ensures forall i :: 0 <= i < |models| - 1 ==> models[i].objectName != models[|models| - 1].objectName
  {
    var init := models[..|models| - 1];
    NamedPrefix(models, |models| - 1);
    assert forall i :: 0 <= i < |init| ==> init[i] == models[i];
  }

  /** Storing a new name appends its record to the values. */
  lemma ValuesPutNew(ix: Index, name: string, m: MenuModel)
    requires ValidIndex(ix) && name !in ix.byName
    ensures Values(Put(ix, name, m)) == Values(ix) + [m]
  {
    var r := Values(Put(ix, name, m));
    forall k | 0 <= k < |ix.names| ensures r[k] == Values(ix)[k] {
      assert ix.names[k] in ix.byName;
    }
  }

  /** `app["items"]`: a list the entries append to, or the values view of the index that
      "__all__" puts in its place. */
  datatype Items = Listed(models: seq<MenuModel>) | View(models: seq<MenuModel>)

  /** The inner loop over one entry's model labels. `ix` is None when the app has no models,
      so that `models_dict[app_label]` raises; appending to a values view raises too. */
  function ApplyLabels(appLabel: string, items: Items, ix: Option<Index>, labels: seq<string>): (r: Result<Items, Error>)
    requires ix.Some? ==> ValidIndex(ix.value)
    ensures labels != [] && ix.None? ==> r == Err(KeyError(appLabel))
    ensures r.Err? ==> r.error == KeyError(appLabel) || r.error == AttributeError
    ensures r.Err? && ix.Some? ==> r.error == AttributeError
    decreases |labels|
  {
    if labels == [] then Ok(items)
    else if ix.None? then Err(KeyError(appLabel))
    else if labels[0] == "__all__" then Ok(View(Values(ix.value)))
    else if labels[0] in ix.value.byName then
      if items.View? then Err(AttributeError)
      else ApplyLabels(appLabel, Listed(items.models + [ix.value.byName[labels[0]]]), ix, labels[1..])
    else ApplyLabels(appLabel, items, ix, labels[1..])
  }

  /** The records the known model labels pick, in the order listed. */
  function Picked(ix: Index, labels: seq<string>): seq<MenuModel> {
    if labels == [] then []
    else (if labels[0] in ix.byName then [ix.byName[labels[0]]] else []) + Picked(ix, labels[1..])
  }

  /** The state the outer loop carries: every known app's items and the labels listed so far. */
  datatype Phase = Phase(items: map<string, Items>, listed: seq<string>)

  function IndexFor(index: map<string, Index>, appLabel: string): Option<Index> {
    if appLabel in index then Some(index[appLabel]) else None
  }

  ghost predicate ValidIndexes(index: map<string, Index>) {
    forall l :: l in index ==> ValidIndex(index[l])
  }

  /** The labels of the entries that name a known app, in the order of the entries. */
  function Known(apps: map<string, MenuApp>, entries: seq<DeprecatedEntry>): seq<string> {
    if entries == [] then []
    else (if entries[0].appLabel in apps then [entries[0].appLabel] else []) + Known(apps, entries[1..])
  }

  /** The outer loop over the entries; entries naming an unknown app are skipped. */
  function Run(apps: map<string, MenuApp>, index: map<string, Index>, ph: Phase, entries: seq<DeprecatedEntry>): (r: Result<Phase, Error>)
    requires ValidIndexes(index)
    requires apps.Keys <= ph.items.Keys
    ensures r.Err? ==> r.error == AttributeError || (r.error.KeyError? && r.error.key in apps && r.error.key !in index)
    decreases |entries|
  {
    if entries == [] then Ok(ph)
    else
      var e := entries[0];
      if e.appLabel !in apps then Run(apps, index, ph, entries[1..])
      else
        var items :- ApplyLabels(e.appLabel, ph.items[e.appLabel], IndexFor(index, e.appLabel), e.modelLabels);
        Run(apps, index, Phase(ph.items[e.appLabel := items], ph.listed + [e.appLabel]), entries[1..])
  }

  /** The loop keeps the set of apps with items, and lists the known apps the entries
      name, in order. */
  lemma {:induction false} RunShape(apps: map<string, MenuApp>, index: map<string, Index>, ph: Phase, entries: seq<DeprecatedEntry>)
    requires ValidIndexes(index)
    requires apps.Keys <= ph.items.Keys
    ensures Run(apps, index, ph, entries).Ok? ==> Run(apps, index, ph, entries).value.items.Keys == ph.items.Keys
    ensures Run(apps, index, ph, entries).Ok? ==> Run(apps, index, ph, entries).value.listed == ph.listed + Known(apps, entries)
    decreases |entries|
  {
    if entries != [] {
      var e := entries[0];
      if e.appLabel !in apps {
        RunShape(apps, index, ph, entries[1..]);
      } else {
        var r := ApplyLabels(e.appLabel, ph.items[e.appLabel], IndexFor(index, e.appLabel), e.modelLabels);
        if r.Ok? {
          var next := Phase(ph.items[e.appLabel := r.value], ph.listed + [e.appLabel]);
          assert next.items.Keys == ph.items.Keys;
          RunShape(apps, index, next, entries[1..]);
          assert next.listed + Known(apps, entries[1..]) == ph.listed + Known(apps, entries);
        }
      }
    }
  }

  /** `app_dict`: the apps of the original list keyed by label. */
  function AppDict(original: seq<MenuApp>): (d: map<string, MenuApp>)
    ensures forall l :: l in d <==> exists i :: 0 <= i < |original| && original[i].appLabel == l
  {
    if original == [] then map[]
    else
      var init := original[..|original| - 1];
      assert forall i :: 0 <= i < |init| ==> init[i] == original[i];
      AppDict(init)[original[|original| - 1].appLabel := original[|original| - 1]]
  }

  /** `models_dict`: an index for every app with at least one model. */
  function ModelsDict(original: seq<MenuApp>): (d: map<string, Index>)
    requires NamedModels(original)
    ensures ValidIndexes(d)
    ensures d.Keys <= AppDict(original).Keys
  {
    if original == [] then map[]
    else
      var init := original[..|original| - 1];
      var last := original[|original| - 1];
      assert forall i :: 0 <= i < |init| ==> init[i] == original[i];
      if last.models.value == [] then ModelsDict(init)
      else ModelsDict(init)[last.appLabel := IndexOf(last.models.value)]
  }

  /** Every known app starts with `items` set to an empty list. */
  function InitialItems(original: seq<MenuApp>): (d: map<string, Items>)
    ensures d.Keys == AppDict(original).Keys
    ensures forall l :: l in d ==> d[l] == Listed([])
  {
    if original == [] then map[]
    else InitialItems(original[..|original| - 1])[original[|original| - 1].appLabel := Listed([])]
  }

  /** The records the deprecated setting yields: one per entry naming a known app, each
      carrying the items that app holds once every entry has been applied. */
  function Project(apps: map<string, MenuApp>, ph: Phase): (r: seq<MenuApp>)
    requires forall l :: l in ph.listed ==> l in apps && l in ph.items
    ensures |r| == |ph.listed|
    ensures forall k :: 0 <= k < |r| ==> r[k] == apps[ph.listed[k]].(items := Some(ph.items[ph.listed[k]].models))
  {
    seq(|ph.listed|, k requires 0 <= k < |ph.listed| => apps[ph.listed[k]].(items := Some(ph.items[ph.listed[k]].models)))
  }

  ghost predicate NamedModels(original: seq<MenuApp>) {
    forall i :: 0 <= i < |original| ==> original[i].models.Some? && Named(original[i].models.value)
  }

  lemma OriginalNamed(original: seq<MenuApp>)
    requires IsOriginalList(original)
    ensures NamedModels(original)
  {
    forall i | 0 <= i < |original| ensures Named(original[i].models.value) {
      forall j | 0 <= j < |original[i].models.value| ensures original[i].models.value[j].objectName.Some? {
        assert original[i].models.value[j] in original[i].models.value;
      }
    }
  }

  /** The `JET_SIDE_MENU_CUSTOM_APPS` branch of `get_menu_items`, as a value. */
  ghost function DeprecatedSpec(original: seq<MenuApp>, entries: seq<DeprecatedEntry>): Result<seq<MenuApp>, Error>
    requires IsOriginalList(original)
  {
    OriginalNamed(original);
    var apps := AppDict(original);
    var start := Phase(InitialItems(original), []);
    var ph :- Run(apps, ModelsDict(original), start, entries);
    RunShape(apps, ModelsDict(original), start, entries);
    KnownIn(apps, entries);
    Ok(Project(apps, ph))
  }

  lemma {:induction false} KnownIn(apps: map<string, MenuApp>, entries: seq<DeprecatedEntry>)
    ensures forall l :: l in Known(apps, entries) ==> l in apps
  {
    if entries != [] {
      KnownIn(apps, entries[1..]);
    }
  }

  /** One step of the outer loop, as `Run` takes it. */
  lemma RunStep(apps: map<string, MenuApp>, index: map<string, Index>, ph: Phase, entries: seq<DeprecatedEntry>, e: nat)
    requires ValidIndexes(index) && apps.Keys <= ph.items.Keys && e < |entries|
    ensures var entry := entries[e];
      Run(apps, index, ph, entries[e..]) ==
        if entry.appLabel !in apps then Run(apps, index, ph, entries[e + 1..])
        else match ApplyLabels(entry.appLabel, ph.items[entry.appLabel], IndexFor(index, entry.appLabel), entry.modelLabels)
          case Err(err) => Err(err)
          case Ok(items) => Run(apps, index, Phase(ph.items[entry.appLabel := items], ph.listed + [entry.appLabel]), entries[e + 1..])
  {
    assert entries[e..][1..] == entries[e + 1..];
  }

  /** The first loop of the branch: `app_dict`, `models_dict` and every app's `items` set
      to an empty list. */
  method IndexApps(original: seq<MenuApp>) returns (appDict: map<string, MenuApp>, modelsDict: map<string, Index>, itemsOf: map<string, Items>)
    requires IsOriginalList(original)
    ensures NamedModels(original)
    ensures appDict == AppDict(original)
    ensures modelsDict == ModelsDict(original)
    ensures itemsOf == InitialItems(original)
  {
    OriginalNamed(original);
    appDict, modelsDict, itemsOf := map[], map[], map[];
    NamedModelsPrefix(original, 0);
    for i := 0 to |original|
      invariant NamedModels(original[..i])
      invariant appDict == AppDict(original[..i])
      invariant modelsDict == ModelsDict(original[..i])
      invariant itemsOf == InitialItems(original[..i])
    {
      var app := original[i];
      var appLabel := app.appLabel;
      IndexAppsStep(original, i);
      appDict := appDict[appLabel := app];
      var models := app.models.value;
      var index := IndexModels(models);
      if models != [] {
        modelsDict := modelsDict[appLabel := index];
      }
      itemsOf := itemsOf[appLabel := Listed([])];
    }
    assert original[..|original|] == original;
  }

  lemma NamedModelsPrefix(original: seq<MenuApp>, i: nat)
    requires NamedModels(original) && i <= |original|
    ensures NamedModels(original[..i])
  {
    forall t | 0 <= t < i ensures original[..i][t] == original[t] { }
  }

  /** Taking one more app into the three dictionaries. */
  lemma IndexAppsStep(original: seq<MenuApp>, i: nat)
    requires NamedModels(original) && i < |original|
    ensures NamedModels(original[..i]) && NamedModels(original[..i + 1])
    ensures original[i].models.Some? && Named(original[i].models.value)
    ensures AppDict(original[..i + 1]) == AppDict(original[..i])[original[i].appLabel := original[i]]
    ensures ModelsDict(original[..i + 1]) ==
      if original[i].models.value == [] then ModelsDict(original[..i])
      else ModelsDict(original[..i])[original[i].appLabel := IndexOf(original[i].models.value)]
    ensures InitialItems(original[..i + 1]) == InitialItems(original[..i])[original[i].appLabel := Listed([])]
  {
    NamedModelsPrefix(original, i);
    NamedModelsPrefix(original, i + 1);
    assert original[..i + 1][..i] == original[..i];
    assert original[..i + 1][i] == original[i];
  }

  /** The loop storing an app's model records under their object names, the dict that
      becomes `models_dict[app_label]` once it holds a record. */
  method IndexModels(models: seq<MenuModel>) returns (index: Index)
    requires Named(models)
    ensures index == IndexOf(models)
  {
    index := Index([], map[]);
    NamedPrefix(models, 0);
    for j := 0 to |models|
      invariant Named(models[..j])
      invariant index == IndexOf(models[..j])
    {
      var model := models[j];
      IndexOfStep(models, j);
      index := Put(index, model.objectName.value, model);
    }
    assert models[..|models|] == models;
  }

  lemma NamedPrefix(models: seq<MenuModel>, j: nat)
    requires Named(models) && j <= |models|
    ensures Named(models[..j])
  {
    forall t | 0 <= t < j ensures models[..j][t].objectName.Some? {
      assert models[..j][t] == models[t];
    }
  }

  /** Indexing one more record is one more `Put`. */
  lemma IndexOfStep(models: seq<MenuModel>, j: nat)
    requires Named(models) && j < |models|
    ensures Named(models[..j]) && Named(models[..j + 1])
    ensures IndexOf(models[..j + 1]) == Put(IndexOf(models[..j]), models[j].objectName.value, models[j])
  {
    NamedPrefix(models, j);
    NamedPrefix(models, j + 1);
    assert models[..j + 1][..j] == models[..j];
  }

  /** The inner loop over one entry's model labels; `ix` is the app's entry of `models_dict`. */
  method ApplyModelLabels(appLabel: string, start: Items, ix: Option<Index>, labels: seq<string>) returns (r: Result<Items, Error>)
    requires ix.Some? ==> ValidIndex(ix.value)
    ensures r == ApplyLabels(appLabel, start, ix, labels)
  {
    var items := start;
    for t := 0 to |labels|
      invariant ApplyLabels(appLabel, items, ix, labels[t..]) == ApplyLabels(appLabel, start, ix, labels)
    {
      assert labels[t..][1..] == labels[t + 1..];
      if ix.None? {
        return Err(KeyError(appLabel));
      }
      var modelLabel := labels[t];
      if modelLabel == "__all__" {
        return Ok(View(Values(ix.value)));
      } else if modelLabel in ix.value.byName {
        if items.View? {
          return Err(AttributeError);
        }
        items := Listed(items.models + [ix.value.byName[modelLabel]]);
      }
    }
    return Ok(items);
  }

  /** The `JET_SIDE_MENU_CUSTOM_APPS` branch of `get_menu_items`. */
  method DeprecatedAppList(original: seq<MenuApp>, entries: seq<DeprecatedEntry>) returns (r: Result<seq<MenuApp>, Error>)
    requires IsOriginalList(original)
    ensures r == DeprecatedSpec(original, entries)
  {
    var appDict, modelsDict, itemsOf := IndexApps(original);
    var listed: seq<string> := [];
    for e := 0 to |entries|
      invariant appDict.Keys <= itemsOf.Keys
      invariant Run(appDict, modelsDict, Phase(itemsOf, listed), entries[e..]) ==
                Run(appDict, modelsDict, Phase(InitialItems(original), []), entries)
    {
      var appLabel := entries[e].appLabel;
      RunStep(appDict, modelsDict, Phase(itemsOf, listed), entries, e);
      if appLabel in appDict {
        var items :- ApplyModelLabels(appLabel, itemsOf[appLabel], IndexFor(modelsDict, appLabel), entries[e].modelLabels);
        itemsOf := itemsOf[appLabel := items];
        listed := listed + [appLabel];
      }
    }
    assert entries[|entries|..] == [];
    RunShape(appDict, modelsDict, Phase(InitialItems(original), []), entries);
    KnownIn(appDict, entries);
    r := Ok(Project(appDict, Phase(itemsOf, listed)));
  }

  /** Starting from a list, the labels append the records they pick, unless "__all__" is
      among them, which leaves the values view of the whole index. */
  lemma {:induction false} ApplyLabelsFromList(appLabel: string, acc: seq<MenuModel>, ix: Index, labels: seq<string>)
    requires ValidIndex(ix)
    ensures ApplyLabels(appLabel, Listed(acc), Some(ix), labels) ==
      Ok(if "__all__" in labels then View(Values(ix)) else Listed(acc + Picked(ix, labels)))
    decreases |labels|
  {
    if labels != [] && labels[0] != "__all__" {
      assert labels == [labels[0]] + labels[1..];
      assert "__all__" in labels <==> "__all__" in labels[1..];
      if labels[0] in ix.byName {
        var x := ix.byName[labels[0]];
        assert ApplyLabels(appLabel, Listed(acc), Some(ix), labels) ==
          ApplyLabels(appLabel, Listed(acc + [x]), Some(ix), labels[1..]);
        ApplyLabelsFromList(appLabel, acc + [x], ix, labels[1..]);
        assert Picked(ix, labels) == [x] + Picked(ix, labels[1..]);
        assert acc + [x] + Picked(ix, labels[1..]) == acc + Picked(ix, labels);
      } else {
        assert ApplyLabels(appLabel, Listed(acc), Some(ix), labels) ==
          ApplyLabels(appLabel, Listed(acc), Some(ix), labels[1..]);
        ApplyLabelsFromList(appLabel, acc, ix, labels[1..]);
        assert Picked(ix, labels) == Picked(ix, labels[1..]);
      }
    } else if labels == [] {
      assert acc + Picked(ix, labels) == acc;
    }
  }

  /** The items an app ends up with when a single entry names it, starting from an empty list. */
  function Expected(index: map<string, Index>, e: DeprecatedEntry): Items
    requires ValidIndexes(index)
  {
    if e.appLabel !in index then Listed([])
    else if "__all__" in e.modelLabels then View(Values(index[e.appLabel]))
    else Listed(Picked(index[e.appLabel], e.modelLabels))
  }

  /** The first entry naming `appLabel`, if any. */
  function EntryFor(entries: seq<DeprecatedEntry>, appLabel: string): (r: Option<DeprecatedEntry>)
    ensures r.Some? ==> r.value in entries && r.value.appLabel == appLabel
    ensures r.Some? ==>
      exists p :: 0 <= p < |entries| && entries[p] == r.value && forall q :: 0 <= q < p ==> entries[q].appLabel != appLabel
    ensures r.None? <==> forall p :: 0 <= p < |entries| ==> entries[p].appLabel != appLabel
  {
    if entries == [] then None
    else if entries[0].appLabel == appLabel then Some(entries[0])
    else
      var r := EntryFor(entries[1..], appLabel);
      assert forall p :: 1 <= p < |entries| ==> entries[p] == entries[1..][p - 1];
      assert r.Some? ==>
        exists p :: 1 <= p < |entries| && entries[p] == r.value && forall q :: 1 <= q < p ==> entries[q].appLabel != appLabel;
      r
  }

  ghost predicate DistinctLabels(entries: seq<DeprecatedEntry>) {
    forall p, q :: 0 <= p < q < |entries| ==> entries[p].appLabel != entries[q].appLabel
  }

  /** An entry whose app has no model records lists no model labels. */
  ghost predicate Indexed(apps: map<string, MenuApp>, index: map<string, Index>, entries: seq<DeprecatedEntry>) {
    forall p :: 0 <= p < |entries| && entries[p].appLabel in apps ==>
      entries[p].appLabel in index || entries[p].modelLabels == []
  }

  /** When no app is named twice, the loop raises nothing and each named app ends up with
      the items its one entry gives it. */
  lemma {:induction false} RunDistinct(apps: map<string, MenuApp>, index: map<string, Index>, ph: Phase, entries: seq<DeprecatedEntry>)
    requires ValidIndexes(index) && apps.Keys <= ph.items.Keys
    requires DistinctLabels(entries) && Indexed(apps, index, entries)
    requires forall p :: 0 <= p < |entries| && entries[p].appLabel in apps ==> ph.items[entries[p].appLabel] == Listed([])
    ensures Run(apps, index, ph, entries).Ok?
    ensures forall l :: l in ph.items ==>
      l in Run(apps, index, ph, entries).value.items &&
      Run(apps, index, ph, entries).value.items[l] ==
        if l in apps && EntryFor(entries, l).Some? then Expected(index, EntryFor(entries, l).value) else ph.items[l]
    decreases |entries|
  {
    if entries != [] {
      var e := entries[0];
      var rest := entries[1..];
      assert forall p :: 0 <= p < |rest| ==> rest[p] == entries[p + 1];
      if e.appLabel !in apps {
        assert Run(apps, index, ph, entries) == Run(apps, index, ph, rest);
        RunDistinct(apps, index, ph, rest);
        forall l | l in apps ensures EntryFor(entries, l) == EntryFor(rest, l) { }
      } else {
        ApplyExpected(index, e, ph.items[e.appLabel]);
        var next := Phase(ph.items[e.appLabel := Expected(index, e)], ph.listed + [e.appLabel]);
        assert Run(apps, index, ph, entries) == Run(apps, index, next, rest);
        RunDistinct(apps, index, next, rest);
        assert EntryFor(rest, e.appLabel).None?;
        forall l | l in ph.items
          ensures Run(apps, index, ph, entries).value.items[l] ==
            if l in apps && EntryFor(entries, l).Some? then Expected(index, EntryFor(entries, l).value) else ph.items[l]
        {
          if l != e.appLabel {
            assert EntryFor(entries, l) == EntryFor(rest, l);
          }
        }
      }
    }
  }

  /** A single entry applied to an app whose items are still an empty list. */
  lemma ApplyExpected(index: map<string, Index>, e: DeprecatedEntry, items: Items)
    requires ValidIndexes(index) && items == Listed([])
    requires e.appLabel in index || e.modelLabels == []
    ensures ApplyLabels(e.appLabel, items, IndexFor(index, e.appLabel), e.modelLabels) == Ok(Expected(index, e))
  {
    var ix := IndexFor(index, e.appLabel);
    if ix.Some? {
      ApplyLabelsFromList(e.appLabel, [], ix.value, e.modelLabels);
      assert [] + Picked(ix.value, e.modelLabels) == Picked(ix.value, e.modelLabels);
    }
  }

  /** No two apps of the list share a label. */
  ghost predicate UniqueLabels(original: seq<MenuApp>) {
    forall i, j :: 0 <= i < j < |original| ==> original[i].appLabel != original[j].appLabel
  }

  lemma {:induction false} AppDictAt(original: seq<MenuApp>, i: nat)
    requires UniqueLabels(original) && i < |original|
    ensures original[i].appLabel in AppDict(original) && AppDict(original)[original[i].appLabel] == original[i]
  {
    var init := original[..|original| - 1];
    if i < |original| - 1 {
      assert forall t :: 0 <= t < |init| ==> init[t] == original[t];
      AppDictAt(init, i);
    }
  }

  lemma {:induction false} ModelsDictAt(original: seq<MenuApp>, i: nat)
    requires UniqueLabels(original) && NamedModels(original) && i < |original|
    ensures original[i].models.value != [] <==> original[i].appLabel in ModelsDict(original)
    ensures original[i].models.value != [] ==>
      ModelsDict(original)[original[i].appLabel] == IndexOf(original[i].models.value)
  {
    var init := original[..|original| - 1];
    OriginalInit(original);
    if i < |original| - 1 {
      assert init[i] == original[i];
      ModelsDictAt(init, i);
      assert original[i].appLabel != original[|original| - 1].appLabel;
    } else {
      assert forall t :: 0 <= t < |init| ==> init[t].appLabel != original[i].appLabel;
      assert original[i].appLabel !in AppDict(init);
    }
  }

  /** All but the last app of the list keep their labels apart, and `ModelsDict` of the whole
      list adds the last app's index, when it has models, to theirs. */
  lemma OriginalInit(original: seq<MenuApp>)
    requires UniqueLabels(original) && NamedModels(original) && original != []
    ensures var init := original[..|original| - 1];
      && (forall t :: 0 <= t < |init| ==> init[t] == original[t])
      && UniqueLabels(init) && NamedModels(init)
    ensures var init := original[..|original| - 1];
      var last := original[|original| - 1];
      ModelsDict(original) ==
        if last.models.value == [] then ModelsDict(init)
        else ModelsDict(init)[last.appLabel := IndexOf(last.models.value)]
  {
    NamedModelsPrefix(original, |original| - 1);
  }

  /** The items a single entry gives an app, read off its model records directly: none
      when it has no records, all of them (the last record per object name, in order of
      first occurrence) when "__all__" is listed, else the records the labels name. */
  ghost function ItemsFor(app: MenuApp, labels: seq<string>): seq<MenuModel>
    requires app.models.Some? && Named(app.models.value)
  {
    var models := app.models.value;
    if models == [] then []
    else if "__all__" in labels then Values(IndexOf(models))
    else Picked(IndexOf(models), labels)
  }

  /** Under "__all__", the object name of every record of the app is among the items;
      when the object names are distinct, the items are the app's records, in order. */
  lemma AllItems(app: MenuApp, labels: seq<string>)
    requires app.models.Some? && Named(app.models.value) && "__all__" in labels
    ensures forall i :: 0 <= i < |app.models.value| ==>
      exists k :: 0 <= k < |ItemsFor(app, labels)| && ItemsFor(app, labels)[k].objectName == app.models.value[i].objectName
    ensures DistinctNames(app.models.value) ==> ItemsFor(app, labels) == app.models.value
  {
    var models := app.models.value;
    var r := ItemsFor(app, labels);
    if models != [] {
      var ix := IndexOf(models);
      forall i | 0 <= i < |models| ensures exists k :: 0 <= k < |r| && r[k].objectName == models[i].objectName {
        var n := models[i].objectName.value;
        IndexOfKeys(models, n);
        IndexOfLast(models, n);
        var k :| 0 <= k < |ix.names| && ix.names[k] == n;
        assert r[k] == ix.byName[n];
      }
      if DistinctNames(models) {
        IndexOfDistinct(models);
      }
    }
  }

  lemma {:induction false} KnownEntry(apps: map<string, MenuApp>, entries: seq<DeprecatedEntry>, l: string)
    requires l in Known(apps, entries)
    ensures l in apps && EntryFor(entries, l).Some?
  {
    if !(entries[0].appLabel == l && l in apps) {
      assert l in Known(apps, entries[1..]);
      KnownEntry(apps, entries[1..], l);
    }
  }

  /** Every entry that picks model labels names an app that has model records. */
  ghost predicate PicksFromModels(original: seq<MenuApp>, entries: seq<DeprecatedEntry>)
    requires IsOriginalList(original)
  {
    forall p, i ::
      (0 <= p < |entries| && 0 <= i < |original| && entries[p].appLabel == original[i].appLabel && entries[p].modelLabels != [])
      ==> original[i].models.value != []
  }

  /** `a` is an app of the original list with, perhaps, other items. */
  ghost predicate FromOriginal(original: seq<MenuApp>, a: MenuApp) {
    exists i :: 0 <= i < |original| && a == original[i].(items := a.items)
  }

  /** The records the deprecated setting yields are the known apps its entries name, in the
      order of the entries, each unchanged but for its items. */
  lemma DeprecatedRecords(original: seq<MenuApp>, entries: seq<DeprecatedEntry>)
    requires IsOriginalList(original)
    requires DeprecatedSpec(original, entries).Ok?
    ensures var r := DeprecatedSpec(original, entries).value;
      && |r| == |Known(AppDict(original), entries)|
      && forall k :: 0 <= k < |r| ==>
           r[k].appLabel == Known(AppDict(original), entries)[k] && FromOriginal(original, r[k])
  {
    OriginalNamed(original);
    RunShape(AppDict(original), ModelsDict(original), Phase(InitialItems(original), []), entries);
    var r := DeprecatedSpec(original, entries).value;
    forall k | 0 <= k < |r|
      ensures r[k].appLabel == Known(AppDict(original), entries)[k] && FromOriginal(original, r[k])
    {
      RecordAt(original, entries, k);
    }
  }

  lemma RecordAt(original: seq<MenuApp>, entries: seq<DeprecatedEntry>, k: nat)
    requires IsOriginalList(original)
    requires DeprecatedSpec(original, entries).Ok? && k < |DeprecatedSpec(original, entries).value|
    ensures var r := DeprecatedSpec(original, entries).value;
      && |r| == |Known(AppDict(original), entries)|
      && r[k].appLabel == Known(AppDict(original), entries)[k] && FromOriginal(original, r[k])
  {
    OriginalNamed(original);
    var apps := AppDict(original);
    var ph := Run(apps, ModelsDict(original), Phase(InitialItems(original), []), entries).value;
    RunShape(apps, ModelsDict(original), Phase(InitialItems(original), []), entries);
    KnownIn(apps, entries);
    var r := Project(apps, ph);
    assert DeprecatedSpec(original, entries).value == r;
    var l := ph.listed[k];
    assert l in Known(apps, entries);
    var i :| 0 <= i < |original| && original[i].appLabel == l;
    AppDictAt(original, i);
    assert r[k] == original[i].(items := r[k].items);
  }

  /** `a` is app `i` of the original list carrying the items entry `p` picks for it. */
  ghost predicate CarriesItems(original: seq<MenuApp>, entries: seq<DeprecatedEntry>, a: MenuApp, i: int, p: int)
    requires IsOriginalList(original)
  {
    && 0 <= i < |original| && 0 <= p < |entries|
    && original[i].appLabel == entries[p].appLabel == a.appLabel
    && (OriginalNamed(original);
        a == original[i].(items := Some(ItemsFor(original[i], entries[p].modelLabels))))
  }

  ghost predicate CarriesSomeItems(original: seq<MenuApp>, entries: seq<DeprecatedEntry>, a: MenuApp)
    requires IsOriginalList(original)
  {
    exists i, p :: CarriesItems(original, entries, a, i, p)
  }

  /** When no app is named twice and every app an entry picks models from has some, nothing
      raises and every record carries the items its one entry picks. */
  lemma DeprecatedItems(original: seq<MenuApp>, entries: seq<DeprecatedEntry>)
    requires IsOriginalList(original)
    requires DistinctLabels(entries) && PicksFromModels(original, entries)
    ensures DeprecatedSpec(original, entries).Ok?
    ensures var r := DeprecatedSpec(original, entries).value;
      forall k :: 0 <= k < |r| ==> CarriesSomeItems(original, entries, r[k])
  {
    OriginalNamed(original);
    IndexedEntries(original, entries);
    RunDistinct(AppDict(original), ModelsDict(original), Phase(InitialItems(original), []), entries);
    var r := DeprecatedSpec(original, entries).value;
    forall k | 0 <= k < |r| ensures CarriesSomeItems(original, entries, r[k]) {
      ItemAt(original, entries, k);
    }
  }

  lemma IndexedEntries(original: seq<MenuApp>, entries: seq<DeprecatedEntry>)
    requires IsOriginalList(original) && NamedModels(original) && PicksFromModels(original, entries)
    ensures Indexed(AppDict(original), ModelsDict(original), entries)
  {
    forall p | 0 <= p < |entries| && entries[p].appLabel in AppDict(original)
      ensures entries[p].appLabel in ModelsDict(original) || entries[p].modelLabels == []
    {
      var i :| 0 <= i < |original| && original[i].appLabel == entries[p].appLabel;
      ModelsDictAt(original, i);
    }
  }

  lemma ItemAt(original: seq<MenuApp>, entries: seq<DeprecatedEntry>, k: nat)
    requires IsOriginalList(original) && NamedModels(original)
    requires DistinctLabels(entries) && Indexed(AppDict(original), ModelsDict(original), entries)
    requires DeprecatedSpec(original, entries).Ok? && k < |DeprecatedSpec(original, entries).value|
    ensures CarriesSomeItems(original, entries, DeprecatedSpec(original, entries).value[k])
  {
    var apps := AppDict(original);
    var index := ModelsDict(original);
    var start := Phase(InitialItems(original), []);
    RunDistinct(apps, index, start, entries);
    var ph := Run(apps, index, start, entries).value;
    RunShape(apps, index, start, entries);
    KnownIn(apps, entries);
    var r := Project(apps, ph);
    assert DeprecatedSpec(original, entries).value == r;
    var l := ph.listed[k];
    assert l in Known(apps, entries);
    KnownEntry(apps, entries, l);
    var e := EntryFor(entries, l).value;
    var p :| 0 <= p < |entries| && entries[p] == e;
    var i :| 0 <= i < |original| && original[i].appLabel == l;
    AppDictAt(original, i);
    ExpectedItems(original, i, e);
    assert ph.items[l] == Expected(index, e);
    assert r[k] == original[i].(items := Some(ItemsFor(original[i], e.modelLabels)));
    assert CarriesItems(original, entries, r[k], i, p);
  }

  /** What `Expected` reads off the index is what `ItemsFor` reads off the app. */
  lemma ExpectedItems(original: seq<MenuApp>, i: nat, e: DeprecatedEntry)
    requires IsOriginalList(original) && NamedModels(original)
    requires i < |original| && e.appLabel == original[i].appLabel
    ensures Expected(ModelsDict(original), e).models == ItemsFor(original[i], e.modelLabels)
  {
    ModelsDictAt(original, i);
  }
}
