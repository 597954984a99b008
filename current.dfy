/** The last loop of `get_menu_items`: it walks the menu and flags as current the first
    model item, or else app, whose url the request path starts with. Items are looked at
    before their app; apps after the one holding the hit are left alone. */
module CurrentItem {
  import opened Common
  import opened Menu

  /** `url and path.startswith(url)`: a present, non-empty url that prefixes the path. */
  predicate Matches(url: Option<string>, path: string) {
    url.Some? && url.value != "" && url.value <= path
  }

  /** The first model item whose url matches, if any. */
  function FirstMatch(items: seq<MenuModel>, path: string): (r: Option<nat>)
    ensures r.Some? ==> r.value < |items| && Matches(items[r.value].url, path)
    ensures r.Some? ==> forall j :: 0 <= j < r.value ==> !Matches(items[j].url, path)
    ensures r.None? ==> forall j :: 0 <= j < |items| ==> !Matches(items[j].url, path)
  {
    if items == [] then None
    else if Matches(items[0].url, path) then Some(0)
    else
      match FirstMatch(items[1..], path)
      case None => None
      case Some(j) => Some(j + 1)
  }

  /** Where the walk stops: at a model item of an app, at an app, or nowhere. */
  datatype Hit = NoHit | ItemHit(app: nat, item: nat) | AppHit(app: nat)

  /** Neither the app nor any of its items matches (an app without items counts as having none). */
  predicate Silent(a: MenuApp, path: string) {
    && !Matches(a.url, path)
    && forall j :: 0 <= j < |a.items.GetOr([])| ==> !Matches(a.items.GetOr([])[j].url, path)
  }

  /** The first hit from app `from` on, searching each app's items before the app itself. */
  function FirstHit(apps: seq<MenuApp>, path: string, from: nat): (h: Hit)
    ensures h.ItemHit? ==>
      && from <= h.app < |apps|
      && FirstMatch(apps[h.app].items.GetOr([]), path) == Some(h.item)
      && forall t :: from <= t < h.app ==> Silent(apps[t], path)
    ensures h.AppHit? ==>
      && from <= h.app < |apps|
      && FirstMatch(apps[h.app].items.GetOr([]), path).None? && Matches(apps[h.app].url, path)
      && forall t :: from <= t < h.app ==> Silent(apps[t], path)
    ensures h.NoHit? ==> forall t :: from <= t < |apps| ==> Silent(apps[t], path)
    decreases |apps| - from
  {
    if from >= |apps| then NoHit
    else
      match FirstMatch(apps[from].items.GetOr([]), path)
      case Some(j) => ItemHit(from, j)
      case None => if Matches(apps[from].url, path) then AppHit(from) else FirstHit(apps, path, from + 1)
  }

  /** The last app the walk looks at. */
  function Reach(h: Hit, n: nat): int {
    match h
    case NoHit => n - 1
    case ItemHit(app, _) => app
    case AppHit(app) => app
  }

  /** The item of app `k` the hit lands on, if any. */
  function ItemOf(h: Hit, k: nat): Option<nat> {
    if h.ItemHit? && h.app == k then Some(h.item) else None
  }

  /** Every item flagged, current exactly at `hit`. */
  function MarkedItems(items: seq<MenuModel>, hit: Option<nat>): (r: seq<MenuModel>)
    ensures |r| == |items|
    ensures forall j :: 0 <= j < |r| ==> r[j] == items[j].(current := Some(hit == Some(j)))
  {
    seq(|items|, j requires 0 <= j < |items| => items[j].(current := Some(hit == Some(j))))
  }

  /** A visited app: it and its items flagged. */
  function MarkedApp(a: MenuApp, k: nat, h: Hit): MenuApp
    requires a.items.Some?
  {
    a.(items := Some(MarkedItems(a.items.value, ItemOf(h, k))), current := Some(h == AppHit(k)))
  }

  /** The menu once the walk is over; an app the walk reaches without `items` raises. */
  ghost function Marked(apps: seq<MenuApp>, path: string): Result<seq<MenuApp>, Error> {
    var h := FirstHit(apps, path, 0);
    if exists k :: 0 <= k < |apps| && k <= Reach(h, |apps|) && apps[k].items.None? then Err(KeyError("items"))
    else Ok(seq(|apps|, k requires 0 <= k < |apps| =>
                          if k <= Reach(h, |apps|) then MarkedApp(apps[k], k, h) else apps[k]))
  }

  /** The inner loop over one app's items, entered while nothing is current yet. */
  method MarkItems(items: seq<MenuModel>, path: string) returns (marked: seq<MenuModel>, found: bool)
    ensures marked == MarkedItems(items, FirstMatch(items, path))
    ensures found <==> FirstMatch(items, path).Some?
  {
    marked := items;
    found := false;
    for j := 0 to |items|
      invariant |marked| == |items|
      invariant found <==> (FirstMatch(items, path).Some? && FirstMatch(items, path).value < j)
      invariant forall t :: 0 <= t < j ==> marked[t] == items[t].(current := Some(FirstMatch(items, path) == Some(t)))
      invariant forall t :: j <= t < |items| ==> marked[t] == items[t]
    {
      if !found && Matches(items[j].url, path) {
        marked := marked[j := items[j].(current := Some(true))];
        found := true;
      } else {
        marked := marked[j := items[j].(current := Some(false))];
      }
    }
  }

  /** The hit app `k` holds on its own. */
  function LocalHit(a: MenuApp, path: string, k: nat): Hit {
    match FirstMatch(a.items.GetOr([]), path)
    case Some(j) => ItemHit(k, j)
    case None => if Matches(a.url, path) then AppHit(k) else NoHit
  }

  /** One visit of the app loop: its items, then the app itself. */
  method MarkApp(app: MenuApp, path: string, ghost k: nat) returns (marked: MenuApp, found: bool)
    requires app.items.Some?
    ensures marked == MarkedApp(app, k, LocalHit(app, path, k))
    ensures found <==> !LocalHit(app, path, k).NoHit?
  {
    var items, foundItem := MarkItems(app.items.value, path);
    var current := !foundItem && Matches(app.url, path);
    found := foundItem || current;
    marked := app.(items := Some(items), current := Some(current));
  }

  /** A hit beyond app `k` flags app `k` as a miss does. */
  lemma MarkedAppBeyond(a: MenuApp, k: nat, h: Hit)
    requires a.items.Some? && (h.NoHit? || h.app > k)
    ensures MarkedApp(a, k, h) == MarkedApp(a, k, NoHit)
  {
  }

  /** The invariant of the app loop after `k` visits: the apps up to the hit among them
      are flagged, the others untouched, and `currentFound` says whether the hit was passed. */
  ghost predicate Visited(apps: seq<MenuApp>, path: string, k: nat, appList: seq<MenuApp>, currentFound: bool) {
    var h := FirstHit(apps, path, 0);
    var reach := Reach(h, |apps|);
    && k <= |apps| && |appList| == |apps|
    && (currentFound <==> !h.NoHit? && reach < k)
    && (!currentFound ==> FirstHit(apps, path, k) == h)
    && (forall t :: 0 <= t < k && t <= reach ==> apps[t].items.Some?)
    && (forall t :: 0 <= t < k && t <= reach ==> appList[t] == MarkedApp(apps[t], t, h))
    && (forall t :: 0 <= t < |apps| && (k <= t || reach < t) ==> appList[t] == apps[t])
  }

  /** Visiting app `k` while nothing is current yet keeps the invariant. */
  lemma VisitStep(apps: seq<MenuApp>, path: string, k: nat, appList: seq<MenuApp>, marked: MenuApp, found: bool)
    requires Visited(apps, path, k, appList, false) && k < |apps| && apps[k].items.Some?
    requires marked == MarkedApp(apps[k], k, LocalHit(apps[k], path, k))
    requires found <==> !LocalHit(apps[k], path, k).NoHit?
    ensures Visited(apps, path, k + 1, appList[k := marked], found)
  {
    var h := FirstHit(apps, path, 0);
    if !found {
      assert FirstHit(apps, path, k) == FirstHit(apps, path, k + 1);
      MarkedAppBeyond(apps[k], k, h);
    }
  }

  /** Once the hit is passed, a visit changes nothing. */
  lemma VisitSkip(apps: seq<MenuApp>, path: string, k: nat, appList: seq<MenuApp>)
    requires Visited(apps, path, k, appList, true) && k < |apps|
    ensures Visited(apps, path, k + 1, appList, true)
  {
  }

  /** App `k`, reached before the hit, has no `items`: the walk raises. */
  lemma VisitMissing(apps: seq<MenuApp>, path: string, k: nat, appList: seq<MenuApp>)
    requires Visited(apps, path, k, appList, false) && k < |apps| && appList[k].items.None?
    ensures Marked(apps, path) == Err(KeyError("items"))
  {
    assert k <= Reach(FirstHit(apps, path, 0), |apps|);
  }

  /** After the last visit the list is the marked menu. */
  lemma VisitDone(apps: seq<MenuApp>, path: string, appList: seq<MenuApp>, currentFound: bool)
    requires Visited(apps, path, |apps|, appList, currentFound)
    ensures Marked(apps, path) == Ok(appList)
  {
    var h := FirstHit(apps, path, 0);
    var reach := Reach(h, |apps|);
    assert !(exists t :: 0 <= t < |apps| && t <= reach && apps[t].items.None?);
    var expected := seq(|apps|, t requires 0 <= t < |apps| =>
                          if t <= reach then MarkedApp(apps[t], t, h) else apps[t]);
    assert appList == expected;
  }

  /** The loop over the apps (`current_found` is the flag it keeps). */
  method MarkCurrent(apps: seq<MenuApp>, path: string) returns (r: Result<seq<MenuApp>, Error>)
    ensures r == Marked(apps, path)
  {
    var appList := apps;
    var currentFound := false;
    for k := 0 to |apps|
      invariant Visited(apps, path, k, appList, currentFound)
    {
      if !currentFound {
        var app := appList[k];
        if app.items.None? {
          VisitMissing(apps, path, k, appList);
          return Err(KeyError("items"));
        }
        var marked, found := MarkApp(app, path, k);
        VisitStep(apps, path, k, appList, marked, found);
        currentFound := found;
        appList := appList[k := marked];
      } else {
        VisitSkip(apps, path, k, appList);
      }
    }
    VisitDone(apps, path, appList, currentFound);
    return Ok(appList);
  }

  /** No app or model item is flagged current yet. */
  ghost predicate Unmarked(apps: seq<MenuApp>) {
    forall k :: 0 <= k < |apps| ==>
      && apps[k].current != Some(true)
      && (apps[k].items.Some? ==> forall j :: 0 <= j < |apps[k].items.value| ==> apps[k].items.value[j].current != Some(true))
  }

  /** The flags of `r` are true exactly at the hit. */
  ghost predicate FlaggedAt(r: seq<MenuApp>, h: Hit) {
    && (forall k :: 0 <= k < |r| ==> (r[k].current == Some(true) <==> h == AppHit(k)))
    && (forall k, j :: 0 <= k < |r| && r[k].items.Some? && 0 <= j < |r[k].items.value| ==>
          (r[k].items.value[j].current == Some(true) <==> h == ItemHit(k, j)))
  }

  /** There is no hit exactly when neither any app nor any of its items matches. */
  lemma NoHitIffSilent(apps: seq<MenuApp>, path: string)
    ensures FirstHit(apps, path, 0).NoHit? <==> forall t :: 0 <= t < |apps| ==> Silent(apps[t], path)
  {
    var h := FirstHit(apps, path, 0);
    if h.ItemHit? {
      var items := apps[h.app].items.GetOr([]);
      assert Matches(items[h.item].url, path);
      assert !Silent(apps[h.app], path);
    } else if h.AppHit? {
      assert !Silent(apps[h.app], path);
    }
  }

  /** Once the walk is over on a menu with no flags, the only item or app flagged current
      is the first one in walk order whose url the path starts with. */
  lemma MarkedFlags(apps: seq<MenuApp>, path: string)
    requires Unmarked(apps) && Marked(apps, path).Ok?
    ensures |Marked(apps, path).value| == |apps|
    ensures FlaggedAt(Marked(apps, path).value, FirstHit(apps, path, 0))
    ensures SingleCurrent(Marked(apps, path).value)
    ensures FlagsMatch(Marked(apps, path).value, path)
  {
    var h := FirstHit(apps, path, 0);
    var r := Marked(apps, path).value;
    forall k | 0 <= k < |r| ensures (r[k].current == Some(true) <==> h == AppHit(k)) {
      if k > Reach(h, |apps|) {
        assert r[k] == apps[k];
      }
    }
    forall k, j | 0 <= k < |r| && r[k].items.Some? && 0 <= j < |r[k].items.value|
      ensures r[k].items.value[j].current == Some(true) <==> h == ItemHit(k, j)
    {
      if k > Reach(h, |apps|) {
        assert r[k] == apps[k];
      } else {
        assert r[k] == MarkedApp(apps[k], k, h);
      }
    }
    forall k | 0 <= k < |r| && r[k].current == Some(true) ensures Matches(r[k].url, path) {
      assert r[k] == MarkedApp(apps[k], k, h);
    }
    forall k, j | 0 <= k < |r| && r[k].items.Some? && 0 <= j < |r[k].items.value| && r[k].items.value[j].current == Some(true)
      ensures Matches(r[k].items.value[j].url, path)
    {
      assert r[k] == MarkedApp(apps[k], k, h);
    }
  }

  /** At most one app or model item of `r` is flagged current. */
  ghost predicate SingleCurrent(r: seq<MenuApp>) {
    && (forall k, k' :: 0 <= k < |r| && 0 <= k' < |r| && r[k].current == Some(true) && r[k'].current == Some(true) ==> k == k')
    && (forall k, j, k', j' ::
          (&& 0 <= k < |r| && r[k].items.Some? && 0 <= j < |r[k].items.value| && r[k].items.value[j].current == Some(true)
           && 0 <= k' < |r| && r[k'].items.Some? && 0 <= j' < |r[k'].items.value| && r[k'].items.value[j'].current == Some(true))
          ==> k == k' && j == j')
    && (forall k, k', j' ::
          (&& 0 <= k < |r| && r[k].current == Some(true)
           && 0 <= k' < |r| && r[k'].items.Some? && 0 <= j' < |r[k'].items.value|)
          ==> r[k'].items.value[j'].current != Some(true))
  }

  /** Every app or item flagged current has a url the path starts with. */
  ghost predicate FlagsMatch(r: seq<MenuApp>, path: string) {
    && (forall k :: 0 <= k < |r| && r[k].current == Some(true) ==> Matches(r[k].url, path))
    && (forall k, j ::
          (0 <= k < |r| && r[k].items.Some? && 0 <= j < |r[k].items.value| && r[k].items.value[j].current == Some(true))
          ==> Matches(r[k].items.value[j].url, path))
  }
}
