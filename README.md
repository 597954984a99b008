# Side menu and app list of the django-jet admin, in Dafny

This project models the helpers in `jet/utils.py` that the django-jet admin theme uses to build
its side menu. It covers:

- `get_app_list`: the models registered with the admin site, filtered by what the request's user
  may see, grouped by application and sorted.
- `get_original_menu_items`: one menu record per listed app, with its model records and the
  `pinned` flag.
- `get_menu_item_url`: resolves a URL written in the menu configuration.
- `get_menu_items`: builds the side menu from one of three sources, then flags as `current` the
  first item or app whose URL the request path starts with. The sources are:
  - the `JET_SIDE_MENU_ITEMS` setting, through the inner functions `get_menu_item_app_model` and
    `get_menu_item_app`;
  - the older `JET_SIDE_MENU_CUSTOM_APPS` setting;
  - by default, every app with its models as items (`map_item`).
- `get_possible_language_codes`: the locale codes tried for the active language.
- `context_to_dict`: flattens a template context into one dictionary.

Dictionaries with optional keys are datatypes with `Option` fields. A raised exception is an
`Err` of `Common.Result`, and `:-` stands for its propagation. The framework services (URL
reversing, `capfirst`, `slugify`, the app verbose name, `user.has_perms`, the admin site's name)
are function-valued fields of `Framework.Env`. Python's `list.sort` is a stable insertion sort
(`Sorting.SortBy`). Python's string comparison is `Strings.Le`.

The loops of the source are methods proved against specification functions:
- `GetAppList` against `AppListSpec`;
- `CustomAppList` against `MenuItemApps`;
- `DeprecatedAppList` against `DeprecatedSpec`;
- `MarkCurrent` against `Marked`;
- `ContextToDict` against `Flatten`;
- `GetMenuItems` against `MenuItemsSpec`.

Lemmas prove what the source promises about those functions.

Module layout, one file each:
- `common.dfy`, `framework.dfy`, `strings.dfy` and `sorting.dfy`: shared vocabulary.
- `app_list.dfy`: `get_app_list`.
- `menu.dfy`: original menu items and menu URLs.
- `custom_menu.dfy`: `JET_SIDE_MENU_ITEMS`.
- `deprecated_menu.dfy`: `JET_SIDE_MENU_CUSTOM_APPS`.
- `current.dfy`: the `current` flags.
- `menu_items.dfy`: `get_menu_items`.
- `language.dfy` and `context.dfy`.

## Model

| member | source | states |
|---|---|---|
| AppList.EntryOf | jet/utils.py:36-52 | the model dict has an admin URL exactly when the `change` permission is granted and the changelist name resolves, and then it is that URL; likewise the add URL under `add` |
| AppList.GetAppList | jet/utils.py:21-83 | the registry loop, grouping and sort compute `AppListSpec`; the resolver failing on an app index raises NoReverseMatch |
| AppList.SortApps | jet/utils.py:73-81 | the apps come out in stable lower-cased-name order, and every app's models in stable name order |
| AppList.LabelsExact | jet/utils.py:26-71 | every app label occurs once in `app_dict`, and exactly the labels of models the user may see occur |
| AppList.ModelsOfExact | jet/utils.py:53-70 | an app's model list is non-empty exactly when its label is listed, and holds exactly the model dicts of its visible models |
| AppListProperties.AppListShape | jet/utils.py:21-83 | each visible app label appears exactly once. Each app has a non-empty list holding exactly its visible models, its module permission, its resolved index URL and its verbose name. With `order`, apps are sorted by lower-cased name and models by name |
| Sorting.SortBy | jet/utils.py:77-81 | `list.sort(key=…)` returns a permutation of its input, sorted by key |
| Sorting.SortByStable | jet/utils.py:77-81 | elements with equal keys keep their relative order (Python's sort is stable) |
| Sorting.DistinctPreserved | jet/utils.py:74-77 | sorting keeps app labels distinct |
| Strings.Split | jet/utils.py:221 | `str.split(sep, maxsplit)` gives min(occurrences, maxsplit)+1 parts, which join back into the input; only the last part may contain the separator |
| Menu.OriginalMenuItemsFacts | jet/utils.py:234-264 | one record per listed app, in order, with distinct labels. Each record has the app's index URL, `has_perms` set and `custom` false. `pinned` holds exactly for the pinned apps of an authenticated user. Every model record comes from a visible registered model of that app and has `has_perms` set. No record is flagged current yet |
| Menu.PinnedApps | jet/utils.py:235-238 | pinned labels come only from the user's own pinned applications: all of them for an authenticated user, none otherwise |
| Menu.OriginalMenuItems | jet/utils.py:242-264 | one record per app, in order, keeping its label and index URL. `pinned` holds exactly for the pinned labels; `custom` and `url_blank` are false. No record has items or a `current` flag yet. Each app has one model record per model dict, with its object name |
| Menu.FindApp | jet/utils.py:272 | `original_app_list[app_label]` finds an app exactly when one has that label, and returns it |
| Menu.FindModel | jet/utils.py:274-275 | the dict comprehension keyed by name finds a model exactly when one has that name, and returns the last record with it |
| Menu.MenuItemUrl | jet/utils.py:267-279 | a string is returned as is. An `app` URL is that app's URL, a `model` URL that model's URL, a `reverse` URL what the resolver returns. The error of an `app` URL is KeyError of `app_label` when that key is missing, else of the unknown label. A `model` URL without `app_label` raises KeyError of it; its other errors are KeyError of `model`, the app label or the model name. A `reverse` URL raises KeyError of `name` when that key is missing, else NoReverseMatch of the name. Any other dict or value gives None |
| CustomMenu.ModelTarget | jet/utils.py:298-304 | a name without a dot names a model of the enclosing app. One dot splits it into an app label and a model name. Two or more dots fail to unpack |
| CustomMenu.BaseModelItem | jet/utils.py:296-310 | the item starts as a copy of the named model when its app and name are known, else as `{"has_perms": True}`; unpack errors propagate |
| CustomMenu.MenuItemAppModel | jet/utils.py:295-324 | every configured key overrides the base record. `url` goes through `get_menu_item_url`. `has_perms` turns false exactly when the user lacks the listed permissions. Errors come from the name or the URL only |
| CustomMenu.MenuItemAppModels | jet/utils.py:343 | the list comprehension succeeds exactly when every item does, elementwise; otherwise it fails with the first failing item's error |
| CustomMenu.CustomAppLabel | jet/utils.py:327-332 | a non-empty `app_label` is kept. Without it, a `label` gives `custom_` plus its slug. With neither, the exception is raised |
| CustomMenu.BaseApp | jet/utils.py:334-337 | the app starts as a copy of the known app with that label, else as `{"app_label": …, "has_perms": True}` |
| CustomMenu.Customize | jet/utils.py:339-352 | label, items, url, url_blank and has_perms are overridden as configured; every other field is the base's |
| CustomMenu.MenuItemApp | jet/utils.py:326-356 | the app record is the customised base. `pinned` holds exactly when its label is among the user's pinned apps. A missing label raises |
| CustomMenu.MenuItemApps | jet/utils.py:358-360 | one record per configured app, in order, each `get_menu_item_app` of its entry; the first failing entry's error otherwise |
| CustomMenu.CustomAppList | jet/utils.py:293-360 | the loop appending `get_menu_item_app(data)` computes `MenuItemApps` |
| DeprecatedMenu.Put | jet/utils.py:373 | storing a model under its object name overwrites the value and keeps the key's first position |
| DeprecatedMenu.IndexOfLast | jet/utils.py:369-373 | `models_dict[app_label]` maps each object name to the last model record with that name |
| DeprecatedMenu.IndexOfKeys | jet/utils.py:369-373 | the keys of `models_dict[app_label]` are exactly the object names of the app's models |
| DeprecatedMenu.IndexOfDistinct | jet/utils.py:369-373 | when the object names are distinct, `.values()` of the index are the app's models themselves, in order |
| DeprecatedMenu.ApplyLabels | jet/utils.py:389-395 | labels on an app without models raise KeyError. An error is that KeyError or the AttributeError of appending to the values view |
| DeprecatedMenu.ApplyLabelsFromList | jet/utils.py:389-395 | starting from a list, the labels append the models they name in order, skipping unknown ones; "__all__" anywhere replaces the list with the values view |
| DeprecatedMenu.EntryFor | jet/utils.py:383-386 | the first entry naming an app: one that names it with no entry before it doing so; there is none exactly when no entry names it |
| DeprecatedMenu.Run | jet/utils.py:383-397 | the entry loop raises only AttributeError, or KeyError of a known app label that has no index in `models_dict` |
| DeprecatedMenu.RunShape | jet/utils.py:383-397 | the entry loop keeps every app's items and appends exactly the known app labels, in entry order |
| DeprecatedMenu.AppDict | jet/utils.py:365-367 | `app_dict` holds exactly the labels of the original apps |
| DeprecatedMenu.ModelsDict | jet/utils.py:365-373 | `models_dict` holds an index for apps with models only, and only for listed apps |
| DeprecatedMenu.InitialItems | jet/utils.py:375 | every app starts with an empty items list |
| DeprecatedMenu.IndexApps | jet/utils.py:362-375 | the first loop builds `app_dict`, `models_dict` and the empty items |
| DeprecatedMenu.IndexModels | jet/utils.py:369-373 | the inner loop builds the object-name index of one app |
| DeprecatedMenu.ApplyModelLabels | jet/utils.py:389-395 | the inner loop over one entry's labels computes `ApplyLabels` |
| DeprecatedMenu.DeprecatedAppList | jet/utils.py:361-397 | the whole branch computes `DeprecatedSpec` |
| DeprecatedMenu.RunDistinct | jet/utils.py:383-397 | when no app is named twice and no labels are given for an app without models, the loop raises nothing and each named app gets its one entry's items |
| DeprecatedMenu.DeprecatedRecords | jet/utils.py:383-397 | the resulting menu lists the known apps the entries name, in entry order; each is an original app with only its items changed |
| DeprecatedMenu.DeprecatedItems | jet/utils.py:361-397 | with distinct app labels, and labels given only for apps with models, nothing raises and every app carries `ItemsFor` its entry: the index values under "__all__", else the named models |
| DeprecatedMenu.AllItems | jet/utils.py:390-392 | under "__all__" the object name of every model of the app is among its items; with distinct object names the items are exactly the app's models, in order |
| CurrentItem.FirstMatch | jet/utils.py:410-415 | the first model item whose non-empty URL prefixes the path, and no earlier one |
| CurrentItem.FirstHit | jet/utils.py:408-421 | the walk stops at the first app having a matching item, or else a matching URL; every app before it is silent. No hit means every app is silent |
| CurrentItem.MarkItems | jet/utils.py:410-415 | the inner loop flags the first matching item true and every other item false |
| CurrentItem.MarkApp | jet/utils.py:409-421 | one visit of an app that has items flags its items, then the app, as the `MarkedApp` states: the first matching item, else the app if its URL matches, and every other item and the app false |
| CurrentItem.MarkCurrent | jet/utils.py:406-421 | the flagging loop computes `Marked`: every app up to the hit is flagged, later apps are untouched |
| CurrentItem.NoHitIffSilent | jet/utils.py:408-421 | nothing is flagged exactly when no app or item matches |
| CurrentItem.MarkedFlags | jet/utils.py:406-421 | on an unflagged menu, the only item or app flagged current is the first match in walk order. At most one is flagged, and its URL prefixes the path |
| MenuItems.DefaultRoundTrip | jet/utils.py:398-404 | `map_item` only sets each app's items to its models: every app of the menu has items, equal to its models, and dropping them gives back the original record, in the original order |
| MenuItems.Branch | jet/utils.py:288-404 | the setting chosen is `JET_SIDE_MENU_ITEMS`, else `JET_SIDE_MENU_CUSTOM_APPS`, else the default. Only the first two can raise, and only the first can yield an app without items |
| MenuItems.GetMenuItems | jet/utils.py:282-423 | computes `MenuItemsSpec`. On success, at most one item or app is flagged current, and only one whose URL the path starts with |
| MenuItems.MenuItemsCurrent | jet/utils.py:282-423 | on success the app list was built and the chosen branch produced a menu, and the result is that menu flagged exactly at its first hit |
| MenuItems.BranchUnmarked | jet/utils.py:288-404 | whichever branch is taken, no item or app it returns is flagged current yet |
| MenuItems.AppItemClean | jet/utils.py:326-356 | a configured app and its items carry no `current` flag |
| MenuItems.ApplyLabelsClean | jet/utils.py:389-395 | applying labels that take records from an index with no `current` flag to items with none leaves items with none |
| Language.PossibleLanguageCodes | jet/utils.py:214-231 | one or two codes: two exactly when the normalised code has a single `-` |
| Language.FirstCodeMatches | jet/utils.py:214-231 | with one `-` between a language part and a dialect part, the second code is the language part. When the two parts differ, the first code is the language part, a `-` and the dialect part in upper case, so it reads in lower case as the normalised code. When they are equal, the first code is the language part. Otherwise the only code is the normalised code |
| Language.LastCodeIsPrefix | jet/utils.py:216-229 | no code contains `_`, and the last, most general code is a prefix of the normalised active language |
| ContextDict.FlattenLast | jet/utils.py:426-433 | the flat dict has exactly the keys of the context's layers, each with the value of the last layer that defines it |
| ContextDict.ContextToDict | jet/utils.py:426-433 | a context is flattened by applying `update` layer by layer; any other dict is returned unchanged |

## Left out

- `get_admin_site` and `get_admin_site_name` are not modelled: resolving the admin index view and searching its closure is framework introspection. The admin site's name is `Env.siteName`.
- `get_model_queryset`, `get_model_instance_label`, `LazyDateTimeEncoder` and `SuccessMessageMixin` are not modelled: they are ORM, serialisation and form-view glue outside the menu.
- `user_is_authenticated` is not modelled: its callable-or-attribute check is folded into `Request.authenticated`.
- The database query for the user's `PinnedApplication` rows becomes the `pinned` set of `Request`.
- `translation.get_language()` becomes the parameter of `PossibleLanguageCodes`.
- `reverse`, `capfirst`, `slugify`, `apps.get_app_config(...).verbose_name` and `user.has_perms` are fields of `Framework.Env`, so their own behaviour is not modelled. The `NameError` fallback to `app_label.title()` is part of `appVerboseName`.
- Strings.Lower: `lower()` and `upper()` map ASCII letters only, because Unicode case mapping is out of scope.
- `admin_site._registry` is a dict: its iteration order is the order of the `registry` sequence.
- Menu.MenuItemUrl: a missing `url` key and a `url` of None read alike, because both make `model.get("url")` falsy, which is all the menu consults.
- MenuItems.GetMenuItems: the source flags dicts in place, and its menu can hold the same dict more than once. The model flags values, one position at a time. The results differ in these cases:
  - In the default branch, an app's `items` list is its `models` list (jet/utils.py:400-401). Flagging an item therefore also flags that model record. The model flags only `items`.
  - In the deprecated branch, the items are the very dicts stored in `models` (jet/utils.py:369-373, 391, 395). A flag shows in `models` too, which the model does not capture.
  - In the deprecated branch, an app named by several entries is appended once per entry, and all copies are one dict (jet/utils.py:397). Once a copy is flagged, the later copies show its flags too. The model leaves those positions untouched.
  - A model label listed twice in one entry, as in `("auth", ["User", "User"])`, appends one dict twice (jet/utils.py:393-395). If that dict is the first match, the loop sets its `current` to True on the first visit and back to False on the second (jet/utils.py:411-415). The source then ends with no item flagged, though a match was found. The model flags the first copy only.
- CurrentItem.MarkedFlags: "flagged exactly at the first hit" holds of the model's values. It holds of the source's dicts only when no dict occurs twice in the menu, for the reasons under MenuItems.GetMenuItems.
- MenuItems.MenuItemsCurrent: as for CurrentItem.MarkedFlags, this describes the source only when no dict occurs twice in the menu.
- ContextDict.ContextToDict: a value that is neither a context nor a dict is not modelled, because `Other` holds a dict.
- DeprecatedMenu.DeprecatedAppList: a configured entry that is not a pair (the tuple unpacking at jet/utils.py:384 failing) is excluded by the `DeprecatedEntry` type.
- A configured `items` value that is not a list, or a configured app that is not a dict, is excluded by the types of `CustomMenu`.
- `item.get("has_perms", True)` always finds the key in the model, because every record, base or copy, carries `has_perms`.
- Menu.OriginalMenuItems: the `app.get("name", capfirst(...))` and `model.get("name", ...)` fallbacks are not modelled, because `get_app_list` always sets `name`.
