/** What the utilities ask of the web framework and of the request, as plain values. */
module Framework {
  import opened Common

  /** One call `reverse(name, args=args, kwargs=kwargs, current_app=currentApp)`. */
  datatype ReverseCall = ReverseCall(
    name: string,
    args: seq<string>,
    kwargs: map<string, string>,
    currentApp: Option<string>)

  /** The framework services consulted while building the app list and the menu. */
  datatype Env = Env(
    siteName: string,                        // name of the admin site serving the request
    reverse: ReverseCall -> Option<string>,  // None: the resolver raises NoReverseMatch
    capfirst: string -> string,
    appVerboseName: string -> string,        // apps.get_app_config(label).verbose_name
    slugify: string -> string,
    userHasPerms: seq<string> -> bool)       // request.user.has_perms(perms)

  /** A setting that is unset (None or False), a list, or a dict of lists keyed by admin site name. */
  datatype Setting<T> = Unset | Flat(entries: seq<T>) | PerSite(bySite: map<string, seq<T>>)

  /** The list a set setting stands for on the given site: `setting.get(site, [])` for a dict. */
  function EntriesFor<T>(s: Setting<T>, siteName: string): seq<T>
    requires !s.Unset?
  {
    match s
    case Flat(entries) => entries
    case PerSite(bySite) => if siteName in bySite then bySite[siteName] else []
  }
}
