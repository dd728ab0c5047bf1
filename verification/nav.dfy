/** The `nav_active` template tag: decides whether a navigation link gets the
    `active` CSS class. URL reversal is a partial map from route names to
    paths; a name the map does not know is what `NoReverseMatch` reports, and
    the argument is then used verbatim as a raw path prefix. */
module NavTags {
  import opened Values
  import opened Text

  /** The part of the template context the tag reads. */
  datatype Request = Request(path: Option<string>)

  const Active := "active"

  /** What the argument resolves to: the reversed path, or the raw text. */
  function Target(routes: map<string, string>, nameOrPath: string): (t: string)
    ensures nameOrPath in routes ==> t == routes[nameOrPath]
    ensures nameOrPath !in routes ==> t == nameOrPath
  {
    if nameOrPath in routes then routes[nameOrPath] else nameOrPath
  }

  /** `request.path or ''`. */
  function CurrentPath(request: Request): (p: string)
    ensures request.path.Some? ==> p == request.path.value
    ensures request.path.None? ==> p == ""
  {
    match request.path
    case Some(p) => p
    case None => ""
  }

  /** The tag as written: exact match, then prefix match for targets other
      than the root, then the root special case. */
  function NavActive(context: Option<Request>, routes: map<string, string>, nameOrPath: string): (r: string)
    ensures r == Active || r == ""
    ensures context.None? ==> r == ""
    ensures context.Some? ==>
      var path := CurrentPath(context.value);
      var target := Target(routes, nameOrPath);
      (r == Active <==> path == target || (target != "/" && StartsWith(path, target)))
  {
    match context
    case None => ""
    case Some(request) =>
      var target := Target(routes, nameOrPath);
      var path := CurrentPath(request);
      if path == target then Active
      else if target != "/" && StartsWith(path, target) then Active
      else if target == "/" && path == "/" then Active
      else ""
  }

  /** The root link is active on the home page only, never on a sub-page. */
  lemma RootIsExactOnly(request: Request, routes: map<string, string>, nameOrPath: string)
    requires Target(routes, nameOrPath) == "/"
    ensures NavActive(Some(request), routes, nameOrPath) == Active <==> CurrentPath(request) == "/"
  {
  }

  /** A parent route activates every path below it, and the match is a plain
      string prefix: `/art` activates `/artworks/`. */
  lemma PrefixActivates(request: Request, routes: map<string, string>, nameOrPath: string, rest: string)
    requires Target(routes, nameOrPath) != "/"
    requires CurrentPath(request) == Target(routes, nameOrPath) + rest
    ensures NavActive(Some(request), routes, nameOrPath) == Active
  {
    var t := Target(routes, nameOrPath);
    assert CurrentPath(request)[..|t|] == t;
  }

  lemma ArtPrefixActivatesArtworks()
    ensures NavActive(Some(Request(Some("/artworks/"))), map[], "/art") == Active
  {
    PrefixActivates(Request(Some("/artworks/")), map[], "/art", "works/");
  }

  /** An unknown empty name is an empty raw prefix, so every page is active. */
  lemma EmptyRawTargetMatchesEverything(request: Request, routes: map<string, string>)
    requires "" !in routes
    ensures NavActive(Some(request), routes, "") == Active
  {
    PrefixActivates(request, routes, "", CurrentPath(request));
  }

  /** A request without a path is treated as being on the empty path. */
  lemma MissingPathIsEmpty(routes: map<string, string>, nameOrPath: string)
    ensures NavActive(Some(Request(None)), routes, nameOrPath)
         == NavActive(Some(Request(Some(""))), routes, nameOrPath)
  {
  }
}
