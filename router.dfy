/** Route guards and the static route table of the single-page router.
    The answer of the authentication service is an input, the session
    store is a `Users.UserStore`, and `next` is the `Decision` a guard
    returns, so each guard invocation calls `next` exactly once. */
module Router {
  import opened Wrappers
  import opened Users

  /** The principal the authentication service reports; only its id is used. */
  datatype AuthUser = AuthUser(id: string)

  /** The part of a route location the guards and the matcher look at. */
  datatype Location = Location(fullPath: string)

  /** `next()` lets the navigation proceed; `next(target)` redirects. */
  datatype Decision = Proceed | Redirect(target: string)

  const ContinuePrefix: string := "/login?continue="

  /** The login redirect of both guards: plain concatenation, no encoding. */
  function LoginRedirect(fullPath: string): (target: string)
    ensures |target| == |ContinuePrefix| + |fullPath|
    ensures target[..|ContinuePrefix|] == ContinuePrefix
    ensures ContinueOf(target) == Some(fullPath)
  {
    var target := ContinuePrefix + fullPath;
    assert target[..|ContinuePrefix|] == ContinuePrefix;
    assert target[|ContinuePrefix|..] == fullPath;
    target
  }

  /** The text after the fixed prefix. This is not what a query parser reads
      as `continue` when the full path holds its own `&`, `#` or `%`. */
  function ContinueOf(target: string): Option<string>
  {
    if |ContinuePrefix| <= |target| && target[..|ContinuePrefix|] == ContinuePrefix
    then Some(target[|ContinuePrefix|..])
    else None
  }

  /** Distinct target paths give distinct redirects. */
  lemma LoginRedirectInjective(p: string, q: string)
    requires LoginRedirect(p) == LoginRedirect(q)
    ensures p == q
  {
  }

  /** The decision of `userGuard`, given what the authentication service answered. */
  function UserDecision(fullPath: string, auth: Option<AuthUser>): (d: Decision)
    ensures d.Proceed? <==> auth.Some?
    ensures d.Redirect? ==> ContinueOf(d.target) == Some(fullPath)
  {
    if auth.Some? then Proceed else Redirect(LoginRedirect(fullPath))
  }

  /** The decision of `adminGuard`, given the store's `user` object. */
  function AdminDecision(fullPath: string, user: UserRecord): (d: Decision)
    ensures d.Proceed? <==> user.role == Some(ADMIN)
    ensures d.Redirect? ==> ContinueOf(d.target) == Some(fullPath)
  {
    if user.role == Some(ADMIN) then Proceed else Redirect(LoginRedirect(fullPath))
  }

  /** `userGuard(to, from, next)`: on success records the user id in the store. */
  method UserGuard(to: Location, from: Location, auth: Option<AuthUser>, store: UserStore) returns (d: Decision)
    modifies store
    ensures d == UserDecision(to.fullPath, auth)
    ensures auth.Some? ==> store.user == old(store.user).(id := Some(auth.value.id))
    ensures auth.None? ==> store.user == old(store.user)
  {
    if auth.Some? {
      store.SetUserId(auth.value.id);
      d := Proceed;
    } else {
      d := Redirect(LoginRedirect(to.fullPath));
    }
  }

  /** `adminGuard(to, from, next)`: reads the store and changes nothing. */
  method AdminGuard(to: Location, from: Location, store: UserStore) returns (d: Decision)
    ensures d.Proceed? <==> store.user.role == Some(ADMIN)
    ensures d.Redirect? ==> d.target == ContinuePrefix + to.fullPath
    ensures d == AdminDecision(to.fullPath, store.user)
  {
    if store.user.role == Some(ADMIN) {
      d := Proceed;
    } else {
      d := Redirect(LoginRedirect(to.fullPath));
    }
  }

  // ---------------------------------------------------------------------
  // the route table

  /** Names the guard function a route's `beforeEnter` holds. */
  datatype GuardRef = UserGuardRef | AdminGuardRef

  /** One route record; `component` is the module the route loads, by name. */
  datatype Route = Route(path: string, name: Option<string>, component: string,
                         beforeEnter: Option<GuardRef>, children: seq<Route>)

  /** The route a path resolves to: its name and the guards run on entry. */
  datatype Match = Match(name: Option<string>, guards: seq<GuardRef>)

  function TopLevelPaths(routes: seq<Route>): (paths: seq<string>)
    ensures |paths| == |routes|
    ensures forall k :: 0 <= k < |routes| ==> paths[k] == routes[k].path
  {
    if routes == [] then [] else [routes[0].path] + TopLevelPaths(routes[1..])
  }

  /** The names of all routes, children included. */
  function RouteNames(routes: seq<Route>): seq<string>
    decreases routes
  {
    if routes == [] then []
    else
      var r := routes[0];
      (if r.name.Some? then [r.name.value] else []) + RouteNames(r.children) + RouteNames(routes[1..])
  }

  /** The guard a route's `beforeEnter` holds, as a list of at most one. */
  function GuardsOf(r: Route): seq<GuardRef> {
    if r.beforeEnter.Some? then [r.beforeEnter.value] else []
  }

  /** The guards attached anywhere in the table, children included. */
  function AttachedGuards(routes: seq<Route>): seq<GuardRef>
    decreases routes
  {
    if routes == [] then []
    else
      var r := routes[0];
      GuardsOf(r) + AttachedGuards(r.children) + AttachedGuards(routes[1..])
  }

  predicate Distinct(s: seq<string>) {
    forall i, j :: 0 <= i < j < |s| ==> s[i] != s[j]
  }

  /** A child path is relative to its parent; the empty one stands for the parent. */
  function JoinPath(base: string, path: string): string {
    if |path| > 0 && path[0] == '/' then path
    else if path == [] then base
    else if |base| > 0 && base[|base| - 1] == '/' then base + path
    else base + "/" + path
  }

  /** Exact-path resolution, children before their parent, in table order.
      A match carries the guards of every route on the way to it. */
  function Resolve(routes: seq<Route>, base: string, path: string): Option<Match>
    decreases routes
  {
    if routes == [] then None
    else
      var r := routes[0];
      var full := JoinPath(base, r.path);
      var below := Resolve(r.children, full, path);
      if below.Some? then Some(below.value.(guards := GuardsOf(r) + below.value.guards))
      else if full == path then Some(Match(r.name, GuardsOf(r)))
      else Resolve(routes[1..], base, path)
  }

  /** The `routes` option passed to `createRouter`. */
  function RouteTable(): (routes: seq<Route>)
    ensures |routes| == 5
    ensures forall k :: 0 <= k < 4 ==> routes[k].name.Some? && routes[k].children == []
    ensures routes[4].path == "/admin" && routes[4].name.None? && |routes[4].children| == 1
    ensures routes[4].children[0].path == "" && routes[4].children[0].children == []
  {
    [ Route("/", Some("home"), "../views/HomeView.vue", None, []),
      Route("/areas", Some("AreaView"), "../views/AllReviews.vue", None, []),
      Route("/sign-up", Some("SignUp"), "../views/auth/RegisterView.vue", None, []),
      Route("/login", Some("logIn"), "../views/auth/LoginView.vue", None, []),
      Route("/admin", None, "../views/admin/defaultView.vue", Some(AdminGuardRef),
            [Route("", Some("AdminHome"), "../views/admin/IndexView.vue", None, [])]) ]
  }

  /** The five top-level paths, in table order, all distinct. */
  lemma RouteTablePaths()
    ensures TopLevelPaths(RouteTable()) == ["/", "/areas", "/sign-up", "/login", "/admin"]
    ensures Distinct(TopLevelPaths(RouteTable()))
  {
  }

  /** Every route name, the child's included, occurs once. */
  lemma RouteTableNames()
    ensures RouteNames(RouteTable()) == ["home", "AreaView", "SignUp", "logIn", "AdminHome"]
    ensures Distinct(RouteNames(RouteTable()))
  {
    var routes := RouteTable();
    assert routes[4..] == [routes[4]] && routes[3..] == [routes[3]] + routes[4..];
    assert routes[2..] == [routes[2]] + routes[3..] && routes[1..] == [routes[1]] + routes[2..];
    assert RouteNames(routes[4].children) == ["AdminHome"];
    assert RouteNames(routes[4..]) == ["AdminHome"];
    assert RouteNames(routes[3..]) == ["logIn", "AdminHome"];
    assert RouteNames(routes[2..]) == ["SignUp", "logIn", "AdminHome"];
    assert RouteNames(routes[1..]) == ["AreaView", "SignUp", "logIn", "AdminHome"];
  }

  /** Only `/admin` has a `beforeEnter` guard, it is `adminGuard`, and no
      route anywhere in the table carries `userGuard`. */
  lemma RouteTableGuards()
    ensures forall k :: 0 <= k < |RouteTable()| ==>
              (RouteTable()[k].beforeEnter.Some? <==> RouteTable()[k].path == "/admin")
    ensures forall k :: 0 <= k < |RouteTable()| && RouteTable()[k].beforeEnter.Some? ==>
              RouteTable()[k].beforeEnter == Some(AdminGuardRef)
    ensures AttachedGuards(RouteTable()) == [AdminGuardRef]
    ensures UserGuardRef !in AttachedGuards(RouteTable())
  {
  }

  /** `/admin` resolves to its empty-path child `AdminHome`, behind `adminGuard`. */
  lemma AdminHomeResolves()
    ensures Resolve(RouteTable(), "", "/admin") == Some(Match(Some("AdminHome"), [AdminGuardRef]))
  {
    var routes := RouteTable();
    var admin := routes[4];
    assert routes[4..] == [admin] && routes[3..] == [routes[3]] + routes[4..];
    assert routes[2..] == [routes[2]] + routes[3..] && routes[1..] == [routes[1]] + routes[2..];
    assert JoinPath("", "/admin") == "/admin";
    assert GuardsOf(admin) + [] == [AdminGuardRef];
    assert Resolve(admin.children, "/admin", "/admin") == Some(Match(Some("AdminHome"), []));
    assert Resolve(routes[4..], "", "/admin") == Some(Match(Some("AdminHome"), [AdminGuardRef]));
    assert Resolve(routes[3..], "", "/admin") == Resolve(routes[4..], "", "/admin");
    assert Resolve(routes[2..], "", "/admin") == Resolve(routes[3..], "", "/admin");
    assert Resolve(routes[1..], "", "/admin") == Resolve(routes[2..], "", "/admin");
  }

  /** The four other paths resolve to their own named routes, with no guard. */
  lemma OtherPathsUnguarded()
    ensures Resolve(RouteTable(), "", "/") == Some(Match(Some("home"), []))
    ensures Resolve(RouteTable(), "", "/areas") == Some(Match(Some("AreaView"), []))
    ensures Resolve(RouteTable(), "", "/sign-up") == Some(Match(Some("SignUp"), []))
    ensures Resolve(RouteTable(), "", "/login") == Some(Match(Some("logIn"), []))
  {
  }

  /** A user who is not an admin is sent from `/admin` to the login page. */
  lemma AdminRouteRedirectsNonAdmin(user: UserRecord)
    requires user.role != Some(ADMIN)
    ensures Resolve(RouteTable(), "", "/admin").value.guards == [AdminGuardRef]
    ensures AdminDecision("/admin", user) == Redirect("/login?continue=/admin")
  {
  }
}
