/** The generated OpenAPI document and the boot-time check that it describes
    the same routes as the registry. */
module OpenApi {
  import opened Prelude
  import Ranking
  import Text

  datatype Route = Route(name: string, method_: string, path: string)

  datatype RouteGroup = RouteGroup(name: string, routes: seq<Route>)

  type Registry = seq<RouteGroup>

  /** One operation per verb; each is identified by the route it came from. */
  datatype PathItem = PathItem(
    get: Option<Route>, post: Option<Route>, put: Option<Route>, patch: Option<Route>,
    delete: Option<Route>, head: Option<Route>, options: Option<Route>)

  type Paths = map<string, PathItem>

  const NO_OPERATIONS := PathItem(None, None, None, None, None, None, None)

  const VERBS := ["GET", "POST", "PUT", "PATCH", "DELETE", "HEAD", "OPTIONS"]

  predicate Known(verb: string)
  {
    verb in VERBS
  }

  /** The operation under an upper-case verb. */
  function OpAt(item: PathItem, verb: string): Option<Route>
  {
    if verb == "GET" then item.get
    else if verb == "POST" then item.post
    else if verb == "PUT" then item.put
    else if verb == "PATCH" then item.patch
    else if verb == "DELETE" then item.delete
    else if verb == "HEAD" then item.head
    else if verb == "OPTIONS" then item.options
    else None
  }

  function AssignOperation(item: PathItem, method_: string, op: Route): PathItem
  {
    var verb := Text.Upper(method_);
    if verb == "GET" then item.(get := Some(op))
    else if verb == "POST" then item.(post := Some(op))
    else if verb == "PUT" then item.(put := Some(op))
    else if verb == "PATCH" then item.(patch := Some(op))
    else if verb == "DELETE" then item.(delete := Some(op))
    else if verb == "HEAD" then item.(head := Some(op))
    else if verb == "OPTIONS" then item.(options := Some(op))
    else item
  }

  function ItemAt(paths: Paths, path: string): PathItem
  {
    if path in paths then paths[path] else NO_OPERATIONS
  }

  function AddRoute(paths: Paths, r: Route): Paths
  {
    paths[r.path := AssignOperation(ItemAt(paths, r.path), r.method_, r)]
  }

  /** All routes in registration order. */
  function All(reg: Registry): seq<Route>
  {
    if reg == [] then [] else All(reg[..|reg| - 1]) + reg[|reg| - 1].routes
  }

  function PathsOf(routes: seq<Route>): Paths
  {
    if routes == [] then map[] else AddRoute(PathsOf(routes[..|routes| - 1]), routes[|routes| - 1])
  }

  lemma {:induction false} PathsOfSnoc(routes: seq<Route>, r: Route)
    ensures PathsOf(routes + [r]) == AddRoute(PathsOf(routes), r)
  {
    assert (routes + [r])[..|routes|] == routes;
  }

  lemma AllSnoc(reg: Registry, g: nat)
    requires g < |reg|
    ensures All(reg[..g + 1]) == All(reg[..g]) + reg[g].routes
  {
    assert reg[..g + 1][..g] == reg[..g];
  }

  /** The inner loop: the routes of one group. */
  method AddGroup(paths: Paths, routes: seq<Route>, ghost done: seq<Route>) returns (r: Paths)
    requires paths == PathsOf(done)
    ensures r == PathsOf(done + routes)
  {
    hide AssignOperation, ItemAt, PathsOf;
    r := paths;
    assert done + routes[..0] == done;
    for i := 0 to |routes|
      invariant r == PathsOf(done + routes[..i])
    {
      PathsOfSnoc(done + routes[..i], routes[i]);
      assert done + routes[..i + 1] == done + routes[..i] + [routes[i]];
      var item := ItemAt(r, routes[i].path);
      item := AssignOperation(item, routes[i].method_, routes[i]);
      r := r[routes[i].path := item];
    }
    assert routes[..|routes|] == routes;
  }

  /** The nested loops over groups and their routes. */
  method Build(reg: Registry) returns (paths: Paths)
    ensures paths == PathsOf(All(reg))
  {
    hide AddRoute;
    paths := map[];
    for g := 0 to |reg|
      invariant paths == PathsOf(All(reg[..g]))
    {
      AllSnoc(reg, g);
      paths := AddGroup(paths, reg[g].routes, All(reg[..g]));
    }
    assert reg[..|reg|] == reg;
  }

  // ---------------------------------------------------------------- what the document holds

  /** The last registered route for a path and an upper-case verb. */
  function LastRoute(routes: seq<Route>, path: string, verb: string): Option<Route>
  {
    if routes == [] then None
    else
      var n := |routes| - 1;
      if routes[n].path == path && Text.Upper(routes[n].method_) == verb then Some(routes[n])
      else LastRoute(routes[..n], path, verb)
  }

  lemma AssignSpec(item: PathItem, r: Route, verb: string)
    ensures OpAt(AssignOperation(item, r.method_, r), verb)
            == if Known(verb) && Text.Upper(r.method_) == verb then Some(r) else OpAt(item, verb)
  {}

  lemma UnknownHasNone(item: PathItem, verb: string)
    requires !Known(verb)
    ensures OpAt(item, verb) == None
  {}

  /** The document's operation for a path and verb is the last route registered
      for them; unknown verbs have none. */
  lemma {:induction false} BuildKeepsLast(routes: seq<Route>, path: string, verb: string)
    ensures OpAt(ItemAt(PathsOf(routes), path), verb)
            == if Known(verb) then LastRoute(routes, path, verb) else None
  {
    hide AssignOperation, OpAt, Known;
    if routes == [] {
      NoOperation(verb);
    } else {
      var n := |routes| - 1;
      BuildKeepsLast(routes[..n], path, verb);
      AssignSpec(ItemAt(PathsOf(routes[..n]), path), routes[n], verb);
      if !Known(verb) { UnknownHasNone(ItemAt(PathsOf(routes), path), verb); }
    }
  }

  /** Field by field: each operation of a path is the last route registered for
      its verb. */
  lemma DocumentFields(routes: seq<Route>, path: string)
    ensures var item := ItemAt(PathsOf(routes), path);
            && item.get == LastRoute(routes, path, "GET") && item.post == LastRoute(routes, path, "POST")
            && item.put == LastRoute(routes, path, "PUT") && item.patch == LastRoute(routes, path, "PATCH")
            && item.delete == LastRoute(routes, path, "DELETE") && item.head == LastRoute(routes, path, "HEAD")
            && item.options == LastRoute(routes, path, "OPTIONS")
  {
    hide PathsOf, LastRoute, ItemAt;
    BuildKeepsLast(routes, path, "GET");
    BuildKeepsLast(routes, path, "POST");
    BuildKeepsLast(routes, path, "PUT");
    BuildKeepsLast(routes, path, "PATCH");
    BuildKeepsLast(routes, path, "DELETE");
    BuildKeepsLast(routes, path, "HEAD");
    BuildKeepsLast(routes, path, "OPTIONS");
  }

  lemma NoOperation(verb: string)
    ensures OpAt(NO_OPERATIONS, verb) == None
  {}

  // ---------------------------------------------------------------- the self-check

  function RouteText(verb: string, path: string): string
  {
    verb + " " + path
  }

  ghost function DocRoutes(paths: Paths): set<string>
  {
    set p, v | p in paths && v in VERBS && OpAt(paths[p], v).Some? :: RouteText(v, p)
  }

  ghost function RegistryRoutes(routes: seq<Route>): set<string>
  {
    set r | r in routes :: RouteText(Text.Upper(r.method_), r.path)
  }

  /** The verbs of a path item that have an operation. */
  function ItemMethods(item: PathItem): seq<string>
  {
    (if item.get.Some? then ["GET"] else [])
    + (if item.post.Some? then ["POST"] else [])
    + (if item.put.Some? then ["PUT"] else [])
    + (if item.patch.Some? then ["PATCH"] else [])
    + (if item.delete.Some? then ["DELETE"] else [])
    + (if item.head.Some? then ["HEAD"] else [])
    + (if item.options.Some? then ["OPTIONS"] else [])
  }

  lemma ItemMethodsSpec(item: PathItem, verb: string)
    ensures verb in ItemMethods(item) <==> OpAt(item, verb).Some?
  {}

  /** The sorted members of a set of route texts, as `sort.Strings` leaves them. */
  method SortedMembers(s: set<string>) returns (out: seq<string>)
    ensures Ranking.Ranked(Text.Less, out) && forall x :: x in out <==> x in s
  {
    out := [];
    var left := s;
    while left != {}
      invariant left <= s && forall x :: x in out <==> x in s && x !in left
      invariant forall i, j | 0 <= i < j < |out| :: out[i] != out[j]
      decreases |left|
    {
      var x :| x in left;
      left := left - {x};
      out := out + [x];
    }
    LessIsStrict();
    forall i, j | 0 <= i < j < |out| ensures Text.Less(out[i], out[j]) || Text.Less(out[j], out[i]) {
      Text.LessConnected(out[i], out[j]);
    }
    Ranking.SortRanked(Text.Less, out);
    out := Ranking.Sort(Text.Less, out);
  }

  lemma LessIsStrict()
    ensures Ranking.StrictOrder(Text.Less)
  {
    forall x: string ensures !Text.Less(x, x) { Text.LessIrreflexive(x); }
    forall x: string, y: string, z: string | Text.Less(x, y) && Text.Less(y, z) ensures Text.Less(x, z) {
      Text.LessTransitive(x, y, z);
    }
  }

  /** The inner loop: the route texts of one path. */
  method ItemRouteTexts(item: PathItem, p: string) returns (out: set<string>)
    ensures out == set v | v in VERBS && OpAt(item, v).Some? :: RouteText(v, p)
  {
    hide OpAt, RouteText, ItemMethods;
    var methods := ItemMethods(item);
    out := {};
    for i := 0 to |methods|
      invariant out == set v | v in methods[..i] :: RouteText(v, p)
    {
      assert methods[..i + 1] == methods[..i] + [methods[i]];
      out := out + {RouteText(methods[i], p)};
    }
    assert methods[..|methods|] == methods;
    forall v ensures v in methods <==> v in VERBS && OpAt(item, v).Some? {
      ItemMethodsSpec(item, v);
      if !Known(v) { UnknownHasNone(item, v); }
    }
  }

  method DocRouteSet(paths: Paths) returns (out: set<string>)
    ensures out == DocRoutes(paths)
  {
    hide OpAt, RouteText;
    out := {};
    var left := paths.Keys;
    while left != {}
      invariant left <= paths.Keys
      invariant out == set p, v | p in paths && p !in left && v in VERBS && OpAt(paths[p], v).Some? :: RouteText(v, p)
      decreases |left|
    {
      var p :| p in left;
      var more := ItemRouteTexts(paths[p], p);
      OneMorePath(paths, left, p, out, more);
      left := left - {p};
      out := out + more;
    }
  }

  lemma OneMorePath(paths: Paths, left: set<string>, p: string, out: set<string>, more: set<string>)
    requires p in left && left <= paths.Keys
    requires out == set p, v | p in paths && p !in left && v in VERBS && OpAt(paths[p], v).Some? :: RouteText(v, p)
    requires more == set v | v in VERBS && OpAt(paths[p], v).Some? :: RouteText(v, p)
    ensures out + more
            == set q, v | q in paths && q !in left - {p} && v in VERBS && OpAt(paths[q], v).Some? :: RouteText(v, q)
  {
    hide OpAt, RouteText;
  }

  method RegistryRouteSet(reg: Registry) returns (out: set<string>)
    ensures out == RegistryRoutes(All(reg))
  {
    var routes := All(reg);
    out := {};
    for i := 0 to |routes|
      invariant out == RegistryRoutes(routes[..i])
    {
      assert routes[..i + 1] == routes[..i] + [routes[i]];
      out := out + {RouteText(Text.Upper(routes[i].method_), routes[i].path)};
    }
    assert routes[..|routes|] == routes;
  }

  /** Passes exactly when both route sets are equal; otherwise names what is
      missing on each side, sorted. */
  method SelfCheck(paths: Paths, reg: Registry)
    returns (ok: bool, missingInDoc: seq<string>, missingInRegistry: seq<string>)
    ensures ok <==> DocRoutes(paths) == RegistryRoutes(All(reg))
    ensures Ranking.Ranked(Text.Less, missingInDoc) && Ranking.Ranked(Text.Less, missingInRegistry)
    ensures forall x :: x in missingInDoc <==> x in RegistryRoutes(All(reg)) && x !in DocRoutes(paths)
    ensures forall x :: x in missingInRegistry <==> x in DocRoutes(paths) && x !in RegistryRoutes(All(reg))
  {
    var docRoutes := DocRouteSet(paths);
    var regRoutes := RegistryRouteSet(reg);
    hide DocRoutes, RegistryRoutes;
    missingInDoc := SortedMembers(regRoutes - docRoutes);
    missingInRegistry := SortedMembers(docRoutes - regRoutes);
    ok := missingInDoc == [] && missingInRegistry == [];
    Ranking.HasMember(missingInDoc);
    Ranking.HasMember(missingInRegistry);
  }

  // ---------------------------------------------------------------- document and registry

  ghost predicate KnownRoute(r: Route)
  {
    Known(Text.Upper(r.method_))
  }

  predicate Registers(r: Route, path: string, verb: string)
  {
    r.path == path && Text.Upper(r.method_) == verb
  }

  /** The route that counts is the one after which no other is registered for
      the same path and verb. */
  lemma {:induction false} LastRouteMeans(routes: seq<Route>, path: string, verb: string, i: nat)
    requires i < |routes| && Registers(routes[i], path, verb)
    requires forall j | i < j < |routes| :: !Registers(routes[j], path, verb)
    ensures LastRoute(routes, path, verb) == Some(routes[i])
    decreases |routes|
  {
    var n := |routes| - 1;
    assert i < n ==> !Registers(routes[n], path, verb);
    if i < n { LastRouteMeans(routes[..n], path, verb, i); }
  }

  lemma {:induction false} LastRouteExists(routes: seq<Route>, path: string, verb: string)
    ensures LastRoute(routes, path, verb).Some? <==>
            exists r | r in routes :: r.path == path && Text.Upper(r.method_) == verb
    ensures LastRoute(routes, path, verb).Some? ==>
              LastRoute(routes, path, verb).value in routes
  {
    if routes != [] {
      var n := |routes| - 1;
      LastRouteExists(routes[..n], path, verb);
      assert routes == routes[..n] + [routes[n]];
    }
  }

  lemma {:induction false} PathsHaveKeys(routes: seq<Route>)
    ensures forall r | r in routes :: r.path in PathsOf(routes)
  {
    if routes != [] {
      var n := |routes| - 1;
      PathsHaveKeys(routes[..n]);
      assert routes == routes[..n] + [routes[n]];
    }
  }

  /** The document's operations are those of the known-verb routes. */
  lemma DocumentHas(routes: seq<Route>, path: string, verb: string)
    ensures path in PathsOf(routes) && OpAt(PathsOf(routes)[path], verb).Some? <==>
            exists r | r in routes :: KnownRoute(r) && Text.Upper(r.method_) == verb && r.path == path
  {
    hide OpAt, PathsOf, Known;
    PathsHaveKeys(routes);
    BuildKeepsLast(routes, path, verb);
    LastRouteExists(routes, path, verb);
    NoOperation(verb);
    if path in PathsOf(routes) && OpAt(PathsOf(routes)[path], verb).Some? {
      var r :| r in routes && r.path == path && Text.Upper(r.method_) == verb;
      assert KnownRoute(r);
    }
  }

  /** The route texts of the built document. */
  lemma DocRoutesOfBuild(routes: seq<Route>, text: string)
    ensures text in DocRoutes(PathsOf(routes)) <==>
            exists r | r in routes :: KnownRoute(r) && RouteText(Text.Upper(r.method_), r.path) == text
  {
    hide OpAt, PathsOf, RouteText;
    var paths := PathsOf(routes);
    if text in DocRoutes(paths) {
      var p, v :| p in paths && v in VERBS && OpAt(paths[p], v).Some? && RouteText(v, p) == text;
      DocumentHas(routes, p, v);
    }
    if r :| r in routes && KnownRoute(r) && RouteText(Text.Upper(r.method_), r.path) == text {
      DocumentHas(routes, r.path, Text.Upper(r.method_));
    }
  }

  /** Some route with a known verb has the same text. */
  ghost predicate SharesText(routes: seq<Route>, r: Route)
  {
    exists r' | r' in routes :: KnownRoute(r') &&
      RouteText(Text.Upper(r'.method_), r'.path) == RouteText(Text.Upper(r.method_), r.path)
  }

  /** In general the check passes exactly when every route with an unknown verb
      shares its text with a route whose verb is known. */
  lemma SelfCheckIff(routes: seq<Route>)
    ensures DocRoutes(PathsOf(routes)) == RegistryRoutes(routes) <==>
            forall r | r in routes :: SharesText(routes, r)
  {
    hide PathsOf, DocRoutes, KnownRoute, RouteText;
    forall text ensures text in DocRoutes(PathsOf(routes)) <==>
                        exists r | r in routes :: KnownRoute(r) && RouteText(Text.Upper(r.method_), r.path) == text
    {
      DocRoutesOfBuild(routes, text);
    }
    if DocRoutes(PathsOf(routes)) == RegistryRoutes(routes) {
      forall r | r in routes
        ensures SharesText(routes, r)
      {
        assert RouteText(Text.Upper(r.method_), r.path) in RegistryRoutes(routes);
      }
    }
  }

  // ---------------------------------------------------------------- methods without spaces

  predicate NoSpace(s: string)
  {
    forall i | 0 <= i < |s| :: s[i] != ' '
  }

  /** Without spaces in the verbs, a route text splits in one way. */
  lemma RouteTextInjective(v: string, p: string, v': string, p': string)
    requires NoSpace(v) && NoSpace(v') && RouteText(v, p) == RouteText(v', p')
    ensures v == v' && p == p'
  {
    var t := RouteText(v, p);
    assert t[|v|] == ' ' && RouteText(v', p')[|v'|] == ' ';
    assert forall i | 0 <= i < |v| :: t[i] == v[i];
    assert forall i | 0 <= i < |v'| :: RouteText(v', p')[i] == v'[i];
    assert |v| == |v'|;
    assert v == t[..|v|] && v' == t[..|v|] && p == t[|v| + 1..] && p' == t[|v| + 1..];
  }

  lemma UpperNoSpace(s: string)
    requires NoSpace(s)
    ensures NoSpace(Text.Upper(s))
  {}

  /** Document and registry agree: for every registry whose methods contain no
      space, the check on the built document passes exactly when each method
      upper-cases to one of the seven verbs. */
  lemma SelfCheckOfBuild(routes: seq<Route>)
    requires forall r | r in routes :: NoSpace(r.method_)
    ensures DocRoutes(PathsOf(routes)) == RegistryRoutes(routes) <==> forall r | r in routes :: KnownRoute(r)
  {
    hide PathsOf, DocRoutes, RegistryRoutes, Known, RouteText;
    SelfCheckIff(routes);
    forall r, r' | r in routes && r' in routes
                   && RouteText(Text.Upper(r'.method_), r'.path) == RouteText(Text.Upper(r.method_), r.path)
      ensures Text.Upper(r.method_) == Text.Upper(r'.method_)
    {
      UpperNoSpace(r.method_);
      UpperNoSpace(r'.method_);
      RouteTextInjective(Text.Upper(r.method_), r.path, Text.Upper(r'.method_), r'.path);
    }
    if forall r | r in routes :: KnownRoute(r) {
      forall r | r in routes
        ensures SharesText(routes, r)
      {
        assert KnownRoute(r);
      }
    }
  }

  /** When the check passes, the document's (verb, path) pairs are exactly the
      registry's. */
  lemma PassingCheckMeansSameRoutes(routes: seq<Route>, path: string, verb: string)
    requires forall r | r in routes :: NoSpace(r.method_)
    requires DocRoutes(PathsOf(routes)) == RegistryRoutes(routes)
    ensures path in PathsOf(routes) && OpAt(PathsOf(routes)[path], verb).Some? <==>
            exists r | r in routes :: Text.Upper(r.method_) == verb && r.path == path
  {
    hide PathsOf, OpAt, DocRoutes, RegistryRoutes, Known;
    SelfCheckOfBuild(routes);
    DocumentHas(routes, path, verb);
  }

  /** A route whose text is that of a known route passes unnoticed. */
  lemma HiddenBehind(a: Route, b: Route)
    requires KnownRoute(a) && RouteText(Text.Upper(a.method_), a.path) == RouteText(Text.Upper(b.method_), b.path)
    ensures DocRoutes(PathsOf([a, b])) == RegistryRoutes([a, b])
  {
    hide PathsOf, DocRoutes, RegistryRoutes, KnownRoute, RouteText, Text.Upper;
    var routes := [a, b];
    assert a in routes;
    assert SharesText(routes, a) && SharesText(routes, b);
    assert forall r | r in routes :: r == a || r == b;
    SelfCheckIff(routes);
  }

  /** A method with a space can hide behind another route's text: the check
      passes although the document lacks the route. */
  lemma SpaceFoolsCheck(a: Route, b: Route)
    requires a == Route("a", "GET", "/X /y") && b == Route("b", "GET /X", "/y")
    ensures DocRoutes(PathsOf([a, b])) == RegistryRoutes([a, b]) && !KnownRoute(b)
  {
    hide PathsOf, DocRoutes, RegistryRoutes, KnownRoute, RouteText, Text.Upper;
    UpperCases();
    HiddenBehind(a, b);
  }

  lemma UpperCases()
    ensures Text.Upper("GET") == "GET" && Text.Upper("GET /X") == "GET /X"
    ensures KnownRoute(Route("a", "GET", "/X /y")) && !KnownRoute(Route("b", "GET /X", "/y"))
    ensures RouteText("GET", "/X /y") == RouteText("GET /X", "/y")
  {
    assert Text.Upper("GET") == "GET";
    assert Text.Upper("GET /X") == "GET /X";
  }
}
