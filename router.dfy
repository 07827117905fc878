/**
 * App/Lib/Core.php: the front controller. The constructor creates the upload
 * folders, installs the error handler, checks the host, turns the request
 * path into segments and picks the controller, the method and the
 * parameters. file_exists on controller files and method_exists are the
 * sets of App; the reflective call itself is the Invoked outcome, or the
 * CallFailed one when it is made on a class name rather than an instance.
 */
module Router {
  import opened Php

  /** DIRECTORY_SEPARATOR on the server the template targets. */
  const DirectorySeparator := "/"

  /** Core::$folders: created under RUTA_APP before anything is dispatched. */
  const Folders: seq<string> := ["Uploads", "Uploads/img", "Uploads/pdf"]

  /** What Core reads from the request: $_GET, REQUEST_URI and HTTP_HOST. */
  datatype Request = Request(query: map<string, string>, requestUri: string, host: string)

  /** What Core reads from $_ENV. */
  datatype Env = Env(appUrl: string, appController: string, appIndex: string)

  /** The controller files under App/Controllers and the methods each controller class has. */
  datatype App = App(controllerFiles: set<string>, methods: set<(string, string)>)

  datatype Route = Route(controller: string, action: string, parameters: seq<string>)

  // ---------------------------------------------------------------------------
  // getUrl()

  /** The `?url=` branch: rtrim '/', sanitise, explode on '/'. */
  function UrlOverride(url: string): (r: seq<string>)
    ensures |r| >= 1
    ensures Implode("/", r) == SanitizeUrl(RTrim(url, '/'))
    ensures forall i :: 0 <= i < |r| ==> '/' !in r[i]
  {
    var clean := SanitizeUrl(RTrim(url, '/'));
    ImplodeExplode(clean, "/");
    ExplodePiecesAvoid(clean, "/");
    Explode(clean, "/")
  }

  /** The request path, URL-decoded, stripped of trailing '/' and sanitised. */
  function CleanPath(requestUri: string): string {
    SanitizeUrl(RTrim(UrlDecode(UrlPath(requestUri)), '/'))
  }

  /**
   * getUrl(): with `?url=` the override's segments, nothing dropped and no
   * default; otherwise the segments of the request path after the first
   * (the empty one before the leading '/'), or [APP_CONTROLLER] if none.
   */
  function GetUrl(req: Request, appController: string): (r: seq<string>)
    ensures |r| >= 1
    ensures "url" in req.query ==> r == UrlOverride(req.query["url"])
    ensures "url" !in req.query && !Contains(CleanPath(req.requestUri), "/") ==> r == [appController]
    ensures "url" !in req.query && Contains(CleanPath(req.requestUri), "/") ==>
      && CleanPath(req.requestUri) == Explode(CleanPath(req.requestUri), "/")[0] + "/" + Implode("/", r)
      && forall i :: 0 <= i < |r| ==> '/' !in r[i]
  {
    if "url" in req.query then UrlOverride(req.query["url"])
    else
      var path := CleanPath(req.requestUri);
      var pieces := Explode(path, "/");
      ExplodeSplitsIff(path, "/");
      if |pieces| > 1 then
        ImplodeExplode(path, "/");
        ImplodeCons("/", pieces[0], pieces[1..]);
        assert pieces == [pieces[0]] + pieces[1..];
        ExplodePiecesAvoid(path, "/");
        pieces[1..]
      else [appController]
  }

  /** `?url=` (empty) yields one empty segment: no default is substituted. */
  lemma EmptyOverride(req: Request, appController: string)
    requires "url" in req.query && req.query["url"] == ""
    ensures GetUrl(req, appController) == [""]
  {
    assert SanitizeUrl(RTrim("", '/')) == "";
  }

  /** The site root, with or without a trailing '/', dispatches to APP_CONTROLLER. */
  lemma RootPathDefaults(req: Request, appController: string)
    requires "url" !in req.query && (req.requestUri == "/" || req.requestUri == "")
    ensures GetUrl(req, appController) == [appController]
  {
    assert UrlPath(req.requestUri) == req.requestUri;
    assert UrlDecode(req.requestUri) == req.requestUri;
    assert CleanPath(req.requestUri) == "";
  }

  // ---------------------------------------------------------------------------
  // hostUri() and errorTry()

  datatype HostCheck = HostOk | HostError(message: string)

  /**
   * hostUri(): the piece after the first "://" of APP_URL must equal
   * HTTP_HOST, else "Your APP URL is wrong" is thrown. An APP_URL without
   * "://" makes `$set[1]` an undefined key, a warning that the handler
   * installed just before turns into an ErrorException.
   */
  function HostUri(appUrl: string, host: string): (r: HostCheck)
    ensures r.HostOk? <==> |Explode(appUrl, "://")| > 1 && Explode(appUrl, "://")[1] == host
    ensures !Contains(appUrl, "://") ==> r == HostError("Undefined array key 1")
    ensures Contains(appUrl, "://") && r.HostError? ==> r.message == "Your APP URL is wrong"
  {
    var parts := Explode(appUrl, "://");
    ExplodeSplitsIff(appUrl, "://");
    if |parts| < 2 then HostError("Undefined array key 1")
    else if parts[1] != host then HostError("Your APP URL is wrong")
    else HostOk
  }

  /** "<scheme>://<host>" passes for that host. */
  lemma HostUriAcceptsItsHost(scheme: string, host: string)
    requires forall i :: 0 <= i < |scheme| ==> scheme[i] != ':'
    requires !Contains(host, "://")
    ensures HostUri(scheme + "://" + host, host) == HostOk
  {
    ExplodeAfterPiece(scheme, "://", host);
    ExplodeWithoutSeparator(host, "://");
    ExplodeSplitsIff(scheme + "://" + host, "://");
  }

  datatype ErrorException = ErrorException(message: string, code: int, severity: int, file: string, line: int)

  datatype HandlerResult = ReturnFalse | Throw(exception: ErrorException)

  /**
   * The handler errorTry() installs: it returns false when error_reporting()
   * is 0, and otherwise throws ErrorException(errstr, 0, errno, errfile, errline).
   */
  function ErrorHandler(errorReporting: int, errno: int, errstr: string, errfile: string, errline: int): (r: HandlerResult)
    ensures r.ReturnFalse? <==> errorReporting == 0
    ensures r.Throw? ==>
      && r.exception.message == errstr && r.exception.code == 0
      && r.exception.severity == errno && r.exception.file == errfile && r.exception.line == errline
  {
    if errorReporting == 0 then ReturnFalse else Throw(ErrorException(errstr, 0, errno, errfile, errline))
  }

  // ---------------------------------------------------------------------------
  // SetSystemFolders()

  /** The paths that exist on the server; RUTA_APP is `root`. */
  class Disk {
    const root: string
    var paths: set<string>

    constructor (root: string, paths: set<string>)
      ensures this.root == root && this.paths == paths
    {
      this.root := root;
      this.paths := paths;
    }
  }

  function FolderPath(root: string, folder: string): string {
    root + DirectorySeparator + folder
  }

  /** The paths that exist after SetSystemFolders: the old ones and the three upload folders. */
  function WithSystemFolders(paths: set<string>, root: string): (r: set<string>)
    ensures paths <= r
    ensures forall f :: f in Folders ==> FolderPath(root, f) in r
    ensures forall p :: p in r && p !in paths ==> exists f :: f in Folders && p == FolderPath(root, f)
  {
    paths + set f | f in Folders :: FolderPath(root, f)
  }

  /** Creating the folders twice is creating them once. */
  lemma SystemFoldersIdempotent(paths: set<string>, root: string)
    ensures WithSystemFolders(WithSystemFolders(paths, root), root) == WithSystemFolders(paths, root)
  {
  }

  // ---------------------------------------------------------------------------
  // The constructor's dispatch

  /**
   * The route the constructor settles on, stated on sequences: the
   * controller is ucwords(segment 0) iff its file exists, and then segment
   * 0 is consumed; the method is segment 1 iff it exists and the active
   * controller has it, and then segment 1 is consumed; everything left over
   * is the parameter list, in order.
   */
  function Resolve(url: seq<string>, app: App, defaultController: string, defaultMethod: string): (r: Route)
    requires |url| >= 1
    ensures r.controller == if UcWords(url[0]) in app.controllerFiles then UcWords(url[0]) else defaultController
    ensures r.action == if |url| > 1 && (r.controller, url[1]) in app.methods then url[1] else defaultMethod
    ensures |r.parameters| == |url|
      - (if UcWords(url[0]) in app.controllerFiles then 1 else 0)
      - (if |url| > 1 && (r.controller, url[1]) in app.methods then 1 else 0)
    ensures IsSubsequence(r.parameters, url)
  {
    var controllerFound := UcWords(url[0]) in app.controllerFiles;
    var controller := if controllerFound then UcWords(url[0]) else defaultController;
    var methodFound := |url| > 1 && (controller, url[1]) in app.methods;
    var rest := if |url| > 2 then url[2..] else [];
    var parameters :=
      (if controllerFound then [] else [url[0]])
      + ((if |url| > 1 && !methodFound then [url[1]] else []) + rest);
    ResolvedIsSubsequence(url, !controllerFound, |url| > 1 && !methodFound);
    Route(controller, if methodFound then url[1] else defaultMethod, parameters)
  }

  lemma SubsequenceRefl(s: seq<string>)
    ensures IsSubsequence(s, s)
    decreases |s|
  {
    if |s| > 0 {
      SubsequenceRefl(s[1..]);
    }
  }

  lemma ResolvedIsSubsequence(url: seq<string>, keep0: bool, keep1: bool)
    requires |url| >= 1 && (keep1 ==> |url| > 1)
    ensures IsSubsequence(
      (if keep0 then [url[0]] else []) + ((if keep1 then [url[1]] else []) + (if |url| > 2 then url[2..] else [])),
      url)
  {
    var rest := if |url| > 2 then url[2..] else [];
    SubsequenceRefl(rest);
    var tail1 := url[1..];
    assert IsSubsequence(rest, tail1) by {
      if |url| > 1 {
        assert tail1[1..] == rest;
      } else {
        assert rest == [];
      }
    }
    var mid := (if keep1 then [url[1]] else []) + rest;
    assert IsSubsequence(mid, tail1) by {
      if keep1 { assert mid[0] == tail1[0] && mid[1..] == rest && tail1[1..] == rest; }
      else { assert mid == rest; }
    }
    var all := (if keep0 then [url[0]] else []) + mid;
    if keep0 {
      assert all[0] == url[0] && all[1..] == mid && url[1..] == tail1;
    } else {
      assert all == mid;
    }
  }

  /** Unsetting keys 0 and/or 1 and re-indexing leaves the other segments in order. */
  lemma ValuesAfterUnset(url: seq<string>, gone: set<nat>)
    requires |url| >= 1
    requires forall k :: k in gone ==> k < 2
    ensures ValuesInKeyOrder(Indexed(url) - gone, 0, |url|)
         == (if 0 in gone then [] else [url[0]])
          + ((if |url| > 1 && 1 !in gone then [url[1]] else [])
          + (if |url| > 2 then url[2..] else []))
  {
    var m := Indexed(url) - gone;
    ValuesFromOne(url, gone);
    assert 0 in m <==> 0 !in gone;
    if 0 in m {
      assert m[0] == url[0];
    }
  }

  lemma ValuesFromOne(url: seq<string>, gone: set<nat>)
    requires |url| >= 1
    requires forall k :: k in gone ==> k < 2
    ensures ValuesInKeyOrder(Indexed(url) - gone, 1, |url|)
         == (if |url| > 1 && 1 !in gone then [url[1]] else []) + (if |url| > 2 then url[2..] else [])
  {
    var m := Indexed(url) - gone;
    if |url| > 1 {
      ValuesOfSuffix(url, gone, 2);
      assert 1 in m <==> 1 !in gone;
      if 1 in m {
        assert m[1] == url[1];
      }
    }
  }

  /**
   * Which segments become parameters: the consumed controller and method
   * segments are dropped, everything else is passed on in order.
   */
  lemma ResolveParameters(url: seq<string>, app: App, defaultController: string, defaultMethod: string)
    requires |url| >= 1
    ensures var r := Resolve(url, app, defaultController, defaultMethod);
      var controllerFound := UcWords(url[0]) in app.controllerFiles;
      var methodFound := |url| > 1 && (r.controller, url[1]) in app.methods;
      && (controllerFound && methodFound ==> r.parameters == url[2..])
      && (controllerFound && !methodFound ==> r.parameters == url[1..])
      && (!controllerFound && methodFound ==> r.parameters == [url[0]] + url[2..])
      && (!controllerFound && !methodFound ==> r.parameters == url)
  {
    assert url == [url[0]] + url[1..];
    if |url| > 1 {
      assert url[1..] == [url[1]] + url[2..];
    }
  }

  /** /Login/index/a/b reaches Login::index with parameters a and b. */
  lemma LoginExample(app: App, defaultController: string, defaultMethod: string)
    requires "Login" in app.controllerFiles && ("Login", "index") in app.methods
    ensures Resolve(["Login", "index", "a", "b"], app, defaultController, defaultMethod)
         == Route("Login", "index", ["a", "b"])
  {
    assert UcWords("Login") == "Login";
  }

  /** An unknown controller keeps APP_CONTROLLER and leaves segment 0 as the first parameter. */
  lemma UnknownControllerFallsBack(url: seq<string>, app: App, defaultController: string, defaultMethod: string)
    requires |url| >= 1 && UcWords(url[0]) !in app.controllerFiles
    ensures Resolve(url, app, defaultController, defaultMethod).controller == defaultController
    ensures Resolve(url, app, defaultController, defaultMethod).parameters[0] == url[0]
  {
  }

  datatype Outcome =
    | Pending
    | Invoked(route: Route)      // call_user_func_array on an instance of the route's controller
    | Thrown(message: string)    // an exception left the constructor; nothing was dispatched
    | CallFailed(route: Route)   // call_user_func_array on the controller's class name: a TypeError

  /**
   * What `new Core` ends in, as written. A failed host check throws its
   * message. Otherwise the call is made on Resolve's route, but only the
   * branch that finds the controller file replaces the class name in
   * $currentController by an instance. In the fallback the callback is
   * [APP_CONTROLLER, method], a class name with a non-static method; PHP 8
   * refuses it with a TypeError (the class is not autoloaded, or the method
   * cannot be called statically), and the catch re-throws it.
   */
  function CoreOutcome(env: Env, req: Request, app: App): (r: Outcome)
    ensures r != Pending
    ensures r.Thrown? <==> HostUri(env.appUrl, req.host).HostError?
    ensures r.Invoked? <==>
      HostUri(env.appUrl, req.host).HostOk? && UcWords(GetUrl(req, env.appController)[0]) in app.controllerFiles
    ensures !r.Thrown? ==> r.route == Resolve(GetUrl(req, env.appController), app, env.appController, env.appIndex)
  {
    var host := HostUri(env.appUrl, req.host);
    if host.HostError? then Thrown(host.message)
    else
      var url := GetUrl(req, env.appController);
      var route := Resolve(url, app, env.appController, env.appIndex);
      if UcWords(url[0]) in app.controllerFiles then Invoked(route) else CallFailed(route)
  }

  /**
   * What the constructor evidently means to do: the fallback controller is
   * instantiated as well, so every request that passes the host check reaches
   * a method of a controller object, with Resolve's route.
   */
  function IntendedCoreOutcome(env: Env, req: Request, app: App): (r: Outcome)
    ensures r.Thrown? <==> HostUri(env.appUrl, req.host).HostError?
    ensures r.Invoked? <==> HostUri(env.appUrl, req.host).HostOk?
    ensures r.Invoked? ==> r.route == Resolve(GetUrl(req, env.appController), app, env.appController, env.appIndex)
  {
    var host := HostUri(env.appUrl, req.host);
    if host.HostError? then Thrown(host.message)
    else Invoked(Resolve(GetUrl(req, env.appController), app, env.appController, env.appIndex))
  }

  /**
   * The constructor as written does what it means to exactly when the host
   * check fails or the first segment names a controller file; on every other
   * request the intended call becomes a failed one on the same route.
   */
  lemma FallbackCallFails(env: Env, req: Request, app: App)
    ensures CoreOutcome(env, req, app) == IntendedCoreOutcome(env, req, app) <==>
      HostUri(env.appUrl, req.host).HostError? || UcWords(GetUrl(req, env.appController)[0]) in app.controllerFiles
    ensures CoreOutcome(env, req, app).CallFailed? ==>
      IntendedCoreOutcome(env, req, app) == Invoked(CoreOutcome(env, req, app).route)
  {
  }

  lemma ExampleHostAccepted()
    ensures HostUri("http" + "://" + "app", "app") == HostOk
  {
    assert !Contains("app", "://") by {
      assert ':' !in "app";
      if Contains("app", "://") {
        ContainsHead("app", "://");
      }
    }
    HostUriAcceptsItsHost("http", "app");
  }

  lemma ExampleSegments()
    ensures GetUrl(Request(map["url" := "nope"], "/?url=nope", "app"), "Login") == ["nope"]
  {
    assert RTrim("nope", '/') == "nope";
    assert SanitizeUrl("nope") == "nope";
    assert !Contains("nope", "/") by { ContainsChar("nope", '/'); }
    ExplodeWithoutSeparator("nope", "/");
  }

  /**
   * A request for /?url=nope to host app, on a site whose only controller is Login: Resolve
   * picks Login::index("nope"), which is the call intended, but the call as
   * written is made on the class name "Login" and fails.
   */
  lemma UnknownControllerExample()
    ensures var env := Env("http" + "://" + "app", "Login", "index");
      var req := Request(map["url" := "nope"], "/?url=nope", "app");
      var app := App({"Login"}, {("Login", "index")});
      && CoreOutcome(env, req, app) == CallFailed(Route("Login", "index", ["nope"]))
      && IntendedCoreOutcome(env, req, app) == Invoked(Route("Login", "index", ["nope"]))
  {
    var app := App({"Login"}, {("Login", "index")});
    ExampleHostAccepted();
    ExampleSegments();
    assert UcWords("nope")[0] == 'N';
    assert UcWords("nope") !in app.controllerFiles;
    assert Resolve(["nope"], app, "Login", "index") == Route("Login", "index", ["nope"]);
  }

  class Core {
    var currentController: string
    var currentMethod: string
    var parameters: seq<string>
    var handlerInstalled: bool
    var instantiated: bool  // whether $currentController holds an object rather than a class name
    var outcome: Outcome

    /**
     * new Core: the upload folders first, then the error handler, then the
     * host check, and only when that passes the URL is parsed and routed.
     */
    constructor (env: Env, req: Request, app: App, disk: Disk)
      modifies disk
      ensures disk.paths == WithSystemFolders(old(disk.paths), disk.root)
      ensures handlerInstalled
      ensures HostUri(env.appUrl, req.host).HostError? ==>
        && outcome == Thrown(HostUri(env.appUrl, req.host).message)
        && currentController == env.appController && currentMethod == env.appIndex && parameters == []
      ensures HostUri(env.appUrl, req.host).HostOk? ==>
        && Route(currentController, currentMethod, parameters)
           == Resolve(GetUrl(req, env.appController), app, env.appController, env.appIndex)
        && instantiated == (UcWords(GetUrl(req, env.appController)[0]) in app.controllerFiles)
      ensures outcome == CoreOutcome(env, req, app)
    {
      currentController := env.appController;
      currentMethod := env.appIndex;
      parameters := [];
      handlerInstalled := false;
      instantiated := false;
      outcome := Pending;
      new;
      SetSystemFolders(disk);
      handlerInstalled := true;
      var host := HostUri(env.appUrl, req.host);
      if host.HostError? {
        outcome := Thrown(host.message);
      } else {
        var url := GetUrl(req, env.appController);
        Dispatch(url, app);
        var route := Route(currentController, currentMethod, parameters);
        outcome := if instantiated then Invoked(route) else CallFailed(route);
      }
    }

    /** SetSystemFolders(): mkdir every folder that does not exist yet. */
    method SetSystemFolders(disk: Disk)
      modifies disk
      ensures disk.paths == WithSystemFolders(old(disk.paths), disk.root)
    {
      for i := 0 to |Folders|
        invariant disk.paths == old(disk.paths) + set j | 0 <= j < i :: FolderPath(disk.root, Folders[j])
      {
        var path := FolderPath(disk.root, Folders[i]);
        if path !in disk.paths {
          disk.paths := disk.paths + {path};
        }
      }
      assert forall f :: f in Folders <==> exists j :: 0 <= j < |Folders| && Folders[j] == f;
    }

    /**
     * The body of the constructor after getUrl: the PHP array $url, with
     * unset() on the consumed keys and array_values() for the parameters.
     */
    method Dispatch(url: seq<string>, app: App)
      requires |url| >= 1
      modifies this
      ensures Route(currentController, currentMethod, parameters)
           == Resolve(url, app, old(currentController), old(currentMethod))
      ensures instantiated == (old(instantiated) || UcWords(url[0]) in app.controllerFiles)
      ensures handlerInstalled == old(handlerInstalled) && outcome == old(outcome)
    {
      var arr := Indexed(url);
      ghost var gone: set<nat> := {};
      if UcWords(arr[0]) in app.controllerFiles {
        currentController := UcWords(arr[0]);
        arr := arr - {0};
        instantiated := true;
        gone := gone + {0};
      }
      if 1 in arr {
        if (currentController, arr[1]) in app.methods {
          currentMethod := arr[1];
          arr := arr - {1};
          gone := gone + {1};
        }
      }
      assert arr == Indexed(url) - gone;
      assert 0 in gone <==> UcWords(url[0]) in app.controllerFiles;
      assert 1 in gone <==> |url| > 1 && (currentController, url[1]) in app.methods;
      ValuesAfterUnset(url, gone);
      parameters := ValuesInKeyOrder(arr, 0, |url|);
    }
  }
}
