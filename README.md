# PHP MVC template: front controller, session gate and asset serving

This project models the core of a small PHP front-controller MVC template in
Dafny and proves properties of the model. One request passes through these parts:

- `Public/index.php` registers a class autoloader. It then either shows
  `phpinfo()` or constructs one `Core`.
- The `Core` constructor (`App/Lib/Core.php`) creates the upload folders and
  installs an error handler. It checks the host against `APP_URL`, turns the
  request path (or the `?url=` override) into segments, and picks the
  controller, the method and the parameters.
- `App/Lib/Session.php` is the session gate. It logs in, checks
  "already logged in", validates a request, destroys the session, and sets the
  referral cookie.
- `App/Controllers/Assets.php` serves public, private and uploaded files. It
  applies an allow-list of types and a type-to-Content-Type table.
- `App/Lib/Controller.php` has the `page404` guard.
- `App/Controllers/Health.php` produces the health report.
- `App/Lib/Helpers.php` provides `redirect`, `config`, `RandomString`,
  `getIP` and `rmdir_`.

Effects are returned as values, never performed:

- `header`, `http_response_code`, `setcookie`, `readfile` and `die` become
  `Helpers.Effect` values.
- An exception the code throws becomes an outcome constructor.

Probes of the platform are inputs:

- `file_exists` is a set of existing paths.
- `method_exists` is a set of (controller, method) pairs.
- `FILTER_VALIDATE_IP` is a predicate.
- `random_int` is a sequence of draws.
- `is_writable` and the database counts are their results.
- The session backend is the data `session_start` would load.

Modules and files:

- `php.dfy` (`Php`): the PHP builtins the core relies on. These are
  explode/implode, strpos, rtrim, `FILTER_SANITIZE_URL`, ucwords, urldecode,
  the path of parse_url, basename, str_replace, array_unique, array_values,
  `empty()` and loose `== ""`. Each comes with the lemmas the other modules
  use.
- `helpers.dfy` (`Helpers`): App/Lib/Helpers.php.
- `router.dfy` (`Router`): App/Lib/Core.php. `Core` and `Disk` are classes.
  The constructor mutates its fields, unsets entries of a PHP array modelled
  as `map<nat, string>`, and loops over the folders.
- `session.dfy` (`SessionGate`): App/Lib/Session.php. The class `Session`
  holds `$_SESSION`, the session status, the data the backend would load,
  the cookie parameters and the id-regeneration flag.
- `assets.dfy` (`Assets`): App/Controllers/Assets.php.
- `controller.dfy` (`BaseController`): App/Lib/Controller.php.
- `health.dfy` (`Health`): App/Controllers/Health.php.
- `bootstrap.dfy` (`FrontScript`): Public/index.php.

`DIRECTORY_SEPARATOR` is `/` throughout.

## Model

| member | source | states |
|---|---|---|
| Php.ImplodeExplode | App/Lib/Core.php:104-106 | joining explode's pieces with the separator gives back the original string |
| Php.ExplodeSplitsIff | App/Lib/Core.php:136-137 | explode yields more than one piece exactly when strpos finds the separator |
| Php.ExplodePiecesAvoid | App/Lib/Core.php:106 | no piece of a split on a one-character separator contains that character |
| Php.ExplodeAfterPiece | App/Lib/Core.php:136 | a leading piece that cannot start the separator is split off whole, and the rest is split independently |
| Php.ExplodeWithoutSeparator | App/Controllers/Assets.php:95 | a string without the separator explodes to itself alone |
| Php.RTrim | App/Lib/Core.php:104 | rtrim returns a prefix that does not end in the character, and everything it removed was that character |
| Php.SanitizeUrl | App/Lib/Core.php:105 | FILTER_SANITIZE_URL keeps only URL characters, never lengthens, and leaves an already clean string unchanged |
| Php.SanitizeUrlKeepsUrlChars | App/Lib/Core.php:105 | every occurrence of every URL character survives sanitising |
| Php.SanitizeUrlConcat | App/Lib/Core.php:105 | sanitising works piece by piece, so the kept characters stay in their input order |
| Php.UrlDecodePlain | App/Lib/Core.php:109-111 | urldecode leaves a string without '%' and '+' unchanged |
| Php.UrlPath | App/Lib/Core.php:110 | the path of the request URI is its longest prefix free of '?' and '#' |
| Php.ExplodeLastPiece | App/Controllers/Assets.php:232 | the last piece of a one-character split is a suffix of the string, starts right after a separator, and is shorter than the string when there are several pieces |
| Php.Basename | App/Controllers/Assets.php:232 | basename's result is the last component: it contains no '/', it is a suffix of the path stripped of trailing '/', and the character before it is '/' |
| Php.BasenameOfName | App/Controllers/Assets.php:232 | a name without '/' is its own basename |
| Php.ReplaceCharImplode | Public/index.php:59 | str_replace('\\', '/', join('\\', parts)) equals join('/', parts) when no part holds a backslash |
| Php.UniqueIsFirstOccurrences | Public/index.php:59 | array_unique keeps exactly the first occurrence of each element, in order (checked against an independent definition) |
| Php.UniqueProperties | Public/index.php:58-59 | array_unique's result has no repeats, has the same members as its input, and is a subsequence of it |
| Php.ValuesOfSuffix | App/Lib/Core.php:83 | array_values of an array whose low keys were unset is the suffix of the original list |
| Helpers.Redirect | App/Lib/Helpers.php:55-58 | redirect($page), written as the concatenation followed by `?? '/'`, is one Location header: "Location: " + APP_URL followed by the page, or by nothing when there is no page. It always starts with "Location: " + APP_URL, so the '/' fallback never wins |
| Helpers.RedirectWithoutPage | App/Lib/Helpers.php:55-58 | redirect() without a page sends "Location: " + APP_URL exactly: since `.` binds tighter than `??`, the '/' fallback is never used |
| Helpers.Config | App/Lib/Helpers.php:63-67 | config() adds or overwrites only APP_LANG, which becomes "es" without an Accept-Language header and otherwise the header's first two characters, or the whole header when it is shorter; every other variable keeps its value |
| Helpers.AlphabetIsAlphanumeric | App/Lib/Helpers.php:87-88 | the 62 characters of $characters are all ASCII letters or digits |
| Helpers.RandomString | App/Lib/Helpers.php:85-94 | the result has max(length, 0) characters, the i-th picked by the i-th random draw, all alphanumeric |
| Helpers.GetIp | App/Lib/Helpers.php:97-117 | CF-Connecting-IP first overwrites REMOTE_ADDR and HTTP_CLIENT_IP; then a valid client IP wins, else a valid X-Forwarded-For, else REMOTE_ADDR unchecked |
| Helpers.CloudFlareWins | App/Lib/Helpers.php:100-109 | behind CloudFlare a valid connecting IP is the answer and is also the new REMOTE_ADDR |
| Helpers.SweepEntry | App/Lib/Helpers.php:32-40 | sweeping one entry leaves at most a pruned copy of it (same name and kind, children pruned from its own), keeps a .gitkeep entry whole and every .gitkeep under it, and leaves nothing that does not lead to a .gitkeep |
| Helpers.SweepChildren | App/Lib/Helpers.php:32-40 | the loop over a directory's entries leaves, in order, pruned copies of distinct input entries; it keeps every .gitkeep and removes everything that does not lead to one |
| Helpers.DirPath | App/Lib/Helpers.php:26-28 | the normalised path ends in '/', extends the input by at most that one character, and is the input itself when that already ends in '/' |
| Helpers.DirPathIdempotent | App/Lib/Helpers.php:26-28 | normalising twice equals normalising once |
| Helpers.RmDir | App/Lib/Helpers.php:21-46 | a non-directory raises InvalidArgumentException("<path> is not a directory"). Otherwise: with $views the directory stays and true is returned; without it, the directory is removed (true) only when nothing is left, else it stays and null is returned. What stays is pruned from the original tree, and no .gitkeep is ever lost |
| Router.UrlOverride | App/Lib/Core.php:101-107 | the `?url=` segments are never empty as a list, contain no '/', and join back to the trimmed, sanitised override |
| Router.GetUrl | App/Lib/Core.php:98-124 | getUrl is never empty. With `?url` it is exactly the override's segments. Otherwise: a clean path without '/' gives [APP_CONTROLLER]; any other path is its first piece, '/', then the joined segments, none of which contains '/' |
| Router.EmptyOverride | App/Lib/Core.php:101-107 | `?url=` (empty) yields one empty segment; no default is substituted |
| Router.RootPathDefaults | App/Lib/Core.php:109-121 | a request for "/" (or an empty URI) without `?url` routes to APP_CONTROLLER |
| Router.HostUri | App/Lib/Core.php:133-140 | the host check passes iff APP_URL has a piece after "://" equal to HTTP_HOST. Without "://" the undefined key 1 raises; otherwise the error is "Your APP URL is wrong" |
| Router.HostUriAcceptsItsHost | App/Lib/Core.php:136-137 | "<scheme>://<host>" passes the check for that host |
| Router.ErrorHandler | App/Lib/Core.php:148-156 | the installed handler returns false iff error_reporting() is 0, and otherwise throws ErrorException(errstr, 0, errno, errfile, errline) |
| Router.WithSystemFolders | App/Lib/Core.php:162-169 | after folder creation, Uploads, Uploads/img and Uploads/pdf exist, every existing path is kept, and nothing else is added |
| Router.SystemFoldersIdempotent | App/Lib/Core.php:164-168 | creating the folders twice equals creating them once |
| Router.Resolve | App/Lib/Core.php:63-83 | the controller is ucwords(segment 0) if its file exists, else the default; the method is segment 1 if the chosen controller has it, else the default; the parameter count drops by one for each segment consumed; the parameters are a subsequence of the segments |
| Router.ResolveParameters | App/Lib/Core.php:63-83 | the parameters are the segments minus those consumed: url[2..], url[1..], [url[0]] + url[2..] or url, depending on which of the controller and method segments were found |
| Router.ValuesAfterUnset | App/Lib/Core.php:68-83 | unsetting keys 0 and/or 1 and re-indexing leaves the other segments in their original order |
| Router.LoginExample | App/Lib/Core.php:63-86 | /Login/index/a/b reaches Login::index with parameters [a, b] |
| Router.UnknownControllerFallsBack | App/Lib/Core.php:63-71 | an unknown controller keeps APP_CONTROLLER, and segment 0 stays the first parameter |
| Router.Core.constructor | App/Lib/Core.php:50-90 | the upload folders exist and the handler is installed. A failed host check throws its message, with the default controller and method and no parameters. Otherwise the fields are Resolve applied to getUrl, the controller is instantiated iff its file was found, and the outcome is CoreOutcome: the call on an instance, or the failed call on the class name |
| Router.CoreOutcome | App/Lib/Core.php:50-90 | as written: a failed host check throws; otherwise the call on Resolve's route succeeds in being made exactly when the first segment names a controller file, and fails (TypeError, re-thrown) when the callback holds the class name APP_CONTROLLER |
| Router.IntendedCoreOutcome | App/Lib/Core.php:50-90 | as intended: every request that passes the host check calls a controller object's method, with Resolve's route |
| Router.FallbackCallFails | App/Lib/Core.php:63-86 | the outcome as written equals the intended one iff the host check fails or the controller file exists; otherwise the intended call on the same route becomes a failed one |
| Router.UnknownControllerExample | App/Lib/Core.php:63-86 | /?url=nope on a site with only Login: the route is Login::index("nope"), and the call as written fails where the intended one is made |
| Router.Core.SetSystemFolders | App/Lib/Core.php:162-169 | the loop creates exactly the missing upload folders |
| Router.Core.Dispatch | App/Lib/Core.php:63-83 | the unset/array_values steps on the PHP array produce exactly the route Resolve specifies, and the controller is instantiated exactly when its file exists |
| SessionGate.SessionCookie | App/Lib/Session.php:156-164 | the session cookie lives SESSION_TIME seconds on path /, is secure iff HTTPS, httponly, SameSite Lax |
| SessionGate.GetUrl | App/Lib/Session.php:111-121 | Session::getUrl is null iff `?url` is absent, and otherwise a non-empty segment list |
| SessionGate.GetUrlAgreesWithCore | App/Lib/Session.php:114-119 | with `?url` present, Session::getUrl and Core::getUrl give the same segments |
| SessionGate.Validate | App/Lib/Session.php:65-89 | a "cron" second segment returns null with no check. A non-empty exception list with a second segment returns null. Otherwise: true iff soft mode and a non-empty store. Strict mode on an empty store sends 401 and stops for a POST, and otherwise redirects to APP_URL and returns null. Every remaining case (soft on an empty store, strict on a non-empty store) returns false with no effect |
| SessionGate.SoftValidationIsStoreNonEmpty | App/Lib/Session.php:82-88 | soft validation answers exactly whether the store is non-empty, for every request method |
| SessionGate.StrictValidationOnEmptyStore | App/Lib/Session.php:75-81 | strict validation on an empty store: a POST gets 401 and stops; any other method is redirected to APP_URL and gets null |
| SessionGate.StartedStore | App/Lib/Session.php:30-31 | logging in adds id and login_status = 1 and changes no other key |
| SessionGate.StartedStoreSize | App/Lib/Session.php:30-32 | logging in adds one key for each of id and login_status that was missing |
| SessionGate.RestartKeepsKeyCount | App/Lib/Session.php:30-36 | a second login on the same store, for any user, finds the key count the first left, so it gives the same answer |
| SessionGate.SetRefCookie | App/Lib/Session.php:129-150 | an expired cookie is sent iff delete is set and the cookie is present. A fresh cookie is sent iff the id is loosely non-null (0 counts as null); it lasts now+7200, Strict, httponly, and is followed by a redirect to "/". Only the delete step removes the cookie from $_COOKIE. Nothing else is sent: one effect for the delete step and two for the set step. With the delete step, the first effect is the expired cookie: value null, expires -1, path "/", and the other options left at their defaults |
| SessionGate.Session.Open | App/Lib/Session.php:60-64 | an inactive session gets the session cookie parameters and is started with the saved data; an active one is left as it is |
| SessionGate.Session.SessionStart | App/Lib/Session.php:22-37 | the cookie parameters are set and the id is regenerated only when no session was active; the store becomes the loaded store plus id and login_status; true iff it then holds exactly 7 keys |
| SessionGate.Session.IsLogged | App/Lib/Session.php:42-52 | a redirect to APP_URL/HOME is sent iff the store is non-empty; the store is not changed, the cookie parameters are set only when no session was active, the id is never regenerated, and the request does not stop |
| SessionGate.Session.SessionValidator | App/Lib/Session.php:58-90 | opens the session without changing its data (cookie parameters set only when no session was active, id never regenerated), then answers as Validate does on the loaded store |
| SessionGate.Session.SessionDestroy | App/Lib/Session.php:96-106 | the store and the saved data are emptied, the session is inactive, and a redirect is sent iff $redirect |
| SessionGate.LogoutThenValidate | App/Lib/Session.php:96-106 | after sessionDestroy, soft validation answers false with no effect |
| Assets.DuplicateXmlIsRedundant | App/Controllers/Assets.php:40-70 | the second "xml" entry admits no type the list without it does not |
| Assets.FileValidate | App/Controllers/Assets.php:148-159 | the search returns true iff the type is strictly equal to an entry of $file_types |
| Assets.InlineLine | App/Controllers/Assets.php:170-201 | the header line of every inline type is a Content-Type line, in one of the two spellings the switch uses |
| Assets.InlineLineLiterals | App/Controllers/Assets.php:170-201 | for each of the ten cases of the switch, the line is exactly the one that case writes: "Content-Type" for img, js and json, "Content-type" for the other seven, each followed by its media type |
| Assets.DownloadType | App/Controllers/Assets.php:204-229 | the media type is force-download iff the type has no entry of its own, and otherwise that entry |
| Assets.DispositionIsNotContentType | App/Controllers/Assets.php:231-232 | the Content-Disposition line is not a Content-Type line |
| Assets.RenderFile | App/Controllers/Assets.php:168-240 | renderFile sends exactly one Content-Type header, first, for every type string. It reads the file last and sets no status. An inline type gets exactly its InlineLine header and the file; every other type also gets its media type and an attachment disposition named after basename(file) |
| Assets.RenderTableTypesAreAllowed | App/Controllers/Assets.php:170-229 | every type renderFile names explicitly is on the allow-list |
| Assets.Serve | App/Controllers/Assets.php:132-137 | the file is rendered iff it exists and the type is set, non-empty and allowed; otherwise 404 |
| Assets.Public | App/Controllers/Assets.php:85-105 | the query form serves Public/<file> under the exists/allowed rule, sends exactly renderFile's effects for a servable file, and never sends 202. The path form acts only when the argument contains "=>": it joins the pieces with '/' and sends 202 before serving, or sends 404. Without "=>" nothing is sent |
| Assets.PathFormNeedsArrow | App/Controllers/Assets.php:95-96 | an argument without "=>" explodes to a single piece |
| Assets.Private | App/Controllers/Assets.php:114-126 | 401 iff neither sessionValidator's answer is truthy nor the image password is given with type img. An authorised request serves App/Assets/<file> under the exists/allowed rule with exactly renderFile's effects (no 202), or raises on a missing ?file |
| Assets.UploadFiles | App/Controllers/Assets.php:130-138 | the exists/allowed rule under the upload directory, with exactly renderFile's effects for a servable file and no authentication (never 401), raising on a missing ?file |
| Assets.PrivateWithSession | App/Controllers/Assets.php:114-125 | a logged-in client is let in unless the second ?url segment contains "cron"; the image password lets anyone in for img; anyone else gets a 401. An authorised request raises without ?file, and otherwise gets exactly renderFile's effects for a servable file or a 404. The session is opened as sessionValidator opens it: store loaded, saved data kept, cookie parameters set only when no session was active, id not regenerated |
| BaseController.EmptyGuardIsEmpty | App/Lib/Controller.php:25 | `empty($dato) \|\| is_null($dato) \|\| $dato == ""` is exactly empty($dato) |
| BaseController.FalsyValuesAreMissing | App/Lib/Controller.php:25 | null, "", "0", 0, false and [] take the 404 path; "00", -1 and [null] do not |
| BaseController.Page404 | App/Lib/Controller.php:23-38 | nothing happens iff $dato is non-empty. For an empty $dato, a POST gets a bare 404 and stops; any other method gets the AdminPages.404 view with "Oops", "Este registro no existe" and "Registro inexistente", and stops |
| Health.Index | App/Controllers/Health.php:10-88 | the status is ok iff the DB, disk (below 95), uploads and cache checks all pass; the code is 200 iff ok, else 503; errors list the failures in the order DB, disk, uploads, cache. The disk check is ok below 90, warns above that, and is error when its probe throws. The PHP-version and config checks only ever warn, the config check iff APP_DEBUG === 'true' and APP_URL is set without "localhost" |
| Health.DiskWarningBand | App/Controllers/Health.php:38-44 | usage in [90, 95) warns without failing the report |
| Health.Database | App/Controllers/Health.php:93-132 | ok with the three counts and 200 iff every count succeeds; otherwise the first exception's message and 503 |
| FrontScript.FallbackSegments | Public/index.php:58-59 | the de-duplicated namespace segments have no repeats, keep every input segment and their order, and contain no backslash |
| FrontScript.FallbackPath | Public/index.php:59 | the fallback path is the root, '/', the segments joined by '/', and ".php" |
| FrontScript.Autoload | Public/index.php:51-65 | App/Lib is tried first, then App/Models, and only then the de-duplicated path under the root. At most one file is required, and only one that exists. The class "int" is never loaded through the fallback |
| FrontScript.RepeatedSegmentDropped | Public/index.php:58-61 | A\A\B falls back to <root>/A/B.php |
| FrontScript.PhpScreenIgnoresLanguage | Public/index.php:69 | the phpinfo choice does not depend on the Accept-Language header that config() folds in |
| FrontScript.Boot | Public/index.php:69-72 | phpinfo iff PHP_SCREEN is "true", and then the disk is untouched. Otherwise one new Core: the upload folders exist, the handler is installed, and the outcome is CoreOutcome for this request: the host error, the call on Resolve of getUrl, or that call failing on the fallback controller's class name |

## Left out

- App/Lib/Mail.php is not part of this model. It configures a mail library whose methods are not visible here, and does SMTP I/O.
- App/Config/Config.php is not part of this model. It covers Dotenv, the ORM boot and ini settings; its SESSION_TIME (7200) and RUTA_UPLOAD appear as a constant and a parameter.
- App/Models/*.php are not part of this model. They are ORM relationship declarations; their `count()` results are inputs to Health.
- Blade views, `Core::view`, `Core::MantMode` and `html_minify` are not part of this model. They are templating and regular-expression rewriting; page404's view call is the `RenderAndStop` value.
- App/Controllers/Login.php and tests/run_tests.php are not part of this model. The first is a single render call; the second needs a database.
- Controller's constructor has an empty body, so it has nothing to model. Instantiating a controller, `require_once` and `call_user_func_array` are reflection: the model stops at the chosen route, as `Invoked` when the callback holds an instance and `CallFailed` when it holds a class name.
- Router.Core.constructor: the `catch (\Throwable $th) { throw $th; }` re-throw is the `Thrown` outcome for the host check and the `CallFailed` outcome for a call on the class name. Which TypeError PHP raises there (class not found, or non-static method called statically) depends on whether some autoloader finds the controller, and is not modelled. Exceptions raised inside the invoked controller, including a found controller that lacks the APP_INDEX method, are not modelled. In the fallback, method_exists on the class name is read from the same method set as for an instance, although PHP answers false when the class cannot be loaded; the call fails either way.
- Router.HostUri: compares with string equality. PHP's `!=` compares two numeric strings by value, so e.g. "1e1" and "10" would pass.
- Php.UrlPath: takes the request URI in origin form (a path with an optional query or fragment) and does not model parse_url's authority rule. A REQUEST_URI starting with "//" differs: parse_url reads its first segment as a host. For "//Login/index" PHP routes ["index"] where the model routes ["", "Login", "index"]. For "///x" parse_url fails and PHP routes [APP_CONTROLLER] where the model routes ["", "", "x"]. Absolute URIs and other parse_url failures are not modelled either.
- Php.UrlDecode: decodes each `%hh` to a single character. Multibyte UTF-8 sequences are not reassembled.
- Php.SanitizeUrl and Php.UcWords: work on characters, not bytes. ucwords is ASCII-only, as PHP's is.
- SessionGate.Session.SessionStart: session_cache_expire and the deletion of the old session file by session_regenerate_id are not modelled; the regeneration is a flag.
- SessionGate.SessionCookie: the lifetime is the constant 7200. SetSessionCookie reads config()->SESSION_TIME from the environment, and that value is not modelled.
- SessionGate.Validate: the exception-list loop compares and does nothing, so it is modelled by its (absent) effect rather than as a loop.
- SessionGate.SetRefCookie: date_default_timezone_set is not modelled; the clock is the `now` parameter (a Unix time, so non-negative).
- SessionGate.SetRefCookie: on PHP 8.1 or later, passing null as setcookie's value raises a deprecation. App/Config/Config.php sets error_reporting(E_ALL) under APP_DEBUG. With error_reporting() non-zero, Core's handler turns that deprecation into an ErrorException before `unset($_COOKIE[...])` runs. The model follows the code's evident intent and sends the expired cookie.
- Router.GetUrl and SessionGate.GetUrl: query values are strings. An array-valued `?url[]=` makes rtrim throw a TypeError (Core.php:104, Session.php:116); that path is not modelled.
- FrontScript.Boot: `env` is $_ENV as config() reads it, and `coreEnv` is what Core reads from $_ENV. Both stand for the same array, but the model does not relate them.
- Helpers.RandomString: random_int is the `draws` parameter. Uniformity of the draws is outside a deterministic model.
- Helpers.GetIp: FILTER_VALIDATE_IP is the `validIp` parameter. A missing HTTP_CLIENT_IP or X-Forwarded-For is read as null, as the `@` operator intends. Under PHP 8, `@` leaves error_reporting() non-zero inside a custom handler, so Core's handler would throw there instead; that interaction is not modelled.
- Helpers.RmDir: the file tree is a value, and the result is the tree that remains rather than an in-place deletion. glob order, unlink failures and a failing rmdir's warning are not modelled; the directory is simply kept.
- Health.Index: the timestamp, version, framework, disk_usage and php_version fields, json_encode, and the floating-point percentage arithmetic are not modelled; usage is given as a number. version_compare is the `phpAtLeast8` input. A zero total disk size would raise DivisionByZeroError, which `catch (Exception)` does not catch; that case is not modelled.
- Health.Database: the query timing and timestamp are not modelled.
- Health.Index and Health.Database: the `Content-Type: application/json` header both send first is not modelled; the reports carry only the JSON body's decided fields and the status code.
- Helpers.Config: config() also writes APP_LANG back into $_ENV, a global update; the model returns the updated map instead.
- Php.Basename: only '/' is a separator, and the suffix argument and locale handling of basename are not modelled.
- Assets.Private and Assets.UploadFiles: query values are strings. An array-valued `?type[]=` (a TypeError for fileValidate) is not modelled. A missing `?file` is an undefined-key warning. Core's handler runs for every error and throws ErrorException whenever error_reporting() is non-zero, which the `Raised` outcome assumes.
- Assets.Public: readfile's output and the output-buffer flush are the `ReadFile` effect.

## Findings

| source | as written | input that shows it | evidently intended | confidence | as-written member | corrected member |
|---|---|---|---|---|---|---|
| App/Lib/Core.php:63-86 | only the branch that finds the controller file replaces $currentController by an instance. In the fallback, call_user_func_array receives [APP_CONTROLLER, method], a class name with a non-static method. PHP 8 rejects that callback with a TypeError, which the catch re-throws | `?url=nope` on a site whose only controller is Login: the route is Login::index("nope"), and the call fails | the fallback controller is instantiated as well, so Login::index("nope") is called on an object | not executed; high, since no controller method is static | Router.CoreOutcome (with Router.FallbackCallFails and Router.UnknownControllerExample) | Router.IntendedCoreOutcome |

The Core constructor and the front script keep the outcome as written (`CoreOutcome`), because they model the code. `IntendedCoreOutcome` is the reference they are compared against: the two agree exactly when the host check fails or the controller file exists.
