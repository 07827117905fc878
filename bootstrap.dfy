/**
 * Public/index.php: the front script. It registers the class autoloader and
 * then either shows phpinfo() or constructs the one Core that routes the
 * request. file_exists is the set of existing paths; require_once is the
 * Require answer.
 */
module FrontScript {
  import opened Php
  import Helpers
  import Router

  const LibDir := "../App/Lib/"
  const ModelsDir := "../App/Models/"

  /** What one autoloader call requires: at most one file. */
  datatype Load = Require(path: string) | NoLoad

  /** str_replace('\\', '/', $className). */
  function NamespacePath(className: string): string {
    ReplaceChar(className, '\\', '/')
  }

  function LibPath(className: string): string {
    LibDir + NamespacePath(className) + ".php"
  }

  function ModelsPath(className: string): string {
    ModelsDir + NamespacePath(className) + ".php"
  }

  /** array_unique(explode('\\', $className)): the namespace segments, first occurrences only. */
  function FallbackSegments(className: string): (r: seq<string>)
    ensures NoRepeats(r)
    ensures IsSubsequence(r, Explode(className, "\\"))
    ensures forall x :: x in r <==> x in Explode(className, "\\")
    ensures forall i :: 0 <= i < |r| ==> '\\' !in r[i]
  {
    var segments := Explode(className, "\\");
    UniqueProperties(segments);
    ExplodePiecesAvoid(className, "\\");
    assert forall i :: 0 <= i < |Unique(segments)| ==> Unique(segments)[i] in segments;
    Unique(segments)
  }

  /**
   * The fallback path: the segments joined with "\" and then turned into
   * "/" separators, which is the same as joining them with "/".
   */
  function FallbackPath(root: string, className: string): (r: string)
    ensures r == root + "/" + Implode("/", FallbackSegments(className)) + ".php"
  {
    ReplaceCharImplode(FallbackSegments(className), '\\', '/');
    root + Router.DirectorySeparator + ReplaceChar(Implode("\\", FallbackSegments(className)), '\\', '/') + ".php"
  }

  /**
   * The spl_autoload_register closure: App/Lib first, then App/Models, and
   * only when both are missing the de-duplicated path under the repository
   * root, which is never required for the class name "int".
   */
  function Autoload(className: string, existing: set<string>, root: string): (r: Load)
    ensures r.Require? ==> r.path in existing
    ensures LibPath(className) in existing ==> r == Require(LibPath(className))
    ensures LibPath(className) !in existing && ModelsPath(className) in existing ==> r == Require(ModelsPath(className))
    ensures LibPath(className) !in existing && ModelsPath(className) !in existing ==>
      && (r.Require? <==> FallbackPath(root, className) in existing && className != "int")
      && (r.Require? ==> r.path == FallbackPath(root, className))
    ensures className == "int" && r.Require? ==> r.path == LibPath(className) || r.path == ModelsPath(className)
  {
    if LibPath(className) in existing then Require(LibPath(className))
    else if ModelsPath(className) in existing then Require(ModelsPath(className))
    else if FallbackPath(root, className) in existing && className != "int" then Require(FallbackPath(root, className))
    else NoLoad
  }

  lemma SegmentsOfRepeatedName(a: string, b: string)
    requires '\\' !in a && '\\' !in b && a != b
    ensures FallbackSegments(a + "\\" + a + "\\" + b) == [a, b]
  {
    var sep := "\\";
    ContainsChar(b, '\\');
    ExplodeWithoutSeparator(b, sep);
    ExplodeAfterPiece(a, sep, b);
    ExplodeAfterPiece(a, sep, a + sep + b);
    assert a + sep + (a + sep + b) == a + sep + a + sep + b;
    assert Explode(a + sep + a + sep + b, sep) == [a, a, b];
    assert [a, a, b][1..] == [a, b] && [a, b][1..] == [b] && [b][1..] == [];
    assert UniqueAfter([b], {a}) == [b];
    assert UniqueAfter([a, b], {a}) == [b];
    assert {} + {a} == {a};
    assert Unique([a, a, b]) == [a] + UniqueAfter([a, b], {a});
  }

  /** A repeated namespace segment is dropped: A\A\B falls back to <root>/A/B.php. */
  lemma RepeatedSegmentDropped(root: string, a: string, b: string)
    requires '\\' !in a && '\\' !in b && a != b
    ensures FallbackPath(root, a + "\\" + a + "\\" + b) == root + "/" + a + "/" + b + ".php"
  {
    SegmentsOfRepeatedName(a, b);
    assert Implode("/", [a, b]) == a + "/" + b;
  }

  /** phpinfo() or one Core. */
  datatype Start = PhpInfo | Started(core: Router.Core)

  /** `config()->PHP_SCREEN == "true"`; an unset PHP_SCREEN reads as null, which is not "true". */
  predicate ShowsPhpInfo(env: map<string, string>, acceptLanguage: Option<string>) {
    var config := Helpers.Config(env, acceptLanguage);
    "PHP_SCREEN" in config && config["PHP_SCREEN"] == "true"
  }

  /** The Accept-Language header, which config() folds into APP_LANG, has no say in the choice. */
  lemma PhpScreenIgnoresLanguage(env: map<string, string>, a: Option<string>, b: Option<string>)
    ensures ShowsPhpInfo(env, a) <==> ShowsPhpInfo(env, b)
  {
  }

  /** The last lines of the script: phpinfo() iff PHP_SCREEN is "true", otherwise exactly one new Core. */
  method Boot(
    env: map<string, string>, acceptLanguage: Option<string>,
    coreEnv: Router.Env, req: Router.Request, app: Router.App, disk: Router.Disk)
    returns (r: Start)
    modifies disk
    ensures r.PhpInfo? <==> ShowsPhpInfo(env, acceptLanguage)
    ensures r.PhpInfo? ==> disk.paths == old(disk.paths)
    ensures r.Started? ==> fresh(r.core) && r.core.handlerInstalled && r.core.outcome != Router.Pending
    ensures r.Started? ==> disk.paths == Router.WithSystemFolders(old(disk.paths), disk.root)
    ensures r.Started? ==> r.core.outcome == Router.CoreOutcome(coreEnv, req, app)
  {
    if ShowsPhpInfo(env, acceptLanguage) {
      r := PhpInfo;
    } else {
      var core := new Router.Core(coreEnv, req, app, disk);
      r := Started(core);
    }
  }
}
