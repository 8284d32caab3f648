/**
 * Path-prefix classification of LoFS (src/LoFS.h:22-26, 149-162).
 *
 * A path is routed by its leading marker: "/lfs" selects LittleFS on the
 * internal flash, "/sd" selects the SD card. The marker must be the whole
 * path or be followed by a separator, so "/sdcard/x" is not an SD path.
 * Paths with no recognised marker are INVALID: this model applies the strict
 * two-prefix policy to every operation (see README).
 */
module Routing {

  /** The filesystem a path is routed to (the private enum FSType). */
  datatype FSType = LFS | SD | INVALID

  /** A classified path: its filesystem and the backend-relative path. */
  datatype Route = Route(fs: FSType, stripped: string)

  const LfsMarker: string := "/lfs"
  const SdMarker: string := "/sd"

  /** The backend-relative path a bare marker stands for. */
  const Root: string := "/"

  function Marker(fs: FSType): string
    requires fs != INVALID
  {
    if fs == LFS then LfsMarker else SdMarker
  }

  /** A C string: no character of it is the terminator. */
  predicate IsCString(s: string)
  {
    forall i :: 0 <= i < |s| ==> s[i] != '\0'
  }

  /** Case-sensitive prefix test, compared character by character. */
  function StartsWith(s: string, prefix: string): (r: bool)
    ensures r <==> |prefix| <= |s| && s[..|prefix|] == prefix
  {
    if prefix == [] then true
    else if s == [] then false
    else s[0] == prefix[0] && StartsWith(s[1..], prefix[1..])
  }

  /** `path` is `marker` itself, or `marker` followed by a path separator. */
  predicate HasMarker(path: string, marker: string)
  {
    path == marker || (|path| > |marker| && StartsWith(path, marker) && path[|marker|] == '/')
  }

  /** The path with `marker` removed; a bare marker becomes the root. */
  function Strip(path: string, marker: string): string
    requires HasMarker(path, marker)
  {
    if path == marker then Root else path[|marker|..]
  }

  /**
   * Classification of `path` into a filesystem and the path the backend
   * sees. A path is LFS exactly when it carries the LittleFS marker, SD
   * exactly when it carries the SD marker; the backend path starts with a
   * separator, is never longer than the input, and the input is the marker
   * followed by it (or the bare marker, standing for the root).
   */
  function ParseRoute(path: string): (r: Route)
    ensures r.fs == LFS <==> HasMarker(path, LfsMarker)
    ensures r.fs == SD <==> HasMarker(path, SdMarker)
    ensures r.fs == INVALID <==> r.stripped == ""
    ensures r.fs != INVALID ==> r.stripped[0] == '/' && |r.stripped| <= |path|
    ensures IsCString(path) ==> IsCString(r.stripped)
    ensures r.fs != INVALID ==>
              path == Marker(r.fs) + r.stripped || (path == Marker(r.fs) && r.stripped == Root)
  {
    if HasMarker(path, LfsMarker) then
      assert path[..|LfsMarker|] + path[|LfsMarker|..] == path;
      Route(LFS, Strip(path, LfsMarker))
    else if HasMarker(path, SdMarker) then
      assert path[..|SdMarker|] + path[|SdMarker|..] == path;
      Route(SD, Strip(path, SdMarker))
    else
      Route(INVALID, "")
  }

  /** The full path that addresses `rel` on filesystem `fs`. */
  function Join(fs: FSType, rel: string): string
    requires fs != INVALID
  {
    Marker(fs) + rel
  }

  /** Prefixing a backend path with a marker and parsing it gives the backend path back. */
  lemma ParseJoin(fs: FSType, rel: string)
    requires fs != INVALID && |rel| > 0 && rel[0] == '/'
    ensures ParseRoute(Join(fs, rel)) == Route(fs, rel)
  {
    var p := Join(fs, rel);
    var m := Marker(fs);
    assert p[..|m|] == m;
    assert p[|m|] == rel[0];
    assert p[|m|..] == rel;
    if fs == SD {
      assert p[1] == 's';
      assert !HasMarker(p, LfsMarker) by {
        if |p| > |LfsMarker| {
          assert p[..|LfsMarker|][1] == p[1];
        }
      }
    }
  }

  /** Every accepted path is the join of its classification, up to the bare-marker spelling of the root. */
  lemma JoinParse(path: string)
    requires ParseRoute(path).fs != INVALID
    ensures var r := ParseRoute(path);
            Join(r.fs, r.stripped) == path || Join(r.fs, r.stripped) == path + "/"
  {
  }

  /** The self-test's directory paths reach the same backend path on each filesystem. */
  lemma SelfTestRoutes()
    ensures ParseRoute("/lfs/test_dir") == Route(LFS, "/test_dir")
    ensures ParseRoute("/sd/test_dir") == Route(SD, "/test_dir")
  {
    assert Join(LFS, "/test_dir") == "/lfs/test_dir";
    assert Join(SD, "/test_dir") == "/sd/test_dir";
    ParseJoin(LFS, "/test_dir");
    ParseJoin(SD, "/test_dir");
  }

  /** The bare markers, as the space queries of the self-test pass them, address each root. */
  lemma BareMarkers()
    ensures ParseRoute("/lfs") == Route(LFS, Root)
    ensures ParseRoute("/sd") == Route(SD, Root)
  {
  }

  /** A path with no prefix at all is refused: the strict policy. */
  lemma NoPrefixRejected()
    ensures ParseRoute("no_prefix.txt").fs == INVALID
  {
  }

  /** A prefix other than the two markers is refused. */
  lemma UnknownPrefixRejected()
    ensures ParseRoute("/invalid/prefix.txt").fs == INVALID
  {
  }

  /** A marker glued to more characters is not that marker. */
  lemma MarkerNeedsSeparator()
    ensures ParseRoute("/sdcard/log.txt").fs == INVALID
  {
  }
}
