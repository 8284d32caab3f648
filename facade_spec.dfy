/**
 * What each LoFS operation does to the pair of backends, as functions of
 * the state before the call (src/LoFS.h:54-138). The class in module
 * Facade is proved to follow these definitions; the lemmas here state what
 * the header and the self-test expect of them.
 */
module FacadeSpec {
  import opened Wrappers
  import opened Routing
  import opened Modes
  import opened Storage

  /**
   * Both backends, whether the SD card can be used right now, and the size
   * in characters of the buffer the facade parses each path into.
   */
  datatype FsState = FsState(lfs: Vol, sd: Vol, sdAvailable: bool, pathBufferSize: nat)

  predicate WfState(s: FsState)
  {
    Wf(s.lfs) && Wf(s.sd)
  }

  /** A File as `open` returns it; NoFile is the falsy File. */
  datatype File = NoFile | OpenFile(fs: FSType, path: string, mode: Mode)

  /**
   * The backend call a path is forwarded to, or None when the facade fails
   * closed: an unrecognised prefix, a stripped path whose terminator would
   * not fit in the parse buffer, or an SD path while the card is unavailable.
   */
  function Resolve(s: FsState, path: string): Option<Route>
  {
    var r := ParseRoute(path);
    if (r.fs == LFS || (r.fs == SD && s.sdAvailable)) && |r.stripped| + 1 <= s.pathBufferSize
    then Some(r) else None
  }

  function VolOf(s: FsState, fs: FSType): Vol
    requires fs != INVALID
  {
    if fs == LFS then s.lfs else s.sd
  }

  function WithVol(s: FsState, fs: FSType, v: Vol): FsState
    requires fs != INVALID
  {
    if fs == LFS then s.(lfs := v) else s.(sd := v)
  }

  /** `t` differs from `s` at most in the backend that `path` names. */
  predicate OnlyRoutedBackend(s: FsState, t: FsState, path: string)
  {
    t.sdAvailable == s.sdAvailable && t.pathBufferSize == s.pathBufferSize &&
    (ParseRoute(path).fs != LFS ==> t.lfs == s.lfs) &&
    (ParseRoute(path).fs != SD ==> t.sd == s.sd)
  }

  /** The contents of the file `path` addresses, when it is a reachable file. */
  function FileAt(s: FsState, path: string): Option<seq<byte>>
  {
    match Resolve(s, path)
    case None => None
    case Some(r) =>
      var v := VolOf(s, r.fs);
      if r.stripped in v.files then Some(v.files[r.stripped]) else None
  }

  /** `path` addresses a reachable directory. */
  predicate DirAt(s: FsState, path: string)
  {
    match Resolve(s, path)
    case None => false
    case Some(r) => r.stripped in VolOf(s, r.fs).dirs
  }

  /** exists: true exactly for a reachable file or directory. */
  function ExistsSpec(s: FsState, path: string): (b: bool)
    ensures b <==> FileAt(s, path).Some? || DirAt(s, path)
    ensures b ==> Resolve(s, path).Some?
  {
    match Resolve(s, path)
    case None => false
    case Some(r) => VolExists(VolOf(s, r.fs), r.stripped)
  }

  /** open: read needs an existing entry and changes nothing; write creates or truncates a file. */
  function OpenSpec(s: FsState, path: string, mode: Mode): (r: (FsState, File))
    requires WfState(s)
    ensures WfState(r.0) && OnlyRoutedBackend(s, r.0, path)
    ensures Resolve(s, path).None? ==> r == (s, NoFile)
    ensures r.1.OpenFile? ==> r.1 == OpenFile(ParseRoute(path).fs, ParseRoute(path).stripped, mode)
    ensures r.1 == NoFile ==> r.0 == s
    ensures mode == Read ==> r.0 == s && (r.1.OpenFile? <==> ExistsSpec(s, path))
    ensures mode == Write ==> (r.1.OpenFile? <==> Resolve(s, path).Some? && !DirAt(s, path))
    ensures mode == Write && r.1.OpenFile? ==> FileAt(r.0, path) == Some([])
  {
    match Resolve(s, path)
    case None => (s, NoFile)
    case Some(t) =>
      var v := VolOf(s, t.fs);
      if mode == Read then
        (s, if VolExists(v, t.stripped) then OpenFile(t.fs, t.stripped, mode) else NoFile)
      else
        var (v', ok) := VolCreate(v, t.stripped);
        (WithVol(s, t.fs, v'), if ok then OpenFile(t.fs, t.stripped, mode) else NoFile)
  }

  /** mkdir: succeeds on a reachable path that does not exist yet, which then is a directory. */
  function MkdirSpec(s: FsState, path: string): (r: (FsState, bool))
    requires WfState(s)
    ensures WfState(r.0) && OnlyRoutedBackend(s, r.0, path)
    ensures r.1 <==> Resolve(s, path).Some? && !ExistsSpec(s, path)
    ensures r.1 ==> DirAt(r.0, path) && FileAt(r.0, path).None?
    ensures !r.1 ==> r.0 == s
  {
    match Resolve(s, path)
    case None => (s, false)
    case Some(t) =>
      var (v, ok) := VolMkdir(VolOf(s, t.fs), t.stripped);
      (WithVol(s, t.fs, v), ok)
  }

  /** remove: succeeds exactly on a reachable file, which then no longer exists. */
  function RemoveSpec(s: FsState, path: string): (r: (FsState, bool))
    requires WfState(s)
    ensures WfState(r.0) && OnlyRoutedBackend(s, r.0, path)
    ensures r.1 <==> FileAt(s, path).Some?
    ensures r.1 ==> !ExistsSpec(r.0, path)
    ensures !r.1 ==> r.0 == s
  {
    match Resolve(s, path)
    case None => (s, false)
    case Some(t) =>
      var (v, ok) := VolRemove(VolOf(s, t.fs), t.stripped);
      (WithVol(s, t.fs, v), ok)
  }

  /** rmdir: succeeds exactly on a reachable directory other than a root, which then no longer exists. */
  function RmdirSpec(s: FsState, path: string): (r: (FsState, bool))
    requires WfState(s)
    ensures WfState(r.0) && OnlyRoutedBackend(s, r.0, path)
    ensures r.1 <==> DirAt(s, path) && ParseRoute(path).stripped != Root
    ensures r.1 ==> !ExistsSpec(r.0, path)
    ensures !r.1 ==> r.0 == s
  {
    match Resolve(s, path)
    case None => (s, false)
    case Some(t) =>
      var (v, ok) := VolRmdir(VolOf(s, t.fs), t.stripped);
      (WithVol(s, t.fs, v), ok)
  }

  /**
   * Rename across backends: open the source for reading, open the
   * destination for writing, copy every byte, then delete the source.
   * Each failing step leaves both backends as they were. The source must
   * be a file: a directory source is refused before anything is opened.
   */
  function CrossMove(s: FsState, ro: Route, rn: Route): (r: (FsState, bool))
    requires WfState(s)
    requires ro.fs != INVALID && rn.fs != INVALID && ro.fs != rn.fs
    ensures WfState(r.0) && r.0.sdAvailable == s.sdAvailable && r.0.pathBufferSize == s.pathBufferSize
    ensures r.1 <==> ro.stripped in VolOf(s, ro.fs).files && rn.stripped !in VolOf(s, rn.fs).dirs
    ensures !r.1 ==> r.0 == s
    ensures r.1 ==> ro.stripped !in VolOf(r.0, ro.fs).files && ro.stripped !in VolOf(r.0, ro.fs).dirs
    ensures r.1 ==> rn.stripped in VolOf(r.0, rn.fs).files &&
                    VolOf(r.0, rn.fs).files[rn.stripped] == VolOf(s, ro.fs).files[ro.stripped]
  {
    var src := VolOf(s, ro.fs);
    var dst := VolOf(s, rn.fs);
    if ro.stripped !in src.files then (s, false)
    else if rn.stripped in dst.dirs then (s, false)
    else
      var copied := dst.(files := dst.files[rn.stripped := src.files[ro.stripped]]);
      var (src', _) := VolRemove(src, ro.stripped);
      (WithVol(WithVol(s, rn.fs, copied), ro.fs, src'), true)
  }

  /** rename: the native rename of one backend, or the copy-then-delete move between the two. */
  function RenameSpec(s: FsState, o: string, n: string): (r: (FsState, bool))
    requires WfState(s)
    ensures WfState(r.0)
    ensures Resolve(s, o).None? || Resolve(s, n).None? ==> r == (s, false)
    ensures !r.1 ==> r.0 == s
  {
    match (Resolve(s, o), Resolve(s, n))
    case (Some(ro), Some(rn)) =>
      if ro.fs == rn.fs then
        var (v, ok) := VolRename(VolOf(s, ro.fs), ro.stripped, rn.stripped);
        (WithVol(s, ro.fs, v), ok)
      else
        CrossMove(s, ro, rn)
    case _ => (s, false)
  }

  /** C `uint64_t` subtraction: wraps modulo 2^64. */
  function SubU64(a: nat, b: nat): nat
  {
    (a - b) % U64Limit
  }

  /** totalBytes: the routed backend's capacity, 0 when the path fails closed. */
  function TotalSpec(s: FsState, path: string): (n: nat)
    requires WfState(s)
    ensures n < U64Limit
    ensures Resolve(s, path).None? ==> n == 0
  {
    match Resolve(s, path)
    case None => 0
    case Some(t) => VolOf(s, t.fs).total
  }

  /** usedBytes: the routed backend's used space, 0 when the path fails closed. */
  function UsedSpec(s: FsState, path: string): (n: nat)
    requires WfState(s)
    ensures n <= TotalSpec(s, path)
    ensures Resolve(s, path).None? ==> n == 0
  {
    match Resolve(s, path)
    case None => 0
    case Some(t) => VolOf(s, t.fs).used
  }

  /**
   * freeBytes, computed by the facade as total minus used in uint64
   * arithmetic: it never wraps, so free and used add up to total, and it is
   * 0 when the path fails closed.
   */
  function FreeSpec(s: FsState, path: string): (n: nat)
    requires WfState(s)
    ensures n == TotalSpec(s, path) - UsedSpec(s, path)
    ensures n + UsedSpec(s, path) == TotalSpec(s, path)
    ensures Resolve(s, path).None? ==> n == 0
  {
    SubU64(TotalSpec(s, path), UsedSpec(s, path))
  }
}
