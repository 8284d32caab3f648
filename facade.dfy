/**
 * The LoFS facade (src/LoFS.h:51-163): one object that owns the LittleFS
 * and SD backends and forwards every call to the one the path's prefix
 * selects, failing closed on an unrecognised prefix or an unavailable card.
 * Each method is proved to follow the matching function of FacadeSpec.
 */
module Facade {
  import opened Wrappers
  import opened Routing
  import opened Modes
  import opened Storage
  import opened FacadeSpec
  import opened PathBuffer

  class LoFS {
    /** LittleFS on the internal flash. */
    const lfs: Backend
    /** The SD card filesystem. */
    const sd: Backend
    /** Whether the build has SD support (HAS_SDCARD). */
    const hasSdCard: bool
    /** Whether card detection currently finds an initialised card. */
    var cardPresent: bool
    /** The size of one read and write of the cross-filesystem copy. */
    const chunkSize: nat
    /** The size in characters of the buffer each path is parsed into. */
    const pathBufferSize: nat

    ghost predicate Valid()
      reads this, lfs, sd
    {
      lfs != sd && lfs.Valid() && sd.Valid() && chunkSize > 0
    }

    ghost function State(): FsState
      reads this, lfs, sd
    {
      FsState(lfs.View(), sd.View(), hasSdCard && cardPresent, pathBufferSize)
    }

    /** The path was forwarded to backend `fs` in the state before the call. */
    ghost predicate RoutesTo(s: FsState, path: string, fs: FSType)
    {
      Resolve(s, path).Some? && Resolve(s, path).value.fs == fs
    }

    constructor (lfs: Backend, sd: Backend, hasSdCard: bool, cardPresent: bool, chunkSize: nat,
                 pathBufferSize: nat)
      requires lfs != sd && lfs.Valid() && sd.Valid() && chunkSize > 0
      ensures Valid()
      ensures this.lfs == lfs && this.sd == sd && this.chunkSize == chunkSize
      ensures State() == FsState(lfs.View(), sd.View(), hasSdCard && cardPresent, pathBufferSize)
    {
      this.lfs := lfs;
      this.sd := sd;
      this.hasSdCard := hasSdCard;
      this.cardPresent := cardPresent;
      this.chunkSize := chunkSize;
      this.pathBufferSize := pathBufferSize;
    }

    function BackendOf(fs: FSType): Backend
      requires fs != INVALID
    {
      if fs == LFS then lfs else sd
    }

    /** isSDCardAvailable: support compiled in and a card present; always false without HAS_SDCARD. */
    method IsSDCardAvailable() returns (b: bool)
      ensures b == State().sdAvailable
      ensures !hasSdCard ==> !b
    {
      b := hasSdCard && cardPresent;
    }

    /**
     * Classifies `path` into a buffer of `pathBufferSize` characters, reads
     * the backend path back from it, and decides whether the call may be
     * forwarded. A stripped path that does not fit is refused, not truncated.
     */
    method Locate(path: string) returns (t: Option<Route>)
      requires IsCString(path)
      ensures t == Resolve(State(), path)
    {
      var buf := new char[pathBufferSize](_ => NUL);
      var fs := ParsePath(path, buf, pathBufferSize);
      var avail := IsSDCardAvailable();
      if fs == INVALID || (fs == SD && !avail) {
        return None;
      }
      var rel := CStringOf(buf);
      ReadBack(buf[..], rel, ParseRoute(path).stripped);
      t := Some(Route(fs, rel));
    }

    method Exists(path: string) returns (b: bool)
      requires Valid() && IsCString(path)
      ensures b == ExistsSpec(State(), path)
    {
      var t := Locate(path);
      if t.None? {
        return false;
      }
      b := BackendOf(t.value.fs).Exists(t.value.stripped);
    }

    /** open with a normalised mode. */
    method Open(path: string, mode: Mode) returns (f: File)
      requires Valid() && IsCString(path)
      modifies lfs, sd
      ensures Valid()
      ensures (State(), f) == OpenSpec(old(State()), path, mode)
      ensures !RoutesTo(old(State()), path, LFS) ==> unchanged(lfs)
      ensures !RoutesTo(old(State()), path, SD) ==> unchanged(sd)
    {
      var t := Locate(path);
      if t.None? {
        return NoFile;
      }
      var vol := BackendOf(t.value.fs);
      if mode == Read {
        var found := vol.Exists(t.value.stripped);
        f := if found then OpenFile(t.value.fs, t.value.stripped, mode) else NoFile;
      } else {
        var ok := vol.Create(t.value.stripped);
        f := if ok then OpenFile(t.value.fs, t.value.stripped, mode) else NoFile;
      }
    }

    /** open(filepath, uint8_t mode): 0 reads, 1 writes, any other value opens nothing. */
    method OpenFlag(path: string, flag: uint8) returns (f: File)
      requires Valid() && IsCString(path)
      modifies lfs, sd
      ensures Valid()
      ensures ModeOfFlag(flag).None? ==> f == NoFile && unchanged(lfs, sd)
      ensures ModeOfFlag(flag).Some? ==>
                (State(), f) == OpenSpec(old(State()), path, ModeOfFlag(flag).value)
    {
      var m := ModeOfFlag(flag);
      if m.None? {
        return NoFile;
      }
      f := Open(path, m.value);
    }

    /** open(filepath, const char *mode): "r" reads, "w" writes, any other string opens nothing. */
    method OpenMode(path: string, mode: string) returns (f: File)
      requires Valid() && IsCString(path)
      modifies lfs, sd
      ensures Valid()
      ensures ModeOfString(mode).None? ==> f == NoFile && unchanged(lfs, sd)
      ensures ModeOfString(mode).Some? ==>
                (State(), f) == OpenSpec(old(State()), path, ModeOfString(mode).value)
    {
      var m := ModeOfString(mode);
      if m.None? {
        return NoFile;
      }
      f := Open(path, m.value);
    }

    method Mkdir(path: string) returns (ok: bool)
      requires Valid() && IsCString(path)
      modifies lfs, sd
      ensures Valid()
      ensures (State(), ok) == MkdirSpec(old(State()), path)
      ensures !RoutesTo(old(State()), path, LFS) ==> unchanged(lfs)
      ensures !RoutesTo(old(State()), path, SD) ==> unchanged(sd)
    {
      var t := Locate(path);
      if t.None? {
        return false;
      }
      ok := BackendOf(t.value.fs).Mkdir(t.value.stripped);
    }

    method Remove(path: string) returns (ok: bool)
      requires Valid() && IsCString(path)
      modifies lfs, sd
      ensures Valid()
      ensures (State(), ok) == RemoveSpec(old(State()), path)
      ensures !RoutesTo(old(State()), path, LFS) ==> unchanged(lfs)
      ensures !RoutesTo(old(State()), path, SD) ==> unchanged(sd)
    {
      var t := Locate(path);
      if t.None? {
        return false;
      }
      ok := BackendOf(t.value.fs).Remove(t.value.stripped);
    }

    method Rmdir(path: string) returns (ok: bool)
      requires Valid() && IsCString(path)
      modifies lfs, sd
      ensures Valid()
      ensures (State(), ok) == RmdirSpec(old(State()), path)
      ensures !RoutesTo(old(State()), path, LFS) ==> unchanged(lfs)
      ensures !RoutesTo(old(State()), path, SD) ==> unchanged(sd)
    {
      var t := Locate(path);
      if t.None? {
        return false;
      }
      ok := BackendOf(t.value.fs).Rmdir(t.value.stripped);
    }

    /**
     * rename: the native rename when both paths are on one backend,
     * otherwise open the source, open the destination, stream the bytes
     * across in chunks and delete the source.
     */
    method Rename(oldPath: string, newPath: string) returns (ok: bool)
      requires Valid() && IsCString(oldPath) && IsCString(newPath)
      modifies lfs, sd
      ensures Valid()
      ensures (State(), ok) == RenameSpec(old(State()), oldPath, newPath)
      ensures Resolve(old(State()), oldPath).None? || Resolve(old(State()), newPath).None? ==>
                unchanged(lfs, sd)
    {
      var to := Locate(oldPath);
      var tn := Locate(newPath);
      if to.None? || tn.None? {
        return false;
      }
      var ro, rn := to.value, tn.value;
      if ro.fs == rn.fs {
        ok := BackendOf(ro.fs).Rename(ro.stripped, rn.stripped);
        return;
      }
      ok := MoveAcross(ro, rn);
    }

    /** The copy-then-delete move between the two backends. */
    method MoveAcross(ro: Route, rn: Route) returns (ok: bool)
      requires Valid()
      requires ro.fs != INVALID && rn.fs != INVALID && ro.fs != rn.fs
      modifies lfs, sd
      ensures Valid()
      ensures (State(), ok) == CrossMove(old(State()), ro, rn)
    {
      var src, dst := BackendOf(ro.fs), BackendOf(rn.fs);
      ghost var s0 := State();
      var readable := src.IsFile(ro.stripped);
      if !readable {
        return false;
      }
      ghost var data := src.files[ro.stripped];
      var created := dst.Create(rn.stripped);
      if !created {
        return false;
      }
      ghost var dst1 := dst.View();
      var size := src.Size(ro.stripped);
      var pos := 0;
      while pos < size
        invariant 0 <= pos <= size == |data|
        invariant src.View() == VolOf(s0, ro.fs)
        invariant dst.Valid()
        invariant dst.View() == dst1.(files := dst1.files[rn.stripped := data[..pos]])
        decreases size - pos
      {
        var chunk := src.ReadChunk(ro.stripped, pos, chunkSize);
        assert data[..pos] + chunk == data[..pos + |chunk|];
        dst.Append(rn.stripped, chunk);
        pos := pos + |chunk|;
      }
      assert data[..pos] == data;
      ghost var copied := VolOf(s0, rn.fs).(files := VolOf(s0, rn.fs).files[rn.stripped := data]);
      assert dst.View() == copied;
      var _ := src.Remove(ro.stripped);
      assert src.View() == VolRemove(VolOf(s0, ro.fs), ro.stripped).0;
      assert State() == WithVol(WithVol(s0, rn.fs, copied), ro.fs, src.View());
      ok := true;
    }

    /** totalBytes: the routed backend's total, 0 when the path fails closed. */
    method TotalBytes(path: string) returns (n: nat)
      requires Valid() && IsCString(path)
      ensures n == TotalSpec(State(), path)
    {
      var t := Locate(path);
      if t.None? {
        return 0;
      }
      n := BackendOf(t.value.fs).TotalBytes();
    }

    /** usedBytes: the routed backend's used space, 0 when the path fails closed. */
    method UsedBytes(path: string) returns (n: nat)
      requires Valid() && IsCString(path)
      ensures n == UsedSpec(State(), path)
    {
      var t := Locate(path);
      if t.None? {
        return 0;
      }
      n := BackendOf(t.value.fs).UsedBytes();
    }

    /** freeBytes, computed here as totalBytes minus usedBytes. */
    method FreeBytes(path: string) returns (n: nat)
      requires Valid() && IsCString(path)
      ensures n == FreeSpec(State(), path)
      ensures n + UsedSpec(State(), path) == TotalSpec(State(), path)
    {
      var total := TotalBytes(path);
      var used := UsedBytes(path);
      n := SubU64(total, used);
    }
  }
}
