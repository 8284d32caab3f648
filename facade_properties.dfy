/**
 * Properties of the LoFS operations that relate several calls or several
 * paths: the fail-closed policy, the outcome and effect of rename in both
 * its forms, and what the self-test checks after each step
 * (src/diagnostics.cpp).
 */
module FacadeProperties {
  import opened Wrappers
  import opened Routing
  import opened Modes
  import opened Storage
  import opened FacadeSpec

  /**
   * Every operation on a path the facade cannot forward returns its
   * failure sentinel (false, the falsy File, 0) and leaves both backends as
   * they were; rename does so whichever of its two paths it is.
   */
  lemma FailClosed(s: FsState, path: string, other: string, mode: Mode)
    requires WfState(s) && Resolve(s, path).None?
    ensures !ExistsSpec(s, path)
    ensures OpenSpec(s, path, mode) == (s, NoFile)
    ensures MkdirSpec(s, path) == (s, false)
    ensures RemoveSpec(s, path) == (s, false)
    ensures RmdirSpec(s, path) == (s, false)
    ensures RenameSpec(s, path, other) == (s, false)
    ensures RenameSpec(s, other, path) == (s, false)
    ensures TotalSpec(s, path) == 0 && UsedSpec(s, path) == 0 && FreeSpec(s, path) == 0
  {
  }

  /** The facade cannot forward a path with no recognised marker, whatever the card state. */
  lemma InvalidPrefixNotForwarded(s: FsState, path: string)
    requires ParseRoute(path).fs == INVALID
    ensures Resolve(s, path).None?
  {
  }

  /** A stripped path too long for the parse buffer is never forwarded, whatever its prefix. */
  lemma OverlongPathNotForwarded(s: FsState, path: string)
    requires |ParseRoute(path).stripped| + 1 > s.pathBufferSize
    ensures Resolve(s, path).None?
  {
  }

  /** The self-test's prefix-less and unknown-prefix paths are refused (src/diagnostics.cpp:358-374). */
  lemma SelfTestErrorPaths(s: FsState)
    ensures Resolve(s, "no_prefix.txt").None?
    ensures Resolve(s, "/invalid/prefix.txt").None?
  {
    NoPrefixRejected();
    UnknownPrefixRejected();
  }

  /** With the card unavailable no SD path is forwarded, so the SD backend is never called. */
  lemma SdUnavailableNotForwarded(s: FsState, path: string)
    requires !s.sdAvailable && ParseRoute(path).fs == SD
    ensures Resolve(s, path).None?
  {
  }

  /**
   * rename succeeds exactly when the source is a reachable file and the
   * destination is a reachable path that is not a directory, for the native
   * rename and the cross-backend move alike.
   */
  lemma RenameSucceedsIff(s: FsState, o: string, n: string)
    requires WfState(s)
    ensures RenameSpec(s, o, n).1 <==> FileAt(s, o).Some? && Resolve(s, n).Some? && !DirAt(s, n)
  {
    match (Resolve(s, o), Resolve(s, n))
    case (Some(ro), Some(rn)) =>
      if ro.fs != rn.fs {
        assert RenameSpec(s, o, n) == CrossMove(s, ro, rn);
      }
    case _ =>
  }

  /**
   * A successful rename between two different locations moves the file:
   * the old path no longer exists, and the new path exists holding exactly
   * the bytes the old path held. This covers LittleFS to SD, SD to LittleFS
   * and a rename within one backend.
   */
  lemma RenameMoves(s: FsState, o: string, n: string)
    requires WfState(s) && RenameSpec(s, o, n).1
    requires ParseRoute(o) != ParseRoute(n)
    ensures var s' := RenameSpec(s, o, n).0;
            !ExistsSpec(s', o) && ExistsSpec(s', n) && FileAt(s', n) == FileAt(s, o)
  {
    var ro, rn := Resolve(s, o).value, Resolve(s, n).value;
    var s' := RenameSpec(s, o, n).0;
    if ro.fs == rn.fs {
      var v := VolOf(s, ro.fs);
      assert VolOf(s', ro.fs).files == (v.files - {ro.stripped})[rn.stripped := v.files[ro.stripped]];
      assert VolOf(s', ro.fs).dirs == v.dirs;
    } else {
      assert s' == CrossMove(s, ro, rn).0;
      assert VolOf(s', rn.fs).files[rn.stripped] == VolOf(s, ro.fs).files[ro.stripped];
      assert VolOf(s', ro.fs).files == VolOf(s, ro.fs).files - {ro.stripped};
      assert VolOf(s', ro.fs).dirs == VolOf(s, ro.fs).dirs;
    }
  }

  /** rename changes nothing at any location other than its two paths. */
  lemma RenameFrame(s: FsState, o: string, n: string, p: string)
    requires WfState(s)
    requires ParseRoute(p) != ParseRoute(o) && ParseRoute(p) != ParseRoute(n)
    ensures var s' := RenameSpec(s, o, n).0;
            FileAt(s', p) == FileAt(s, p) && DirAt(s', p) == DirAt(s, p)
  {
    var s' := RenameSpec(s, o, n).0;
    assert s'.sdAvailable == s.sdAvailable && s'.pathBufferSize == s.pathBufferSize;
    assert Resolve(s', p) == Resolve(s, p);
    match (Resolve(s, o), Resolve(s, n))
    case (Some(ro), Some(rn)) =>
      if ro.fs != rn.fs {
        assert s' == CrossMove(s, ro, rn).0;
      }
    case _ =>
  }

  /** A rename within one backend leaves the other backend untouched. */
  lemma SameBackendRenameKeepsOther(s: FsState, o: string, n: string)
    requires WfState(s) && ParseRoute(o).fs == ParseRoute(n).fs
    ensures OnlyRoutedBackend(s, RenameSpec(s, o, n).0, o)
  {
  }

  /**
   * The cross-filesystem move of src/LoFS.h:97-99, as the self-test performs
   * it from LittleFS to SD (src/diagnostics.cpp:241-262): with both backends
   * reachable, a file at `a` on one backend renamed to a non-directory `b` on
   * the other is gone from the first and present on the second, byte for byte.
   */
  lemma CrossRename(s: FsState, from: FSType, a: string, to: FSType, b: string, content: seq<byte>)
    requires WfState(s) && from != INVALID && to != INVALID && from != to
    requires (from == SD || to == SD) ==> s.sdAvailable
    requires |a| > 0 && a[0] == '/' && |b| > 0 && b[0] == '/'
    requires |a| + 1 <= s.pathBufferSize && |b| + 1 <= s.pathBufferSize
    requires a in VolOf(s, from).files && VolOf(s, from).files[a] == content
    requires b !in VolOf(s, to).dirs
    ensures var r := RenameSpec(s, Join(from, a), Join(to, b));
            r.1 && !ExistsSpec(r.0, Join(from, a)) && FileAt(r.0, Join(to, b)) == Some(content)
  {
    var o, n := Join(from, a), Join(to, b);
    ParseJoin(from, a);
    ParseJoin(to, b);
    assert Resolve(s, o) == Some(Route(from, a));
    assert Resolve(s, n) == Some(Route(to, b));
    RenameToNonDirectory(s, o, n);
  }

  /**
   * The move holds in both directions the header describes: LittleFS to SD,
   * which the self-test exercises, and SD to LittleFS.
   */
  lemma CrossRenameBothDirections(s: FsState, a: string, b: string, content: seq<byte>)
    requires WfState(s) && s.sdAvailable
    requires |a| > 0 && a[0] == '/' && |b| > 0 && b[0] == '/'
    requires |a| + 1 <= s.pathBufferSize && |b| + 1 <= s.pathBufferSize
    ensures a in s.lfs.files && s.lfs.files[a] == content && b !in s.sd.dirs ==>
              var r := RenameSpec(s, Join(LFS, a), Join(SD, b));
              r.1 && !ExistsSpec(r.0, Join(LFS, a)) && FileAt(r.0, Join(SD, b)) == Some(content)
    ensures a in s.sd.files && s.sd.files[a] == content && b !in s.lfs.dirs ==>
              var r := RenameSpec(s, Join(SD, a), Join(LFS, b));
              r.1 && !ExistsSpec(r.0, Join(SD, a)) && FileAt(r.0, Join(LFS, b)) == Some(content)
  {
    if a in s.lfs.files && s.lfs.files[a] == content && b !in s.sd.dirs {
      CrossRename(s, LFS, a, SD, b, content);
    }
    if a in s.sd.files && s.sd.files[a] == content && b !in s.lfs.dirs {
      CrossRename(s, SD, a, LFS, b, content);
    }
  }

  /** Removing a path twice: the second call fails and changes nothing. */
  lemma RemoveTwice(s: FsState, path: string)
    requires WfState(s)
    ensures var s' := RemoveSpec(s, path).0;
            RemoveSpec(s', path) == (s', false)
  {
  }

  /** A file opened for writing can afterwards be opened for reading and exists. */
  lemma CreateThenRead(s: FsState, path: string)
    requires WfState(s) && OpenSpec(s, path, Write).1.OpenFile?
    ensures var s' := OpenSpec(s, path, Write).0;
            ExistsSpec(s', path) && OpenSpec(s', path, Read).1.OpenFile?
  {
  }

  /** A directory made by mkdir is found by exists (src/diagnostics.cpp:132-141). */
  lemma MkdirThenExists(s: FsState, path: string)
    requires WfState(s) && MkdirSpec(s, path).1
    ensures ExistsSpec(MkdirSpec(s, path).0, path)
  {
  }

  /**
   * Renaming a reachable file to a different reachable location that is not
   * a directory succeeds, whether or not a file is already there: the old
   * name is gone and the new one holds the old bytes.
   */
  lemma RenameToNonDirectory(s: FsState, o: string, n: string)
    requires WfState(s) && FileAt(s, o).Some? && Resolve(s, n).Some? && !DirAt(s, n)
    requires ParseRoute(o) != ParseRoute(n)
    ensures var r := RenameSpec(s, o, n);
            r.1 && !ExistsSpec(r.0, o) && FileAt(r.0, n) == FileAt(s, o)
  {
    RenameSucceedsIff(s, o, n);
    RenameMoves(s, o, n);
  }

  /** The paths of the self-test's "reverse" cross-filesystem step (src/diagnostics.cpp:225-227). */
  const ReverseSource: string := "/lfs/cross_test_source.txt"
  const ReverseDest: string := "/lfs/cross_test_dest.txt"

  /** The source that step evidently means, and the names the backends see. */
  const IntendedSource: string := "/sd/cross_test_source.txt"
  const SourceName: string := "/cross_test_source.txt"
  const DestName: string := "/cross_test_dest.txt"

  /**
   * As written, the self-test's step logged as "SD->LFS"
   * (src/diagnostics.cpp:270-281) renames between two LittleFS paths: it is
   * the native rename of LittleFS and never reaches the SD card.
   */
  lemma ReverseStepStaysOnLittleFs(s: FsState)
    requires WfState(s)
    ensures ParseRoute(ReverseSource) == Route(LFS, SourceName)
    ensures ParseRoute(ReverseDest) == Route(LFS, DestName)
    ensures RenameSpec(s, ReverseSource, ReverseDest).0.sd == s.sd
  {
    assert Join(LFS, SourceName) == ReverseSource;
    assert Join(LFS, DestName) == ReverseDest;
    ParseJoin(LFS, SourceName);
    ParseJoin(LFS, DestName);
    SameBackendRenameKeepsOther(s, ReverseSource, ReverseDest);
  }

  /**
   * The step as its log line intends it: a file on the SD card renamed to
   * LittleFS moves across, leaving the source gone and the destination
   * holding the same bytes.
   */
  lemma ReverseStepAsIntended(s: FsState, content: seq<byte>)
    requires WfState(s) && s.sdAvailable && |SourceName| + 1 <= s.pathBufferSize
    requires SourceName in s.sd.files && s.sd.files[SourceName] == content
    requires DestName !in s.lfs.dirs
    ensures var r := RenameSpec(s, IntendedSource, ReverseDest);
            r.1 && !ExistsSpec(r.0, IntendedSource) && FileAt(r.0, ReverseDest) == Some(content)
  {
    assert Join(SD, SourceName) == IntendedSource;
    assert Join(LFS, DestName) == ReverseDest;
    CrossRename(s, SD, SourceName, LFS, DestName, content);
  }
}
