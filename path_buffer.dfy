/**
 * The two `parsePath` overloads of LoFS (src/LoFS.h:151-162): classify a
 * path and write the backend path, NUL-terminated, into a character buffer.
 */
module PathBuffer {
  import opened Routing

  /** The C string terminator. */
  const NUL: char := '\0'

  /** The stripped path and its terminator fit in `bufferSize` characters. */
  predicate Fits(r: Route, bufferSize: nat)
  {
    |r.stripped| + 1 <= bufferSize
  }

  /**
   * `parsePath(filepath, strippedPath, bufferSize)`: the buffer overload.
   * On a recognised prefix whose stripped path fits, the buffer holds the
   * stripped path followed by NUL and the result is the filesystem; a path
   * that does not fit is refused as INVALID rather than truncated. Nothing at
   * or beyond `bufferSize` is written, and on INVALID nothing is written at
   * all. A buffer of `|path| + 1` characters, as the header asks for, always
   * suffices.
   */
  method ParsePath(path: string, buf: array<char>, bufferSize: nat) returns (t: FSType)
    requires bufferSize <= buf.Length
    modifies buf
    ensures var r := ParseRoute(path);
            t == if r.fs != INVALID && Fits(r, bufferSize) then r.fs else INVALID
    ensures bufferSize >= |path| + 1 ==> t == ParseRoute(path).fs
    ensures t != INVALID ==>
              var s := ParseRoute(path).stripped;
              buf[..|s|] == s && buf[|s|] == NUL &&
              forall k :: |s| < k < buf.Length ==> buf[k] == old(buf[k])
    ensures t == INVALID ==> buf[..] == old(buf[..])
    ensures forall k :: bufferSize <= k < buf.Length ==> buf[k] == old(buf[k])
  {
    var r := ParseRoute(path);
    if r.fs == INVALID || |r.stripped| + 1 > bufferSize {
      return INVALID;
    }
    var i := 0;
    while i < |r.stripped|
      invariant 0 <= i <= |r.stripped|
      invariant buf[..i] == r.stripped[..i]
      invariant forall k :: i <= k < buf.Length ==> buf[k] == old(buf[k])
    {
      buf[i] := r.stripped[i];
      i := i + 1;
    }
    buf[i] := NUL;
    t := r.fs;
  }

  /**
   * `parsePath(filepath, &strippedPath)`: the allocating overload. It sizes
   * a fresh buffer for the worst case, `|path| + 1`, so the classification is
   * never refused for lack of room. For an INVALID path the buffer holds
   * only terminators, so it reads as the empty string.
   */
  method ParsePathAlloc(path: string) returns (t: FSType, buf: array<char>)
    ensures fresh(buf) && buf.Length == |path| + 1
    ensures t == ParseRoute(path).fs
    ensures t != INVALID ==>
              var s := ParseRoute(path).stripped;
              buf[..|s|] == s && buf[|s|] == NUL
    ensures t == INVALID ==> forall k :: 0 <= k < buf.Length ==> buf[k] == NUL
  {
    buf := new char[|path| + 1](_ => NUL);
    t := ParsePath(path, buf, buf.Length);
  }

  /** The buffer holds a terminated C string. */
  predicate Terminated(buf: seq<char>)
  {
    exists k :: 0 <= k < |buf| && buf[k] == NUL
  }

  /**
   * Reads the C string at the start of `buf`: the characters before the
   * first NUL. This is how the backend path filled in by ParsePath is
   * handed on to a backend.
   */
  method CStringOf(buf: array<char>) returns (s: string)
    requires Terminated(buf[..])
    ensures IsCString(s)
    ensures |s| < buf.Length && buf[|s|] == NUL && s == buf[..|s|]
  {
    var i := 0;
    while buf[i] != NUL
      invariant 0 <= i < buf.Length
      invariant forall j :: 0 <= j < i ==> buf[j] != NUL
      invariant exists k :: i <= k < buf.Length && buf[k] == NUL
      decreases buf.Length - i
    {
      i := i + 1;
    }
    s := buf[..i];
  }

  /** A C string written with its terminator reads back unchanged. */
  lemma ReadBack(buf: seq<char>, s: string, t: string)
    requires IsCString(s) && IsCString(t)
    requires |s| < |buf| && buf[..|s|] == s && buf[|s|] == NUL
    requires |t| < |buf| && buf[..|t|] == t && buf[|t|] == NUL
    ensures s == t
  {
  }
}
