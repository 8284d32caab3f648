/**
 * A stand-in for the two storage backends LoFS dispatches to (LittleFS and
 * the SD library). Each is a flat map from backend path to file contents,
 * a set of directory paths, and the two space figures the backend reports.
 * The real libraries are not part of this model; these primitives fix only
 * the behaviour the facade relies on.
 */
module Storage {
  import opened Routing

  newtype byte = x: int | 0 <= x < 256

  /** One more than the largest uint64_t. */
  const U64Limit: nat := 0x1_0000_0000_0000_0000

  /** The abstract state of one backend. */
  datatype Vol = Vol(files: map<string, seq<byte>>, dirs: set<string>, total: nat, used: nat)

  /**
   * The backend invariant: the root directory exists, no path is both a
   * file and a directory, and the space figures are uint64 values with
   * used not above total.
   */
  predicate Wf(v: Vol)
  {
    Root in v.dirs && v.files.Keys !! v.dirs && v.used <= v.total < U64Limit
  }

  predicate VolExists(v: Vol, p: string)
  {
    p in v.files || p in v.dirs
  }

  /** mkdir: fails on a path that already exists. */
  function VolMkdir(v: Vol, p: string): (r: (Vol, bool))
    requires Wf(v)
    ensures Wf(r.0)
  {
    if VolExists(v, p) then (v, false) else (v.(dirs := v.dirs + {p}), true)
  }

  /** remove: deletes a file; fails on a directory or a missing path. */
  function VolRemove(v: Vol, p: string): (r: (Vol, bool))
    requires Wf(v)
    ensures Wf(r.0)
  {
    if p in v.files then (v.(files := v.files - {p}), true) else (v, false)
  }

  /** rmdir: deletes a directory other than the root. */
  function VolRmdir(v: Vol, p: string): (r: (Vol, bool))
    requires Wf(v)
    ensures Wf(r.0)
  {
    if p in v.dirs && p != Root then (v.(dirs := v.dirs - {p}), true) else (v, false)
  }

  /** open for write: creates or truncates a file; fails on a directory. */
  function VolCreate(v: Vol, p: string): (r: (Vol, bool))
    requires Wf(v)
    ensures Wf(r.0)
  {
    if p in v.dirs then (v, false) else (v.(files := v.files[p := []]), true)
  }

  /** native rename of a file, replacing a file already at the destination. */
  function VolRename(v: Vol, o: string, n: string): (r: (Vol, bool))
    requires Wf(v)
    ensures Wf(r.0)
  {
    if o in v.files && n !in v.dirs then (v.(files := (v.files - {o})[n := v.files[o]]), true)
    else (v, false)
  }

  function Min(a: nat, b: nat): nat
  {
    if a <= b then a else b
  }

  /** One backend, updated in place by the primitives the facade calls. */
  class Backend {
    var files: map<string, seq<byte>>
    var dirs: set<string>
    var total: nat
    var used: nat

    ghost function View(): Vol
      reads this
    {
      Vol(files, dirs, total, used)
    }

    ghost predicate Valid()
      reads this
    {
      Wf(View())
    }

    /** An empty, formatted backend of `total` bytes of which `used` are taken. */
    constructor (total: nat, used: nat)
      requires used <= total < U64Limit
      ensures Valid() && View() == Vol(map[], {Root}, total, used)
    {
      this.files := map[];
      this.dirs := {Root};
      this.total := total;
      this.used := used;
    }

    // The queries below define what the stand-in reports; their contracts
    // read the state straight off the fields and carry no proof of their own.

    method Exists(p: string) returns (b: bool)
      ensures b == VolExists(View(), p)
    {
      b := p in files || p in dirs;
    }

    method IsFile(p: string) returns (b: bool)
      ensures b == (p in files)
    {
      b := p in files;
    }

    method Mkdir(p: string) returns (ok: bool)
      requires Valid()
      modifies this
      ensures Valid() && (View(), ok) == VolMkdir(old(View()), p)
    {
      ok := !(p in files || p in dirs);
      if ok {
        dirs := dirs + {p};
      }
    }

    method Remove(p: string) returns (ok: bool)
      requires Valid()
      modifies this
      ensures Valid() && (View(), ok) == VolRemove(old(View()), p)
    {
      ok := p in files;
      if ok {
        files := files - {p};
      }
    }

    method Rmdir(p: string) returns (ok: bool)
      requires Valid()
      modifies this
      ensures Valid() && (View(), ok) == VolRmdir(old(View()), p)
    {
      ok := p in dirs && p != Root;
      if ok {
        dirs := dirs - {p};
      }
    }

    method Create(p: string) returns (ok: bool)
      requires Valid()
      modifies this
      ensures Valid() && (View(), ok) == VolCreate(old(View()), p)
    {
      ok := p !in dirs;
      if ok {
        files := files[p := []];
      }
    }

    method Rename(o: string, n: string) returns (ok: bool)
      requires Valid()
      modifies this
      ensures Valid() && (View(), ok) == VolRename(old(View()), o, n)
    {
      ok := o in files && n !in dirs;
      if ok {
        files := (files - {o})[n := files[o]];
      }
    }

    method Size(p: string) returns (n: nat)
      requires p in files
      ensures n == |files[p]|
    {
      n := |files[p]|;
    }

    /** Reads up to `len` bytes of file `p` from offset `pos`. */
    method ReadChunk(p: string, pos: nat, len: nat) returns (chunk: seq<byte>)
      requires p in files && pos <= |files[p]|
      ensures chunk == files[p][pos..Min(pos + len, |files[p]|)]
    {
      chunk := files[p][pos..Min(pos + len, |files[p]|)];
    }

    /** Appends `data` to file `p`, as writes through an open handle do. */
    method Append(p: string, data: seq<byte>)
      requires Valid() && p in files
      modifies this
      ensures Valid()
      ensures View() == old(View()).(files := old(files)[p := old(files)[p] + data])
    {
      files := files[p := files[p] + data];
    }

    method TotalBytes() returns (n: nat)
      ensures n == total
    {
      n := total;
    }

    method UsedBytes() returns (n: nat)
      ensures n == used
    {
      n := used;
    }
  }
}
