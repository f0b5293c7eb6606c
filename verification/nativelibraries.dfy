/** `NativeLibrariesOperation`: dropping a directory from a module's native-library configuration. */
module NativeLibrariesOperation {
  import opened Wrappers
  import opened Seqs
  import opened BundleModel

  /** The first directory whose path is `path`. */
  function DirectoryIndex(ds: seq<NativeDirectory>, path: string): (r: Option<nat>)
    ensures r.Some? ==> r.value < |ds| && ds[r.value].path == path
    ensures r.Some? ==> forall k :: 0 <= k < r.value ==> ds[k].path != path
    ensures r.None? ==> forall k :: 0 <= k < |ds| ==> ds[k].path != path
  {
    FirstIndex(ds, (d: NativeDirectory) => d.path, path)
  }

  /**
   * `removeDirectory(nativeLibraries, zipPath)`: without the first directory whose path
   * is `zipPath`; unchanged when there is none.
   */
  function RemoveDirectory(n: NativeLibraries, path: string): (r: NativeLibraries)
    ensures (forall k :: 0 <= k < |n.directories| ==> n.directories[k].path != path) ==> r == n
    ensures (exists k :: 0 <= k < |n.directories| && n.directories[k].path == path) ==>
      |r.directories| == |n.directories| - 1
    ensures forall k :: 0 <= k < |r.directories| ==> r.directories[k] in n.directories
  {
    match DirectoryIndex(n.directories, path)
    case None => n
    case Some(i) => NativeLibraries(RemoveAt(n.directories, i))
  }

  /** How many directories have path `path`. */
  function CountPath(ds: seq<NativeDirectory>, path: string): nat {
    if |ds| == 0 then 0 else (if ds[0].path == path then 1 else 0) + CountPath(ds[1..], path)
  }

  /**
   * Removal takes away exactly one directory with the path when there is one, keeps
   * every other path's count, and keeps the others in order.
   */
  lemma RemoveDirectoryCounts(n: NativeLibraries, path: string, other: string)
    requires other != path
    ensures CountPath(RemoveDirectory(n, path).directories, path)
      == if CountPath(n.directories, path) > 0 then CountPath(n.directories, path) - 1 else 0
    ensures CountPath(RemoveDirectory(n, path).directories, other) == CountPath(n.directories, other)
  {
    var ds := n.directories;
    match DirectoryIndex(ds, path)
    case None =>
      CountNone(ds, path);
    case Some(i) =>
      RemoveAtCount(ds, i, path);
      RemoveAtCount(ds, i, other);
  }

  /** Removing the directory at `i` takes one away from the count of its path only. */
  lemma RemoveAtCount(ds: seq<NativeDirectory>, i: nat, p: string)
    requires i < |ds|
    ensures CountPath(RemoveAt(ds, i), p) + (if ds[i].path == p then 1 else 0) == CountPath(ds, p)
  {
    CountSplit(ds[..i], ds[i..], p);
    CountSplit(ds[..i], ds[i + 1..], p);
    assert ds[..i] + ds[i..] == ds;
    assert ds[i..][1..] == ds[i + 1..];
  }

  lemma {:induction false} CountSplit(a: seq<NativeDirectory>, b: seq<NativeDirectory>, path: string)
    ensures CountPath(a + b, path) == CountPath(a, path) + CountPath(b, path)
  {
    if |a| > 0 {
      assert (a + b)[1..] == a[1..] + b;
      CountSplit(a[1..], b, path);
    } else {
      assert a + b == b;
    }
  }

  lemma {:induction false} CountNone(ds: seq<NativeDirectory>, path: string)
    requires forall k :: 0 <= k < |ds| ==> ds[k].path != path
    ensures CountPath(ds, path) == 0
  {
    if |ds| > 0 {
      CountNone(ds[1..], path);
    }
  }

  /** With distinct directory paths, the removed path is gone afterwards. */
  lemma RemoveDirectoryGone(n: NativeLibraries, path: string)
    requires CountPath(n.directories, path) <= 1
    ensures CountPath(RemoveDirectory(n, path).directories, path) == 0
  {
    RemoveDirectoryCounts(n, path, path + "/");
  }
}
