/** The fixed locations of the grabber and the names it derives from a
    package's (name, version): the cached archive path, the per-package
    expansion directory and the archive download URL.  Paths are modelled
    as plain `/`-joined strings. */
module Naming {

  /** Root of the extension registry bucket. */
  const RegistryBase: string := "https://s3.amazonaws.com/extend.brackets"
  /** Root of everything the grabber writes locally. */
  const Downloads: string := "downloads"
  /** The archive cache. */
  const Zips: string := Downloads + "/zips"

  /** The archive file name `<name>-<version>.zip`, shared by the cache
      path and the download URL. */
  function ArchiveName(name: string, version: string): (a: string)
  {
    name + "-" + version + ".zip"
  }

  /** The cached archive of one package version: `downloads/zips/<name>-<version>.zip`. */
  function ZipPath(name: string, version: string): (p: string)
    ensures |p| == |Zips| + |name| + |version| + 6
    ensures p[..|Zips| + 1] == Zips + "/"
    ensures p[|Zips| + 1..] == ArchiveName(name, version)
  {
    Zips + "/" + ArchiveName(name, version)
  }

  /** The directory a package is expanded into: `downloads/<name>`. */
  function ExpansionDir(name: string): (d: string)
    ensures |d| == |Downloads| + 1 + |name|
    ensures d[..|Downloads| + 1] == Downloads + "/"
    ensures d[|Downloads| + 1..] == name
  {
    Downloads + "/" + name
  }

  /** The URL an archive is downloaded from: `<base>/<name>/<name>-<version>.zip`. */
  function DownloadUrl(name: string, version: string): (u: string)
    ensures |u| == |RegistryBase| + 2 * |name| + |version| + 7
    ensures u[..|RegistryBase| + 1] == RegistryBase + "/"
    ensures u[|RegistryBase| + 1..] == name + "/" + ArchiveName(name, version)
  {
    RegistryBase + "/" + name + "/" + ArchiveName(name, version)
  }

  /** For a fixed package name, distinct versions get distinct cached archives. */
  lemma ZipPathVersionInjective(name: string, v1: string, v2: string)
    requires ZipPath(name, v1) == ZipPath(name, v2)
    ensures v1 == v2
  {
    var a1, a2 := ArchiveName(name, v1), ArchiveName(name, v2);
    assert a1 == a2;
    assert v1 + ".zip" == a1[|name| + 1..];
    assert v2 + ".zip" == a2[|name| + 1..];
    assert v1 == (v1 + ".zip")[..|v1|];
    assert v2 == (v2 + ".zip")[..|v2|];
  }

  /** When neither package name contains `-`, the cached archive path
      determines both the name and the version: the first `-` after the
      cache directory ends the name. */
  lemma {:induction false} ZipPathInjective(n1: string, v1: string, n2: string, v2: string)
    requires '-' !in n1 && '-' !in n2
    requires ZipPath(n1, v1) == ZipPath(n2, v2)
    ensures n1 == n2 && v1 == v2
  {
    var a1, a2 := ArchiveName(n1, v1), ArchiveName(n2, v2);
    assert a1 == a2;
    assert a1 == n1 + ['-'] + (v1 + ".zip");
    assert a2 == n2 + ['-'] + (v2 + ".zip");
    SplitAtSeparator(n1, v1 + ".zip", n2, v2 + ".zip", '-');
    assert v1 + ".zip" == v2 + ".zip";
    assert v1 == (v1 + ".zip")[..|v1|];
    assert v2 == (v2 + ".zip")[..|v2|];
  }

  /** When neither version contains `-`, the cached archive path determines
      both the name and the version: the last `-` before `.zip` starts the
      version. */
  lemma {:induction false} ZipPathInjectiveByVersion(n1: string, v1: string, n2: string, v2: string)
    requires '-' !in v1 && '-' !in v2
    requires ZipPath(n1, v1) == ZipPath(n2, v2)
    ensures n1 == n2 && v1 == v2
  {
    var a1, a2 := ArchiveName(n1, v1), ArchiveName(n2, v2);
    assert a1 == a2;
    var s1, s2 := n1 + ['-'] + v1, n2 + ['-'] + v2;
    assert a1 == s1 + ".zip";
    assert a2 == s2 + ".zip";
    assert s1 == a1[..|a1| - 4];
    assert s2 == a2[..|a2| - 4];
    SplitAtLastSeparator(n1, v1, n2, v2, '-');
  }

  /** A string `x + [sep] + y` in which `y` has no `sep` is split uniquely at `sep`. */
  lemma {:induction false} SplitAtLastSeparator(x1: string, y1: string, x2: string, y2: string, sep: char)
    requires sep !in y1 && sep !in y2
    requires x1 + [sep] + y1 == x2 + [sep] + y2
    ensures x1 == x2 && y1 == y2
  {
    var s := x1 + [sep] + y1;
    LastSeparator(x1, y1, sep);
    LastSeparator(x2, y2, sep);
    assert |x1| == |x2|;
    assert x1 == s[..|x1|];
    assert x2 == s[..|x2|];
    assert y1 == s[|x1| + 1..];
    assert y2 == s[|x2| + 1..];
  }

  /** In `x + [sep] + y` with no `sep` in `y`, the last `sep` sits at `|x|`. */
  lemma LastSeparator(x: string, y: string, sep: char)
    requires sep !in y
    ensures (x + [sep] + y)[|x|] == sep
    ensures forall k :: |x| < k < |x| + 1 + |y| ==> (x + [sep] + y)[k] != sep
  {
    forall k | |x| < k < |x| + 1 + |y|
      ensures (x + [sep] + y)[k] != sep
    {
      assert (x + [sep] + y)[k] == y[k - |x| - 1];
    }
  }

  /** Different packages expand into different directories. */
  lemma ExpansionDirInjective(n1: string, n2: string)
    requires ExpansionDir(n1) == ExpansionDir(n2)
    ensures n1 == n2
  {
    assert n1 == ExpansionDir(n1)[|Downloads| + 1..];
  }

  /** Package names can reach the grabber's own files: the expansion
      directory of a package named `zips` is the archive cache, and that of
      one named `registry.json` is the saved registry. */
  lemma ExpansionDirReachesOwnFiles()
    ensures ExpansionDir("zips") == Zips
    ensures ExpansionDir("registry.json") == Downloads + "/registry.json"
  {
  }

  /** A string `x + [sep] + y` in which `x` has no `sep` is split uniquely at `sep`. */
  lemma {:induction false} SplitAtSeparator(x1: string, y1: string, x2: string, y2: string, sep: char)
    requires sep !in x1 && sep !in x2
    requires x1 + [sep] + y1 == x2 + [sep] + y2
    ensures x1 == x2 && y1 == y2
  {
    var s := x1 + [sep] + y1;
    FirstSeparator(x1, y1, sep);
    FirstSeparator(x2, y2, sep);
    assert |x1| == |x2|;
    assert x1 == s[..|x1|];
    assert x2 == s[..|x2|];
    assert y1 == s[|x1| + 1..];
    assert y2 == s[|x2| + 1..];
  }

  /** In `x + [sep] + y` with no `sep` in `x`, the first `sep` sits at `|x|`. */
  lemma FirstSeparator(x: string, y: string, sep: char)
    requires sep !in x
    ensures (x + [sep] + y)[|x|] == sep
    ensures forall k :: 0 <= k < |x| ==> (x + [sep] + y)[k] != sep
  {
    forall k | 0 <= k < |x|
      ensures (x + [sep] + y)[k] != sep
    {
      assert (x + [sep] + y)[k] == x[k];
    }
  }

  /** Hyphenated names break injectivity: two different packages can share one
      cached archive file. */
  lemma ZipPathHyphenCollision()
    ensures ZipPath("a-b", "1") == ZipPath("a", "b-1")
  {
  }

  /** When neither package name contains `/`, the download URL determines both
      the name and the version. */
  lemma {:induction false} DownloadUrlInjective(n1: string, v1: string, n2: string, v2: string)
    requires '/' !in n1 && '/' !in n2
    requires DownloadUrl(n1, v1) == DownloadUrl(n2, v2)
    ensures n1 == n2 && v1 == v2
  {
    var u1, u2 := DownloadUrl(n1, v1), DownloadUrl(n2, v2);
    assert n1 + "/" + ArchiveName(n1, v1) == u1[|RegistryBase| + 1..];
    assert n2 + "/" + ArchiveName(n2, v2) == u2[|RegistryBase| + 1..];
    SplitAtSeparator(n1, ArchiveName(n1, v1), n2, ArchiveName(n2, v2), '/');
    assert ZipPath(n1, v1) == ZipPath(n2, v2);
    ZipPathVersionInjective(n1, v1, v2);
  }

  /** The downloaded URL and the cache path it is saved to name the same
      archive file. */
  lemma UrlAndZipPathShareArchiveName(name: string, version: string)
    ensures var u, p, a := DownloadUrl(name, version), ZipPath(name, version), ArchiveName(name, version);
      |a| <= |u| && |a| <= |p| && u[|u| - |a|..] == a && p[|p| - |a|..] == a
  {
    var u, p, a := DownloadUrl(name, version), ZipPath(name, version), ArchiveName(name, version);
    assert u == RegistryBase + "/" + name + "/" + a;
    assert p == Zips + "/" + a;
  }

}
