/** Where the kept versions of a package are fetched from. */
module NpmTarballs {
  import opened Prelude
  import opened TextParts
  import opened BatchFilter

  /** A name at the end of a path, with nothing but slashes cut off before it. */
  ghost predicate IsLastName(path: string, name: string) {
    && |name| <= |path| && name == path[|path| - |name|..] && '/' !in name
    && (|name| < |path| ==> path[|path| - |name| - 1] == '/')
  }

  /** What stands before a fragment or a query. */
  ghost predicate IsPlainPart(url: string, part: string) {
    Plain(part) && part <= url && (|part| < |url| ==> url[|part|] == '#' || url[|part|] == '?')
  }

  /** The file that an address names, if it names one. */
  ghost predicate NamesFile(url: string, file: string) {
    file != "" && exists part :: IsPlainPart(url, part) && IsLastName(part, file)
  }

  /** The base without slashes at its end. */
  ghost predicate IsBase(publicBaseUrl: string, base: string) {
    && base <= publicBaseUrl && (forall i :: |base| <= i < |publicBaseUrl| ==> publicBaseUrl[i] == '/')
    && (base != "" ==> base[|base| - 1] != '/')
  }

  /** The package without slashes at its start. */
  ghost predicate IsPackagePath(package: string, path: string) {
    && |path| <= |package| && path == package[|package| - |path|..]
    && (forall i :: 0 <= i < |package| - |path| ==> package[i] == '/')
    && (path != "" ==> path[0] != '/')
  }

  /** The proxy's address of a file of this package. */
  ghost predicate IsProxied(publicBaseUrl: string, package: string, file: string, url: string) {
    exists base, path :: IsBase(publicBaseUrl, base) && IsPackagePath(package, path)
      && url == base + "/npm/" + path + "/-/" + file
  }

  lemma {:induction false} AfterLastIsName(s: string)
    ensures IsLastName(s, AfterLast(s, '/'))
  {
    if s != "" && s[|s| - 1] != '/' {
      AfterLastIsName(s[..|s| - 1]);
    }
  }

  lemma NameEnds(path: string, name: string)
    requires IsLastName(path, name)
    ensures forall i :: |path| - |name| <= i < |path| ==> path[i] != '/'
  {
    assert forall i :: |path| - |name| <= i < |path| ==> path[i] == name[i - (|path| - |name|)];
  }

  lemma LastNameIsUnique(s: string, a: string, b: string)
    requires IsLastName(s, a) && IsLastName(s, b)
    ensures a == b
  {
    NameEnds(s, a);
    NameEnds(s, b);
    assert |a| == |b|;
  }

  lemma {:induction false} BeforeIsPrefix(s: string, stop: char)
    ensures Before(s, stop) <= s && (|Before(s, stop)| < |s| ==> s[|Before(s, stop)|] == stop)
  {
    if s != "" && s[0] != stop {
      BeforeIsPrefix(s[1..], stop);
    }
  }

  lemma PlainPartGoesOn(url: string, part: string)
    requires IsPlainPart(url, part)
    ensures forall i :: 0 <= i < |part| ==> url[i] != '#' && url[i] != '?'
  {
    assert forall i :: 0 <= i < |part| ==> url[i] == part[i] && part[i] in part;
  }

  lemma PlainPartIs(url: string)
    ensures IsPlainPart(url, Before(Before(url, '#'), '?'))
    ensures forall part :: IsPlainPart(url, part) ==> part == Before(Before(url, '#'), '?')
  {
    var cut := Before(Before(url, '#'), '?');
    BeforeIsPrefix(url, '#');
    BeforeIsPrefix(Before(url, '#'), '?');
    BeforeMembers(Before(url, '#'), '?');
    forall part | IsPlainPart(url, part)
      ensures part == cut
    {
      PlainPartGoesOn(url, cut);
      PlainPartGoesOn(url, part);
      assert |part| == |cut|;
    }
  }

  /** The file name taken from an address is the one that it names. */
  lemma TarballFilenameExactly(url: string, file: string)
    ensures TarballFilename(url) == Some(file) <==> NamesFile(url, file)
  {
    var cut := Before(Before(url, '#'), '?');
    PlainPartIs(url);
    AfterLastIsName(cut);
    if NamesFile(url, file) {
      LastNameIsUnique(cut, file, AfterLast(cut, '/'));
    }
  }

  lemma {:induction false} TrimEndIsBase(s: string)
    ensures IsBase(s, TrimEnd(s, '/'))
  {
    if s != "" && s[|s| - 1] == '/' {
      TrimEndIsBase(s[..|s| - 1]);
    }
  }

  lemma {:induction false} TrimStartIsPath(s: string)
    ensures IsPackagePath(s, TrimStart(s, '/'))
  {
    if s != "" && s[0] == '/' {
      TrimStartIsPath(s[1..]);
      var path := TrimStart(s, '/');
      assert s[1..][|s| - 1 - |path|..] == s[|s| - |path|..];
      forall i | 0 <= i < |s| - |path|
        ensures s[i] == '/'
      {
        assert i > 0 ==> s[1..][i - 1] == s[i];
      }
    }
  }

  lemma ProxyTarballUrlIsProxied(publicBaseUrl: string, package: string, file: string)
    ensures IsProxied(publicBaseUrl, package, file, ProxyTarballUrl(publicBaseUrl, package, file))
  {
    TrimEndIsBase(publicBaseUrl);
    TrimStartIsPath(package);
  }

  /** The version's own file, or else one named after package and version. */
  ghost predicate IsFileOf(package: string, version: string, tarball: Option<string>, file: string) {
    if tarball.Some? && exists name :: NamesFile(tarball.value, name) then NamesFile(tarball.value, file)
    else exists name :: IsLastName(package, name) && file == name + "-" + version + ".tgz"
  }

  lemma FileIsFound(package: string, version: string, tarball: Option<string>) returns (file: string)
    ensures IsFileOf(package, version, tarball, file)
    ensures file == if tarball.Some? && TarballFilename(tarball.value).Some? then TarballFilename(tarball.value).value
      else AfterLast(package, '/') + "-" + version + ".tgz"
  {
    AfterLastIsName(package);
    file := AfterLast(package, '/') + "-" + version + ".tgz";
    if tarball.Some? {
      forall name
        ensures TarballFilename(tarball.value) == Some(name) <==> NamesFile(tarball.value, name)
      {
        TarballFilenameExactly(tarball.value, name);
      }
      if TarballFilename(tarball.value).Some? {
        file := TarballFilename(tarball.value).value;
      }
    }
  }

  /** A kept version is fetched through the proxy, under its own file name or else one made of package and version. */
  lemma RewrittenExactly(publicBaseUrl: string, package: string, version: string, entry: VersionEntry)
    ensures var after := Rewritten(publicBaseUrl, package, version, entry);
      && after.others == entry.others && (after.dist.Some? <==> entry.dist.Some?)
      && (entry.dist.Some? ==>
            && after.dist.value.others == entry.dist.value.others && after.dist.value.tarball.Some?
            && exists file :: IsFileOf(package, version, entry.dist.value.tarball, file)
                 && IsProxied(publicBaseUrl, package, file, after.dist.value.tarball.value))
  {
    if entry.dist.Some? {
      var file := FileIsFound(package, version, entry.dist.value.tarball);
      ProxyTarballUrlIsProxied(publicBaseUrl, package, file);
    }
  }
}
