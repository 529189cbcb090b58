/**
 * JshBoot: a fluent builder that resolves Maven coordinates or direct URLs
 * to jar files in a local repository directory, downloads the missing ones
 * and collects their paths on a classpath.
 */
module Boot {
  import opened Failures
  import opened Strings
  import opened Urls
  import opened Coordinates

  /** What File.exists() and File.isDirectory() report for the repository root. */
  datatype RootState = Missing | NotDirectory | Directory

  /** What the bootstrap observes of the file system: the root, and the absolute paths of existing files. */
  datatype Disk = Disk(root: RootState, files: set<string>)

  /** How an HTTP GET ends: no status line, a status, or 200 and a failing body stream. */
  datatype Response = Refused | Answered(status: int) | BrokenBody

  /** A resolved jar: found in the local repository, or fetched into it. */
  datatype Outcome = CacheHit(path: string) | Downloaded(path: string)

  /** The file part without its query: everything before the first '?'. */
  function BeforeQuery(file: string): (path: string)
    ensures path <= file && '?' !in path
    ensures |path| < |file| ==> file[|path|] == '?'
  {
    var q := FirstIn(file, {'?'});
    if q == -1 then file else file[..q]
  }

  predicate AllSlashes(s: string)
  {
    forall i :: 0 <= i < |s| ==> s[i] == '/'
  }

  /** How a path relates to the repository's base path. */
  datatype Remainder = Outside | OnlySlashes | Inside(rel: string)

  /**
   * The containment check and the leading-'/' strip of getFile: `path` must
   * be strictly longer than `base` and start with it; what follows, without
   * its leading '/' characters, is the relative path.
   */
  function StripBase(path: string, base: string): (r: Remainder)
    ensures r == Outside <==> !(|path| > |base| && base <= path)
    ensures r == OnlySlashes <==> |path| > |base| && base <= path && AllSlashes(path[|base|..])
    ensures r.Inside? ==>
      var rest := path[|base|..];
      && 0 < |r.rel| <= |rest| && r.rel[0] != '/'
      && rest == rest[..|rest| - |r.rel|] + r.rel && AllSlashes(rest[..|rest| - |r.rel|])
  {
    if !(|path| > |base| && base <= path) then Outside
    else
      var rest := path[|base|..];
      var n := LeadingCount(rest, '/');
      if n == |rest| then OnlySlashes
      else
        assert rest == rest[..n] + rest[n..];
        Inside(rest[n..])
  }

  /**
   * The relative path is what follows the base path and a run of `k` '/'
   * characters, when a character other than '/' comes next.
   */
  lemma StripBaseOf(path: string, base: string, k: nat)
    requires |path| > |base| + k && base <= path
    requires (forall j :: |base| <= j < |base| + k ==> path[j] == '/') && path[|base| + k] != '/'
    ensures StripBase(path, base) == Inside(path[|base| + k..])
  {
    var rest := path[|base|..];
    assert rest[k] == path[|base| + k];
    assert !AllSlashes(rest);
    var rel := StripBase(path, base).rel;
    var m := |rest| - |rel|;
    assert rest[m] == rel[0];
    assert forall j :: 0 <= j < k ==> rest[j] == path[|base| + j];
    assert forall j :: 0 <= j < m ==> rest[j] == rest[..m][j];
    assert m == k;
    assert rel == rest[k..];
  }

  /** getFile(url, repoUrl), errors included. */
  function RelativePath(url: Url, repoUrl: string): (r: Result<string>)
    ensures r == Err(MalformedUrl(repoUrl)) <==> ParseUrl(repoUrl).None?
    ensures r.Err? ==> r.error in {MalformedUrl(repoUrl), NotInRepo(ToString(url), repoUrl), SlashesOnly(ToString(url))}
    ensures r.Ok? ==> RelativeTail(BeforeQuery(url.file), r.value)
  {
    match ParseUrl(repoUrl)
    case None => Err(MalformedUrl(repoUrl))
    case Some(repoParsed) =>
      match StripBase(BeforeQuery(url.file), repoParsed.file)
      case Outside => Err(NotInRepo(ToString(url), repoUrl))
      case OnlySlashes => Err(SlashesOnly(ToString(url)))
      case Inside(rel) => InsideSuffix(BeforeQuery(url.file), repoParsed.file, rel); Ok(rel)
  }

  /** `rel` is a non-empty suffix of `path` that does not start with '/'. */
  predicate RelativeTail(path: string, rel: string)
  {
    0 < |rel| <= |path| && rel[0] != '/' && path[|path| - |rel|..] == rel
  }

  lemma InsideSuffix(path: string, base: string, rel: string)
    requires StripBase(path, base) == Inside(rel)
    ensures RelativeTail(path, rel)
  {
    var rest := path[|base|..];
    var m := |rest| - |rel|;
    assert rest[m..] == rel;
    assert path[|base| + m..] == rest[m..];
  }

  /** RelativePath from its two stages. */
  lemma RelativeFromParts(url: Url, repoUrl: string, parsed: Url, rel: string)
    requires ParseUrl(repoUrl) == Some(parsed) && StripBase(BeforeQuery(url.file), parsed.file) == Inside(rel)
    ensures RelativePath(url, repoUrl) == Ok(rel)
  {
  }

  /**
   * The local path of a resolved URL after the root checks: repository
   * root, '/', relative path (`dir` is already absolute; canonicalisation
   * is a plain join).
   */
  function JarPath(root: RootState, dir: string, rel: Result<string>): (r: Result<string>)
    ensures root == Missing ==> r == Err(RepoMissing(dir))
    ensures root == NotDirectory ==> r == Err(RepoNotDirectory(dir))
    ensures root == Directory && rel.Err? ==> r == rel
    ensures root == Directory && rel.Ok? ==> r.Ok? && dir + "/" <= r.value && r.value[|dir| + 1..] == rel.value
  {
    match root
    case Missing => Err(RepoMissing(dir))
    case NotDirectory => Err(RepoNotDirectory(dir))
    case Directory => if rel.Err? then rel else Ok(dir + "/" + rel.value)
  }

  /** The freshness test: fetch unless the file exists and is not a SNAPSHOT. */
  function NeedsFetch(path: string, files: set<string>): (b: bool)
    ensures !b <==> path in files && forall i :: !OccursAt(path, "SNAPSHOT", i)
  {
    !(path in files && !Contains(path, "SNAPSHOT"))
  }

  /** A fetch is needed exactly when the file is missing or the path holds "SNAPSHOT" somewhere. */
  lemma NeedsFetchMeaning(path: string, files: set<string>)
    ensures NeedsFetch(path, files) <==> path !in files || exists i :: OccursAt(path, "SNAPSHOT", i)
  {
  }

  /** A SNAPSHOT path is fetched whether or not it is present. */
  lemma SnapshotAlwaysFetched(path: string, files: set<string>, i: int)
    requires OccursAt(path, "SNAPSHOT", i)
    ensures NeedsFetch(path, files) && NeedsFetch(path, files + {path})
  {
  }

  /** A present release is never fetched; an absent one always is. */
  lemma ReleaseFetchedIffAbsent(path: string, files: set<string>)
    requires !Contains(path, "SNAPSHOT")
    ensures NeedsFetch(path, files) <==> path !in files
  {
  }

  /**
   * What a GET of `url` into `path` reports and leaves on disk, given how the
   * exchange ended: a 200 with a complete body creates the file; another
   * status fails and writes nothing; an I/O failure before the status writes
   * nothing; one while reading the body leaves a (truncated) file.
   */
  function FetchEffect(d: Disk, path: string, url: Url, response: Response): (out: (Result<Outcome>, Disk))
    ensures out.1.root == d.root && d.files <= out.1.files <= d.files + {path}
    ensures out.0.Ok? <==> response == Answered(200)
    ensures out.0.Ok? ==> out.0.value == Downloaded(path) && path in out.1.files
    ensures response.Answered? && response.status != 200 ==>
      out == (Err(DownloadFailed(ToString(url), response.status)), d)
    ensures response.Refused? ==> out == (Err(DownloadIoError(ToString(url))), d)
  {
    match response
    case Refused => (Err(DownloadIoError(ToString(url))), d)
    case Answered(status) =>
      if status != 200 then (Err(DownloadFailed(ToString(url), status)), d)
      else (Ok(Downloaded(path)), d.(files := d.files + {path}))
    case BrokenBody => (Err(DownloadIoError(ToString(url))), d.(files := d.files + {path}))
  }

  /** Some answer of the server produces this report and this disk. */
  ghost predicate Fetched(d0: Disk, path: string, url: Url, r: Result<Outcome>, d1: Disk)
  {
    exists response :: FetchEffect(d0, path, url, response) == (r, d1)
  }

  /** A successful fetch of a release makes the next freshness test a cache hit. */
  lemma FetchedReleaseIsCached(d0: Disk, path: string, url: Url, r: Result<Outcome>, d1: Disk)
    requires Fetched(d0, path, url, r, d1) && r.Ok? && !Contains(path, "SNAPSHOT")
    ensures !NeedsFetch(path, d1.files)
  {
    var response :| FetchEffect(d0, path, url, response) == (r, d1);
  }

  /** A fetch never touches the repository root and adds at most its own file. */
  lemma FetchKeepsRoot(d0: Disk, path: string, url: Url, r: Result<Outcome>, d1: Disk)
    requires Fetched(d0, path, url, r, d1)
    ensures d1.root == d0.root && d0.files <= d1.files <= d0.files + {path}
  {
    var response :| FetchEffect(d0, path, url, response) == (r, d1);
  }

  /** "null/..." has no protocol: a remote repository that was never set fails to parse. */
  lemma NullRepoUrlMalformed(g: string, a: string, v: string)
    ensures ParseUrl(ArtifactUrl(Text(None), g, a, v)).None?
  {
    var rest := "/" + ArtifactPath(g, a, v);
    assert ArtifactUrl("null", g, a, v) == "null" + rest;
    FirstInAppend("null", rest, {':', '/'});
    assert FirstIn("null", {':', '/'}) == -1;
    assert rest[0] == '/';
    assert FirstIn(rest, {':', '/'}) == 0;
  }

  lemma NoMarks(s: string)
    requires '?' !in s && '#' !in s
    ensures '?' !in Replace(s, '.', '/') && '#' !in Replace(s, '.', '/')
  {
    var t := Replace(s, '.', '/');
    assert forall i :: 0 <= i < |t| ==> t[i] == '/' || t[i] == s[i];
  }

  lemma PathMarks(g: string, a: string, v: string)
    requires '?' !in g && '#' !in g && '?' !in a && '#' !in a && '?' !in v && '#' !in v
    ensures '?' !in ArtifactPath(g, a, v) && '#' !in ArtifactPath(g, a, v)
  {
    NoMarks(g);
  }

  lemma NoQueryAppended(base: string, suffix: string)
    requires '?' !in base && '?' !in suffix
    ensures BeforeQuery(base + suffix) == base + suffix
  {
    var f := base + suffix;
    assert forall i :: 0 <= i < |f| ==> f[i] != '?' by {
      forall i | 0 <= i < |f| ensures f[i] != '?' {
        if i < |base| { assert f[i] == base[i]; } else { assert f[i] == suffix[i - |base|]; }
      }
    }
  }

  /**
   * remoteRepo passes the containment check: for a repository URL without
   * query or fragment, a groupId that starts with neither '.' nor '/', and
   * fields that hold no '?' or '#',
   * the artifact's path relative to the repository is its Maven 2 layout path.
   */
  lemma MavenArtifactPath(repo: string, g: string, a: string, v: string)
    requires ParseUrl(repo).Some? && ParseUrl(repo).value.ref == None && '?' !in ParseUrl(repo).value.file
    requires |g| > 0 && g[0] != '.' && g[0] != '/' && '?' !in g && '#' !in g
    requires '?' !in a && '#' !in a && '?' !in v && '#' !in v
    ensures ParseUrl(ArtifactUrl(repo, g, a, v)).Some?
    ensures RelativePath(ParseUrl(ArtifactUrl(repo, g, a, v)).value, repo) == Ok(ArtifactPath(g, a, v))
  {
    var p := ArtifactPath(g, a, v);
    var suffix := "/" + p;
    var base := ParseUrl(repo).value.file;
    LayoutPathShape(g, a, v);
    assert ArtifactUrl(repo, g, a, v) == repo + suffix;
    ParseAppendPath(repo, suffix);
    NoQueryAppended(base, suffix);
    LayoutBelowBase(base, p);
    RelativeFromParts(ParseUrl(repo + suffix).value, repo, ParseUrl(repo).value, p);
  }

  /** The layout path is non-empty, starts with a directory name and holds no '?' or '#'. */
  lemma LayoutPathShape(g: string, a: string, v: string)
    requires |g| > 0 && g[0] != '.' && g[0] != '/' && '?' !in g && '#' !in g
    requires '?' !in a && '#' !in a && '?' !in v && '#' !in v
    ensures var p := ArtifactPath(g, a, v); |p| > 0 && p[0] != '/' && '?' !in p && '#' !in p
  {
    PathMarks(g, a, v);
    assert ArtifactPath(g, a, v)[0] == Replace(g, '.', '/')[0];
  }

  lemma LayoutBelowBase(base: string, p: string)
    requires |p| > 0 && p[0] != '/'
    ensures StripBase(base + ("/" + p), base) == Inside(p)
  {
    var path := base + ("/" + p);
    DropAppend(base, "/" + p, |base|);
    assert path[|base|..][1..] == p;
    assert path[|base|] == '/' && path[|base| + 1] == p[0];
    StripBaseOf(path, base, 1);
  }

  /** The URL of Maven Central. */
  function MavenCentralUrl(): (u: Url)
    ensures u.file == "/maven2" && u.ref == None
  {
    Url("https", "repo.maven.apache.org", "/maven2", None)
  }

  lemma HttpsLower()
    ensures ValidScheme("https") && LowerAscii("https") == "https"
  {
    var s := "https";
    assert forall i :: 0 <= i < |s| ==> LowerAscii(s)[i] == s[i];
  }

  lemma MavenCentralText()
    ensures ToString(MavenCentralUrl()) == MavenCentral
  {
    assert "https" + "://" + "repo.maven.apache.org" + "/maven2" + "" == MavenCentral;
  }

  lemma MavenHostPlain()
    ensures '/' !in "repo.maven.apache.org" && '?' !in "repo.maven.apache.org" && '#' !in "repo.maven.apache.org"
  {
  }

  lemma MavenCentralWellFormed()
    ensures WellFormed(MavenCentralUrl())
  {
    HttpsLower();
    MavenHostPlain();
    assert '#' !in "/maven2";
  }

  /** Maven Central parses to protocol https, its host, and the file part /maven2. */
  lemma MavenCentralParses()
    ensures ParseUrl(MavenCentral) == Some(MavenCentralUrl())
  {
    MavenCentralWellFormed();
    MavenCentralText();
    ParseToString(MavenCentralUrl());
  }

  lemma WidgetMarks()
    ensures '?' !in "org.example" && '#' !in "org.example" && '?' !in "widget" && '#' !in "widget"
    ensures '?' !in "1.2.0" && '#' !in "1.2.0"
  {
  }

  /**
   * The coordinate org.example:widget:1.2.0 on Maven Central resolves to
   * the relative path org/example/widget/1.2.0/widget-1.2.0.jar.
   */
  lemma WidgetRelativePath()
    ensures ParseUrl(ArtifactUrl(MavenCentral, "org.example", "widget", "1.2.0")).Some?
    ensures RelativePath(ParseUrl(ArtifactUrl(MavenCentral, "org.example", "widget", "1.2.0")).value, MavenCentral)
         == Ok("org/example/widget/1.2.0/widget-1.2.0.jar")
  {
    MavenCentralParses();
    WidgetMarks();
    MavenArtifactPath(MavenCentral, "org.example", "widget", "1.2.0");
    WidgetPath();
  }

  /**
   * The base that url(String) passes (corrected) always has an empty file
   * part, so the URL is inside it exactly when its path before '?' is not
   * empty, and passes the strip unless that path is all '/'.
   */
  lemma InferredBaseContains(u: Url)
    requires WellFormed(u)
    ensures var path := BeforeQuery(u.file);
      && (RelativePath(u, InferBase(u)).Ok? <==> path != "" && !AllSlashes(path))
      && (RelativePath(u, InferBase(u)) == Err(NotInRepo(ToString(u), InferBase(u))) <==> path == "")
  {
  }

  /** The URL of the fragment counterexample: http://h/a.jar#x. */
  function FragmentUrl(): (u: Url)
    ensures WellFormed(u) && u.file == "/a.jar" && u.ref == Some("x")
  {
    Url("http", "h", "/a.jar", Some("x"))
  }

  lemma FragmentBaseText()
    ensures InferBaseAsWritten(FragmentUrl()) == "http://h/a"
  {
    var t := ToString(FragmentUrl());
    assert t == "http://h/a" + ".jar#x";
  }

  lemma HttpLower()
    ensures ValidScheme("http") && LowerAscii("http") == "http"
  {
    var s := "http";
    assert forall i :: 0 <= i < |s| ==> LowerAscii(s)[i] == s[i];
  }

  lemma FragmentBaseWellFormed()
    ensures WellFormed(Url("http", "h", "/a", None))
  {
    HttpLower();
  }

  lemma FragmentBaseParses()
    ensures ParseUrl("http://h/a") == Some(Url("http", "h", "/a", None))
  {
    var v := Url("http", "h", "/a", None);
    FragmentBaseWellFormed();
    assert ToString(v) == "http://h/a";
    ParseToString(v);
  }

  /**
   * With the base as written, http://h/a.jar#x resolves to ".jar" below
   * http://h/a instead of to "a.jar".
   */
  lemma FragmentCounterexample()
    ensures InferBaseAsWritten(FragmentUrl()) == "http://h/a"
    ensures RelativePath(FragmentUrl(), InferBaseAsWritten(FragmentUrl())) == Ok(".jar")
    ensures RelativePath(FragmentUrl(), InferBase(FragmentUrl())) == Ok("a.jar")
  {
    FragmentBaseText();
    FragmentAsWritten();
    FragmentCorrected();
  }

  lemma FragmentAsWritten()
    ensures RelativePath(FragmentUrl(), "http://h/a") == Ok(".jar")
  {
    FragmentBaseParses();
    FragmentStrips();
    RelativeFromParts(FragmentUrl(), "http://h/a", Url("http", "h", "/a", None), ".jar");
  }

  lemma FragmentCorrected()
    ensures RelativePath(FragmentUrl(), InferBase(FragmentUrl())) == Ok("a.jar")
  {
    var u := FragmentUrl();
    FragmentStrips();
    RelativeFromParts(u, InferBase(u), Url(u.scheme, u.authority, "", None), "a.jar");
  }

  lemma FragmentStrips()
    ensures BeforeQuery("/a.jar") == "/a.jar"
    ensures StripBase("/a.jar", "/a") == Inside(".jar")
    ensures StripBase("/a.jar", "") == Inside("a.jar")
  {
    FragmentNoQuery();
    FragmentStripAsWritten();
    FragmentStripCorrected();
  }

  lemma FragmentNoQuery()
    ensures BeforeQuery("/a.jar") == "/a.jar"
  {
    assert '?' !in "/a.jar";
  }

  lemma FragmentStripAsWritten()
    ensures StripBase("/a.jar", "/a") == Inside(".jar")
  {
    var path := "/a.jar";
    assert path[..2] == "/a" && path[2] == '.' && path[2..] == ".jar";
    StripBaseOf(path, "/a", 0);
  }

  lemma FragmentStripCorrected()
    ensures StripBase("/a.jar", "") == Inside("a.jar")
  {
    var path := "/a.jar";
    assert path[0] == '/' && path[1] == 'a' && path[1..] == "a.jar";
    StripBaseOf(path, "", 1);
  }


  class JshBoot {
    /** The jar paths collected so far, in the order they were added. */
    var classPath: seq<string>
    /** The local repository root (absolute). */
    const repo: string
    var disk: Disk
    var currentRemoteRepo: Option<string>
    var currentGroupId: Option<string>
    var currentVersion: Option<string>
    /** The URLs fetched over HTTP so far. */
    ghost var fetches: seq<string>

    /** localRepo(repoDirectory); `disk` is the file system after mkdirs. */
    constructor LocalRepo(repoDirectory: string, disk: Disk)
      ensures repo == repoDirectory && this.disk == disk
      ensures classPath == [] && fetches == []
      ensures currentRemoteRepo == None && currentGroupId == None && currentVersion == None
    {
      repo := repoDirectory;
      this.disk := disk;
      classPath := [];
      fetches := [];
      currentRemoteRepo, currentGroupId, currentVersion := None, None, None;
    }

    /** getFile: the query cut, the containment check, then the leading-'/' strip. */
    method GetFile(url: Url, repoUrl: string) returns (r: Result<string>)
      ensures r == RelativePath(url, repoUrl)
    {
      var fn := BeforeQuery(url.file);
      var repoParsed := ParseUrl(repoUrl);
      if repoParsed.None? {
        return Err(MalformedUrl(repoUrl));
      }
      var repoUrlFile := repoParsed.value.file;
      if |fn| > |repoUrlFile| && repoUrlFile <= fn {
        fn := fn[|repoUrlFile|..];
      } else {
        return Err(NotInRepo(ToString(url), repoUrl));
      }
      var stripped := StripSlashes(fn);
      if stripped.None? {
        return Err(SlashesOnly(ToString(url)));
      }
      r := Ok(stripped.value);
    }

    /**
     * The loop of getFile: drops one leading '/' at a time; None where it
     * reads the first character of an empty remainder.
     */
    method StripSlashes(s: string) returns (r: Option<string>)
      ensures r.None? <==> LeadingCount(s, '/') == |s|
      ensures r.Some? ==> r.value == s[LeadingCount(s, '/')..]
    {
      var fn := s;
      while |fn| > 0 && fn[0] == '/'
        invariant |fn| <= |s| && fn == s[|s| - |fn|..]
        invariant LeadingCount(s, '/') == |s| - |fn| + LeadingCount(fn, '/')
        decreases |fn|
      {
        fn := fn[1..];
      }
      if |fn| == 0 {
        return None;
      }
      r := Some(fn);
    }

    /** jar(path): appends to the classpath. */
    method Jar(path: string)
      modifies this`classPath
      ensures classPath == old(classPath) + [path]
    {
      classPath := classPath + [path];
    }

    /** maven(): selects Maven Central as the remote repository. */
    method Maven()
      modifies this`currentRemoteRepo
      ensures currentRemoteRepo == Some(MavenCentral)
    {
      currentRemoteRepo := Some(MavenCentral);
    }

    method GroupId(groupId: Option<string>)
      modifies this`currentGroupId
      ensures currentGroupId == groupId
    {
      currentGroupId := groupId;
    }

    method Version(version: Option<string>)
      modifies this`currentVersion
      ensures currentVersion == version
    {
      currentVersion := version;
    }

    /** Classpath, disk and fetch log as they were before the call. */
    twostate predicate Untouched()
      reads this
    {
      classPath == old(classPath) && disk == old(disk) && fetches == old(fetches)
    }

    /** The effect of url(URL, String) on the classpath, disk and fetch log. */
    twostate predicate Resolved(url: Url, repoUrl: string, new r: Result<Outcome>)
      reads this
    {
      var p := JarPath(old(disk).root, repo, RelativePath(url, repoUrl));
      && disk.root == old(disk).root
      && match p
      case Err(e) => r == Err(e) && Untouched()
      case Ok(path) =>
        && classPath == old(classPath) + [path]
        && (!NeedsFetch(path, old(disk).files) ==>
              r == Ok(CacheHit(path)) && disk == old(disk) && fetches == old(fetches))
        && (NeedsFetch(path, old(disk).files) ==>
              fetches == old(fetches) + [ToString(url)] && Fetched(old(disk), path, url, r, disk))
    }

    /** The HTTP GET of `url` into `path`; the server's answer is arbitrary. */
    method Fetch(url: Url, path: string) returns (r: Result<Outcome>)
      modifies this`disk, this`fetches
      ensures fetches == old(fetches) + [ToString(url)]
      ensures Fetched(old(disk), path, url, r, disk)
    {
      fetches := fetches + [ToString(url)];
      var response: Response :| true;
      match response {
        case Refused =>
          r := Err(DownloadIoError(ToString(url)));
        case Answered(status) =>
          if status != 200 {
            r := Err(DownloadFailed(ToString(url), status));
          } else {
            disk := disk.(files := disk.files + {path});
            r := Ok(Downloaded(path));
          }
        case BrokenBody =>
          disk := disk.(files := disk.files + {path});
          r := Err(DownloadIoError(ToString(url)));
      }
      assert FetchEffect(old(disk), path, url, response) == (r, disk);
    }

    /**
     * url(URL, String): checks the repository root, adds the local path to
     * the classpath, then fetches unless a release is already present.
     */
    method Resolve(url: Url, repoUrl: string) returns (r: Result<Outcome>)
      modifies this`classPath, this`disk, this`fetches
      ensures disk.root == old(disk).root
      ensures var p := JarPath(old(disk).root, repo, RelativePath(url, repoUrl));
        && (p.Err? ==> r == Err(p.error) && Untouched())
        && (p.Ok? ==> classPath == old(classPath) + [p.value])
        && (p.Ok? && !NeedsFetch(p.value, old(disk).files) ==>
              r == Ok(CacheHit(p.value)) && disk == old(disk) && fetches == old(fetches))
        && (p.Ok? && NeedsFetch(p.value, old(disk).files) ==>
              fetches == old(fetches) + [ToString(url)] && Fetched(old(disk), p.value, url, r, disk))
    {
      if disk.root == Missing {
        return Err(RepoMissing(repo));
      }
      if disk.root == NotDirectory {
        return Err(RepoNotDirectory(repo));
      }
      var rel := GetFile(url, repoUrl);
      if rel.Err? {
        return Err(rel.error);
      }
      var path := repo + "/" + rel.value;
      Jar(path);
      if path in disk.files && !Contains(path, "SNAPSHOT") {
        return Ok(CacheHit(path));
      }
      r := Fetch(url, path);
    }

    /** url(String): resolves the URL against the base that precedes its file part. */
    method AddUrl(urlString: string) returns (r: Result<Outcome>)
      modifies this`classPath, this`disk, this`fetches
      ensures ParseUrl(urlString).None? ==> r == Err(MalformedUrl(urlString)) && Untouched()
      ensures ParseUrl(urlString).Some? ==>
        Resolved(ParseUrl(urlString).value, InferBase(ParseUrl(urlString).value), r)
      ensures ParseUrl(urlString).Some? && ParseUrl(urlString).value.ref == None ==>
        Resolved(ParseUrl(urlString).value, InferBaseAsWritten(ParseUrl(urlString).value), r)
    {
      var url := ParseUrl(urlString);
      if url.None? {
        return Err(MalformedUrl(urlString));
      }
      InferBaseAsWrittenAgrees(url.value);
      r := Resolve(url.value, InferBase(url.value));
    }

    /** The effect of remoteRepo(gav, repoUrl). */
    twostate predicate RemoteRepoDone(gav: Gav, repoUrl: Option<string>, new r: Result<Outcome>)
      reads this
    {
      match CheckGav(gav)
      case Some(e) => r == Err(e) && Untouched()
      case None =>
        var text := ArtifactUrl(Text(repoUrl), gav.groupId.value, gav.artifactId.value, gav.version.value);
        match ParseUrl(text)
        case None => r == Err(MalformedUrl(text)) && Untouched()
        case Some(url) => repoUrl.Some? && Resolved(url, repoUrl.value, r)
    }

    /** remoteRepo: field checks, the artifact URL, then url(URL, String). */
    method RemoteRepo(gav: Gav, repoUrl: Option<string>) returns (r: Result<Outcome>)
      modifies this`classPath, this`disk, this`fetches
      ensures RemoteRepoDone(gav, repoUrl, r)
    {
      var failure := CheckGav(gav);
      if failure.Some? {
        return Err(failure.value);
      }
      var text := ArtifactUrl(Text(repoUrl), gav.groupId.value, gav.artifactId.value, gav.version.value);
      var url := ParseUrl(text);
      if url.None? {
        return Err(MalformedUrl(text));
      }
      assert repoUrl.Some? by {
        if repoUrl.None? {
          NullRepoUrlMalformed(gav.groupId.value, gav.artifactId.value, gav.version.value);
        }
      }
      r := Resolve(url.value, repoUrl.value);
    }

    /** download(gav): remoteRepo against the current remote repository. */
    method Download(gav: Gav) returns (r: Result<Outcome>)
      modifies this`classPath, this`disk, this`fetches
      ensures RemoteRepoDone(gav, currentRemoteRepo, r)
    {
      r := RemoteRepo(gav, currentRemoteRepo);
    }

    /** artifactId(a): downloads currentGroupId:a:currentVersion. */
    method ArtifactId(artifactId: Option<string>) returns (r: Result<Outcome>)
      modifies this`classPath, this`disk, this`fetches
      ensures RemoteRepoDone(Gav(currentGroupId, artifactId, currentVersion), currentRemoteRepo, r)
    {
      r := Download(Gav(currentGroupId, artifactId, currentVersion));
    }

    /** maven(g, a, v): Maven Central, then the download. */
    method MavenCoordinates(groupId: Option<string>, artifactId: Option<string>, version: Option<string>)
      returns (r: Result<Outcome>)
      modifies this`currentRemoteRepo, this`classPath, this`disk, this`fetches
      ensures currentRemoteRepo == Some(MavenCentral)
      ensures RemoteRepoDone(Gav(groupId, artifactId, version), Some(MavenCentral), r)
    {
      Maven();
      r := Download(Gav(groupId, artifactId, version));
    }

    /**
     * maven(dependency): Maven Central is selected before the dependency is
     * parsed, so it stays selected when parsing fails.
     */
    method MavenDependency(dependency: string) returns (r: Result<Outcome>)
      modifies this`currentRemoteRepo, this`classPath, this`disk, this`fetches
      ensures currentRemoteRepo == Some(MavenCentral)
      ensures ParseGav(dependency).Err? ==> r == Err(ParseGav(dependency).error) && Untouched()
      ensures ParseGav(dependency).Ok? ==> RemoteRepoDone(ParseGav(dependency).value, Some(MavenCentral), r)
    {
      Maven();
      var gav := ParseGav(dependency);
      if gav.Err? {
        return Err(gav.error);
      }
      r := Download(gav.value);
    }

    /**
     * The command line execute(mainClass, args) starts: the classpath entries
     * joined with the platform's path separator, in the order they were added.
     */
    function Command(mainClass: string, args: seq<string>, separator: char): (cmd: seq<string>)
      reads this
      ensures |cmd| == 4 + |args| && cmd[0] == "java" && cmd[1] == "-cp" && cmd[3] == mainClass && cmd[4..] == args
    {
      ["java", "-cp", Join(classPath, separator), mainClass] + args
    }

    /** The classpath argument splits back into the entries, in order, when none holds the separator. */
    lemma CommandClassPath(mainClass: string, args: seq<string>, separator: char)
      requires |classPath| > 0 && forall k :: 0 <= k < |classPath| ==> separator !in classPath[k]
      ensures Split(Command(mainClass, args, separator)[2], separator) == classPath
    {
      SplitJoin(classPath, separator);
    }

    /** A release already in the local repository resolves as a cache hit and fetches nothing. */
    method ResolveCached(url: Url, repoUrl: string, ghost path: string) returns (r: Result<Outcome>)
      modifies this`classPath, this`disk, this`fetches
      requires JarPath(disk.root, repo, RelativePath(url, repoUrl)) == Ok(path) && !NeedsFetch(path, disk.files)
      ensures r == Ok(CacheHit(path)) && classPath == old(classPath) + [path]
      ensures disk == old(disk) && fetches == old(fetches)
    {
      r := Resolve(url, repoUrl);
    }

    /**
     * Any resolution of a path adds it once to the classpath and fetches at
     * most once; a SNAPSHOT path is fetched every time.
     */
    method ResolveOnce(url: Url, repoUrl: string, ghost path: string) returns (r: Result<Outcome>)
      modifies this`classPath, this`disk, this`fetches
      requires JarPath(disk.root, repo, RelativePath(url, repoUrl)) == Ok(path)
      ensures classPath == old(classPath) + [path] && disk.root == old(disk).root
      ensures JarPath(disk.root, repo, RelativePath(url, repoUrl)) == Ok(path)
      ensures |old(fetches)| <= |fetches| <= |old(fetches)| + 1
      ensures r.Ok? && !Contains(path, "SNAPSHOT") ==> !NeedsFetch(path, disk.files)
      ensures Contains(path, "SNAPSHOT") ==> fetches == old(fetches) + [ToString(url)]
    {
      ghost var d0 := disk;
      r := Resolve(url, repoUrl);
      if NeedsFetch(path, d0.files) && r.Ok? && !Contains(path, "SNAPSHOT") {
        FetchedReleaseIsCached(d0, path, url, r, disk);
      }
    }

    /**
     * Resolving the same release twice: the path is on the classpath twice,
     * and once the first resolution succeeded the second is a cache hit.
     */
    method ResolveTwice(url: Url, repoUrl: string, ghost path: string)
      returns (first: Result<Outcome>, second: Result<Outcome>)
      modifies this`classPath, this`disk, this`fetches
      requires JarPath(disk.root, repo, RelativePath(url, repoUrl)) == Ok(path) && !Contains(path, "SNAPSHOT")
      ensures classPath == old(classPath) + [path] + [path]
      ensures first.Ok? ==> second == Ok(CacheHit(path)) && |fetches| <= |old(fetches)| + 1
      ensures |fetches| <= |old(fetches)| + 2
    {
      first := ResolveOnce(url, repoUrl, path);
      if first.Ok? {
        second := ResolveCached(url, repoUrl, path);
      } else {
        second := ResolveOnce(url, repoUrl, path);
      }
    }

    /**
     * Resolving A, then B, then A again: the classpath records all three, in
     * that order, with no deduplication.
     */
    method ResolveInOrder(a: Url, aRepo: string, b: Url, bRepo: string, ghost pa: string, ghost pb: string)
      returns (ra: Result<Outcome>, rb: Result<Outcome>, again: Result<Outcome>)
      modifies this`classPath, this`disk, this`fetches
      requires JarPath(disk.root, repo, RelativePath(a, aRepo)) == Ok(pa)
      requires JarPath(disk.root, repo, RelativePath(b, bRepo)) == Ok(pb)
      ensures classPath == old(classPath) + [pa] + [pb] + [pa]
    {
      ra := ResolveOnce(a, aRepo, pa);
      rb := ResolveOnce(b, bRepo, pb);
      again := ResolveOnce(a, aRepo, pa);
    }
  }
}
