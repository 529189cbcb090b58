# JshBoot in Dafny

JshBoot is a small fluent bootstrap for Java shell scripts. It turns Maven
coordinates (`groupId:artifactId:version`) or direct jar URLs into entries
on a classpath, caching every jar in a local repository directory. A jar
is downloaded over HTTP only when it is missing, or when its path contains
`SNAPSHOT`. Finally it builds the `java -cp …` command line.

This project models that core and proves its properties:

- the coordinate parser (`gav`);
- the field checks and the Maven 2 artifact URL of `remoteRepo`;
- the relative-path computation of `getFile`, including its slash-stripping loop;
- the repository base that `url(String)` infers;
- the resolution step `url(URL, String)`: the checks on the repository root, the classpath append, the freshness decision and an abstract fetch;
- the builder state that `jar`, `maven()`, `maven(String)`, `maven(g, a, v)`, `groupId`, `version`, `artifactId`, `download` and `localRepo(String)` change.

Modules:

- `Failures` holds `Option`, `Result` and `Error`. `Error` has one variant for each exception the bootstrap raises.
- `Strings` holds the `java.lang.String` operations used: `indexOf`, `split(c, -1)`, `String.join`, `replaceAll("\\.", "/")`, `contains` and `toLowerCase` on ASCII.
- `Urls` is the part of `java.net.URL` that the bootstrap relies on: parsing into `scheme://authority file#ref`, `getFile()` and `toString()`. It also states the base inference of `url(String)`.
- `Coordinates` holds `GAV`, its parser, its checks and the artifact URL layout.
- `Boot` holds the class `JshBoot`:
  - `classPath` is a `seq<string>` that the methods append to.
  - The builder fields are `Option<string>`, where `None` is Java `null`.
  - The file system is a `Disk`: the state of the repository root plus the set of existing files.
  - `fetches` is a ghost log of the URLs requested over HTTP.

Each operation returns a `Result` instead of throwing. Every error aborts
the call that raised it, as in the source.

Behaviour of the code that the model keeps:

- The code opens the destination file before it reads the body (JshBoot.java:243), so a body that fails part-way leaves a truncated file. `FetchEffect` models exactly that.
- An `IOException` while connecting, reading or writing propagates as it is (JshBoot.java:229-249). The model keeps it as its own error, `DownloadIoError`, apart from the status error `DownloadFailed`.
- When the remainder after the base is only `/` characters, the loop at JshBoot.java:67 indexes past the end. The model reports this as the error `SlashesOnly`.
- Against the corrected base of `url(String)`, `getFile`'s containment check (JshBoot.java:62) passes exactly when the file part before the `?` is not empty. `getFile` then succeeds exactly when that part is also not all `/`. `InferredBaseContains` states both conditions.

## Model

| member | source | states |
|---|---|---|
| Coordinates.ParseGav | JshBoot.java:124-130 | succeeds exactly when the dependency has two ':' characters (three fields, empty ones kept); the fields come back in order, free of ':', and rejoin to the input; otherwise the error names the dependency |
| Coordinates.GavTextParses | JshBoot.java:184-186 | the text `g:a:v` of a coordinate with colon-free, non-null fields parses back to that coordinate |
| Coordinates.ParseGavOf | JshBoot.java:124-130 | every triple of colon-free strings, empty ones included, is parsed back from its text `g:a:v` |
| Coordinates.TwoPartsMalformed | JshBoot.java:125-128 | `org.foo:bar` is rejected as malformed |
| Coordinates.EmptyGroupIdRejected | JshBoot.java:189-190 | `:bar:1.0` parses with an empty groupId, which the field checks then reject by name |
| Coordinates.CheckGav | JshBoot.java:189-197 | passes exactly when all three fields are non-null and non-empty; otherwise reports the first bad field in the order groupId, artifactId, version: null gives a `NullReference`, empty gives an `EmptyField` naming the field |
| Coordinates.ArtifactUrl | JshBoot.java:198 | the artifact URL starts with the repository and a '/', and the rest is the Maven 2 layout path of the coordinate |
| Coordinates.GroupDirectories | JshBoot.java:198 | each '.'-separated name of a groupId that has no '/' becomes exactly one directory of the path |
| Coordinates.WidgetPath | JshBoot.java:198 | `org.example:widget:1.2.0` lays out as `org/example/widget/1.2.0/widget-1.2.0.jar` |
| Coordinates.WidgetOnMavenCentral | JshBoot.java:145 | on Maven Central that coordinate is `https://repo.maven.apache.org/maven2/org/example/widget/1.2.0/widget-1.2.0.jar` |
| Boot.MavenCentralParses | JshBoot.java:145 | the Maven Central URL parses to protocol `https`, host `repo.maven.apache.org` and file part `/maven2`, with no fragment |
| Boot.WidgetRelativePath | JshBoot.java:198-200 | the artifact URL of `org.example:widget:1.2.0` on Maven Central parses, and its path relative to Maven Central is `org/example/widget/1.2.0/widget-1.2.0.jar` |
| Strings.FirstIn | JshBoot.java:58 | the result is -1 exactly when no character of the set occurs; otherwise it is the position of the first one |
| Strings.Count | JshBoot.java:125 | the count is at most the length, and zero exactly when the character does not occur |
| Strings.Split | JshBoot.java:125 | gives one more part than there are delimiters; no part holds the delimiter; joining the parts gives back the input |
| Strings.SplitJoin | JshBoot.java:125 | splitting undoes joining a non-empty list of parts that are free of the delimiter |
| Strings.Join | JshBoot.java:167 | joining no parts gives the empty text; otherwise the first part is a prefix of the result (`SplitJoin` is its inverse) |
| Strings.Contains | JshBoot.java:223 | true exactly when the text occurs at some position |
| Strings.Replace | JshBoot.java:198 | keeps the length, and changes exactly the occurrences of one character into another |
| Urls.ParseUrl | JshBoot.java:101 | every URL that parses is well formed: a valid lower-case protocol, a non-empty authority, a file part that is empty or starts with '/' or '?', and no '#' in the file part |
| Urls.ToString | JshBoot.java:103 | the text starts with protocol, `://` and authority, and ends with the file part followed by the fragment, if any (`ParseToString` is its inverse) |
| Urls.ParseToString | JshBoot.java:101-103 | parsing the text of any well-formed URL gives that URL back |
| Urls.ParseUrlText | JshBoot.java:101-103 | the text of a parsed URL is its input with the protocol lower-cased |
| Urls.ParseAppendPath | JshBoot.java:198 | appending a '/'-path free of '#' to a URL without a fragment parses to the same URL with that path appended to its file part |
| Urls.InferBase | JshBoot.java:102-103 | the corrected base parses to the same protocol and authority with an empty file part; the URL's text is that base, then the file part, then the fragment |
| Urls.InferBaseAsWritten | JshBoot.java:102-103 | the base as written is the prefix of `toString()` that leaves out as many characters as `getFile()` has |
| Urls.InferBaseAsWrittenAgrees | JshBoot.java:102-103 | the base as written equals the corrected one exactly when the URL has no fragment |
| Urls.InferBaseAsWrittenWithFragment | JshBoot.java:102-103 | with a fragment `#r` and a file part longer than `r`, the base as written keeps the first `|r|+1` characters of the file part |
| Boot.BeforeQuery | JshBoot.java:56-60 | the result is a prefix of the file part that holds no '?'; when it is shorter, a '?' follows it |
| Boot.StripBase | JshBoot.java:62-69 | the path is outside the base exactly when it is not strictly longer than the base or does not start with it; it is only slashes exactly when everything after the base is '/'; otherwise the result is a non-empty suffix that does not start with '/' and is preceded only by '/' characters |
| Boot.StripBaseOf | JshBoot.java:62-69 | the relative path is what follows the base and a run of `k` '/' characters, when some other character comes next |
| Boot.RelativePath | JshBoot.java:55-71 | the result is `MalformedUrl` exactly when the repository URL does not parse; errors are only `MalformedUrl`, `NotInRepo` or `SlashesOnly`; a relative path is a non-empty suffix of the file part before '?' and does not start with '/' |
| Boot.JshBoot.GetFile | JshBoot.java:55-71 | the method computes the relative path of the URL below the repository URL, with each error case |
| Boot.JshBoot.StripSlashes | JshBoot.java:67-69 | the loop fails exactly when its input is all '/' characters; otherwise it returns the input without its run of leading '/' |
| Boot.MavenArtifactPath | JshBoot.java:198-200 | when the repository URL has no query and no fragment, the groupId starts with neither '.' nor '/', and no field holds '?' or '#', the artifact URL parses, passes the containment check, and resolves to its Maven 2 layout path |
| Boot.NullRepoUrlMalformed | JshBoot.java:181 | when the remote repository was never set, the artifact URL begins with "null/", which does not parse |
| Boot.InferredBaseContains | JshBoot.java:100-106 | against the corrected base, a URL resolves exactly when its path before '?' is neither empty nor all '/'; it is reported as not in the repository exactly when that path is empty |
| Boot.FragmentCounterexample | JshBoot.java:102-104 | `http://h/a.jar#x` gets the base `http://h/a` as written and resolves to `.jar`; against the corrected base `http://h` it resolves to `a.jar` |
| Boot.JarPath | JshBoot.java:212-218 | fails with the repository path when the root is missing or is not a directory; passes an error from `getFile` through; otherwise the path is the root, '/', and the relative path |
| Boot.NeedsFetch | JshBoot.java:223 | no fetch is needed exactly when the file exists and "SNAPSHOT" occurs at no position of its path |
| Boot.NeedsFetchMeaning | JshBoot.java:223 | a fetch is needed exactly when the file is absent or its path contains "SNAPSHOT" |
| Boot.SnapshotAlwaysFetched | JshBoot.java:223 | a SNAPSHOT path needs a fetch whether it is present or not |
| Boot.ReleaseFetchedIffAbsent | JshBoot.java:223 | a path without SNAPSHOT needs a fetch exactly when it is absent |
| Boot.FetchEffect | JshBoot.java:229-249 | never changes the root, and adds at most the target file; succeeds exactly on status 200, and then the file exists; any other status fails with that status and leaves the disk unchanged; a failure before the status leaves it unchanged too |
| Boot.FetchedReleaseIsCached | JshBoot.java:223-249 | after a successful fetch of a release, the next freshness test is a cache hit |
| Boot.FetchKeepsRoot | JshBoot.java:229-249 | whatever the server answers, a fetch keeps the root and adds at most its own file |
| Boot.JshBoot.LocalRepo | JshBoot.java:78-83 | a new bootstrap has the given repository, an empty classpath and no builder state |
| Boot.JshBoot.Jar | JshBoot.java:95-98 | appends the path at the end of the classpath |
| Boot.JshBoot.Fetch | JshBoot.java:229-249 | logs the URL once; its report and the new disk are those of `FetchEffect` for some server answer |
| Boot.JshBoot.Resolve | JshBoot.java:211-250 | an error from the root checks or from `getFile` changes nothing; otherwise the local path is appended exactly once, before the freshness test; a cache hit changes nothing else and fetches nothing; a miss fetches the URL exactly once |
| Boot.JshBoot.ResolveOnce | JshBoot.java:218-237 | one resolution adds its path to the classpath and fetches at most once; a SNAPSHOT path is fetched every time; a successful resolution of a release leaves it cached |
| Boot.JshBoot.ResolveCached | JshBoot.java:220-226 | a release already present is a cache hit; only the classpath changes |
| Boot.JshBoot.ResolveTwice | JshBoot.java:218-237 | resolving one release twice puts its path on the classpath twice and fetches at most twice; when the first resolution succeeds, the second is a cache hit and there is at most one fetch in all |
| Boot.JshBoot.ResolveInOrder | JshBoot.java:95-98 | resolving A, B, then A again gives the classpath `[A, B, A]` after the old entries, with no deduplication |
| Boot.JshBoot.AddUrl | JshBoot.java:100-106 | a URL that does not parse is a `MalformedUrl` error and changes nothing; otherwise the URL is resolved against the corrected base, protocol and authority only; for a URL without a fragment that is the same as resolving against the base that line 103 computes |
| Boot.JshBoot.RemoteRepo | JshBoot.java:188-201 | the field checks come first and change nothing when they fail; then the artifact URL is built and parsed; then it is resolved against the repository |
| Boot.JshBoot.Download | JshBoot.java:180-182 | `remoteRepo` against the current remote repository |
| Boot.JshBoot.Maven | JshBoot.java:144-147 | selects Maven Central |
| Boot.JshBoot.GroupId | JshBoot.java:148-151 | sets the current groupId |
| Boot.JshBoot.Version | JshBoot.java:153-156 | sets the current version |
| Boot.JshBoot.ArtifactId | JshBoot.java:158-161 | downloads the current groupId, the given artifactId and the current version |
| Boot.JshBoot.MavenCoordinates | JshBoot.java:138-142 | selects Maven Central, then downloads the given coordinate |
| Boot.JshBoot.MavenDependency | JshBoot.java:132-136 | selects Maven Central before parsing, so it stays selected when parsing fails; a parse failure changes nothing else; otherwise downloads the parsed coordinate |
| Boot.JshBoot.Command | JshBoot.java:164-170 | the command is `java`, `-cp`, the classpath argument, the main class, then the arguments in order |
| Boot.JshBoot.CommandClassPath | JshBoot.java:166-169 | when the classpath is non-empty and no entry holds the separator, the classpath argument splits back into the classpath entries, in order |

## Left out

- HTTP mechanics (JshBoot.java:229-249) are left out: `HttpURLConnection`, timeouts, redirects and the 8 KiB copy loop. `Fetch` chooses the server's answer nondeterministically: no status, a status, or 200 with a body that breaks. The bytes written are not modelled, so the claim that file content equals the response body is not stated.
- The static initialiser that reads timeouts from the environment (JshBoot.java:38-52) and `localRepo()` (JshBoot.java:85-93) are configuration, not logic. They are not modelled.
- `mkdirs` (JshBoot.java:81, 241) is not modelled. The `disk` that the constructor receives is the file system after the root was created, and the creation of parent directories is folded into the fetch.
- The logging helpers (JshBoot.java:22-36) and every `info` call are console output, so they are left out.
- Process spawning in `execute` (JshBoot.java:164-178) is left out. Only its command line is modelled, by `Command`. The path separator, a system property, is a parameter.
- `getCanonicalFile` (JshBoot.java:218) is modelled as the plain join `root + "/" + relative`. `..` and symbolic links are not resolved. The root is taken to be already absolute, so `getAbsolutePath` is the identity.
- A failure of `getInputStream()` (JshBoot.java:238) or of opening the output file (JshBoot.java:243) leaves the file system as it was, so it is covered by the `Refused` outcome: an I/O error and an unchanged disk. A failure while copying the body is `BrokenBody`. Failures of `mkdirs` are not modelled.
- Boot.JshBoot.Fetch: states that the outcome is the effect of some server answer, and does not tie it to a particular server. `fetches` is a ghost log used only to count requests.
- Boot.JshBoot.AddUrl: resolves against the corrected base (`InferBase`), not the base that JshBoot.java:103 computes. The two differ only on a URL with a `#fragment`, for which the source resolves against a base that ends inside the file part. That source behaviour is modelled by `InferBaseAsWritten` and shown by `FragmentCounterexample`, but it is not what the class does.
- Boot.JshBoot.GetFile: where the source throws `StringIndexOutOfBoundsException` on a remainder made only of slashes (JshBoot.java:67), the model returns the error `SlashesOnly`.
- Urls.ParseUrl covers only the hierarchical form `scheme://authority…`. URLs without an authority (such as `file:/x`) are rejected, which Java accepts. There is no protocol-handler lookup and no port validation. Only ASCII letters of the protocol are lower-cased. Java's `new URL` also trims leading and trailing characters up to `' '` and skips a leading `url:` prefix; the model does neither.
- A null `path` passed to `jar`, a null `urlString` passed to `url(String)` and a null `dependency` passed to `maven(String)` are not modelled. Null coordinate fields are modelled.

## Findings

| source | as written | input that shows it | evidently intended | confidence | as-written member | corrected member |
|---|---|---|---|---|---|---|
| JshBoot.java:102-103 | the base is `url.toString()` minus as many trailing characters as `url.getFile()` has, but `toString()` also ends with the `#ref` fragment, which `getFile()` does not count | `http://h/a.jar#x` gives the base `http://h/a` and the relative path `.jar` | the base `http://h` (protocol and authority only), so the relative path is `a.jar` | not executed | Boot.FragmentCounterexample | Boot.InferredBaseContains |

`Urls.InferBaseAsWritten` models line 103 as written, and
`Urls.InferBaseAsWrittenAgrees` shows that it is correct exactly on URLs
without a fragment. `Urls.InferBase` is the corrected base, and
`Boot.JshBoot.AddUrl` uses it.
