/**
 * Maven coordinates (groupId:artifactId:version): parsing, the field checks
 * done before a download, and the Maven 2 repository layout of an artifact URL.
 */
module Coordinates {
  import opened Failures
  import opened Strings

  /** The default remote repository, set by maven() (JshBoot.java:145). */
  const MavenCentral: string := "https://repo.maven.apache.org/maven2"

  /** A coordinate as JshBoot holds it; a None field is a Java null. */
  datatype Gav = Gav(groupId: Option<string>, artifactId: Option<string>, version: Option<string>)

  /** A Java String reference in a string concatenation: null reads "null". */
  function Text(s: Option<string>): string
  {
    match s
    case None => "null"
    case Some(t) => t
  }

  /** "groupId:artifactId:version" as the error messages print it. */
  function GavText(gav: Gav): string
  {
    Text(gav.groupId) + ":" + Text(gav.artifactId) + ":" + Text(gav.version)
  }

  /** The text of a coordinate with non-null, colon-free fields parses back to it. */
  lemma GavTextParses(gav: Gav)
    requires gav.groupId.Some? && gav.artifactId.Some? && gav.version.Some?
    requires ':' !in gav.groupId.value && ':' !in gav.artifactId.value && ':' !in gav.version.value
    ensures ParseGav(GavText(gav)) == Ok(gav)
  {
    ParseGavOf(gav.groupId.value, gav.artifactId.value, gav.version.value);
  }

  /**
   * gav(String): split on ':' keeping empty fields; exactly three parts are
   * required and become groupId, artifactId and version, in that order.
   */
  function ParseGav(dependency: string): (r: Result<Gav>)
    ensures r.Ok? <==> Count(dependency, ':') == 2
    ensures r.Err? ==> r.error == MalformedDependency(dependency)
    ensures r.Ok? ==>
      && r.value.groupId.Some? && r.value.artifactId.Some? && r.value.version.Some?
      && ':' !in r.value.groupId.value && ':' !in r.value.artifactId.value && ':' !in r.value.version.value
      && dependency == r.value.groupId.value + ":" + r.value.artifactId.value + ":" + r.value.version.value
  {
    var parts := Split(dependency, ':');
    if |parts| != 3 then Err(MalformedDependency(dependency))
    else
      JoinThree(parts, ':');
      Ok(Gav(Some(parts[0]), Some(parts[1]), Some(parts[2])))
  }

  /** Every colon-free triple is parsed back from its text, empty fields included. */
  lemma ParseGavOf(g: string, a: string, v: string)
    requires ':' !in g && ':' !in a && ':' !in v
    ensures ParseGav(g + ":" + a + ":" + v) == Ok(Gav(Some(g), Some(a), Some(v)))
  {
    var parts := [g, a, v];
    JoinThree(parts, ':');
    SplitJoin(parts, ':');
  }

  predicate Filled(s: Option<string>) { s.Some? && s.value != "" }

  /**
   * The checks at the start of remoteRepo, in the source's order: groupId,
   * then artifactId, then version. Reading the length of a null field is a
   * null dereference; an empty field is reported by name.
   */
  function CheckGav(gav: Gav): (r: Option<Error>)
    ensures r.None? <==> Filled(gav.groupId) && Filled(gav.artifactId) && Filled(gav.version)
    ensures gav.groupId.None? ==> r == Some(NullReference)
    ensures gav.groupId == Some("") ==> r == Some(EmptyField(GavText(gav), GroupId))
    ensures Filled(gav.groupId) && gav.artifactId.None? ==> r == Some(NullReference)
    ensures Filled(gav.groupId) && gav.artifactId == Some("") ==> r == Some(EmptyField(GavText(gav), ArtifactId))
    ensures Filled(gav.groupId) && Filled(gav.artifactId) && gav.version.None? ==> r == Some(NullReference)
    ensures Filled(gav.groupId) && Filled(gav.artifactId) && gav.version == Some("") ==>
              r == Some(EmptyField(GavText(gav), Version))
  {
    if gav.groupId.None? then Some(NullReference)
    else if gav.groupId.value == "" then Some(EmptyField(GavText(gav), GroupId))
    else if gav.artifactId.None? then Some(NullReference)
    else if gav.artifactId.value == "" then Some(EmptyField(GavText(gav), ArtifactId))
    else if gav.version.None? then Some(NullReference)
    else if gav.version.value == "" then Some(EmptyField(GavText(gav), Version))
    else None
  }

  /** Where the Maven 2 layout puts an artifact, relative to the repository. */
  function ArtifactPath(g: string, a: string, v: string): string
  {
    Replace(g, '.', '/') + "/" + a + "/" + v + "/" + a + "-" + v + ".jar"
  }

  /** The artifact URL remoteRepo builds (JshBoot.java:198). */
  function ArtifactUrl(repo: string, g: string, a: string, v: string): (url: string)
    ensures repo + "/" <= url && url[|repo| + 1..] == ArtifactPath(g, a, v)
  {
    repo + "/" + ArtifactPath(g, a, v)
  }

  /**
   * Each '.'-separated name of the groupId becomes one directory: the
   * replaced groupId splits on '/' exactly as the groupId splits on '.'.
   */
  lemma {:induction false} GroupDirectories(g: string)
    requires '/' !in g
    ensures Split(Replace(g, '.', '/'), '/') == Split(g, '.')
    decreases |g|
  {
    var h := Replace(g, '.', '/');
    var i := FirstIn(g, {'.'});
    assert forall j :: 0 <= j < |g| ==> (h[j] == '/' <==> g[j] == '.');
    assert FirstIn(h, {'/'}) == i;
    if i == -1 {
      assert h == g;
    } else {
      assert h[..i] == g[..i];
      assert h[i + 1..] == Replace(g[i + 1..], '.', '/');
      GroupDirectories(g[i + 1..]);
      assert Split(h, '/') == [h[..i]] + Split(h[i + 1..], '/');
      assert Split(g, '.') == [g[..i]] + Split(g[i + 1..], '.');
    }
  }

  /** A two-part coordinate is malformed. */
  lemma TwoPartsMalformed()
    ensures ParseGav("org.foo:bar") == Err(MalformedDependency("org.foo:bar"))
  {
    assert "org.foo:bar" == "org.foo" + [':'] + "bar";
    CountOne("org.foo", ':', "bar");
  }

  /** An empty groupId passes parsing and is rejected by the field checks. */
  lemma EmptyGroupIdRejected()
    ensures ParseGav(":bar:1.0") == Ok(Gav(Some(""), Some("bar"), Some("1.0")))
    ensures CheckGav(Gav(Some(""), Some("bar"), Some("1.0"))) == Some(EmptyField(":bar:1.0", GroupId))
  {
    assert ':' !in "bar" && ':' !in "1.0";
    assert "" + ":" + "bar" + ":" + "1.0" == ":bar:1.0";
    ParseGavOf("", "bar", "1.0");
    assert GavText(Gav(Some(""), Some("bar"), Some("1.0"))) == ":bar:1.0";
  }

  lemma WidgetGroupDirectory()
    ensures Replace("org.example", '.', '/') == "org/example"
  {
    var g, h := "org.example", "org/example";
    assert forall i :: 0 <= i < |g| ==> h[i] == if g[i] == '.' then '/' else g[i];
  }

  lemma WidgetPathText()
    ensures "org/example" + "/" + "widget" + "/" + "1.2.0" + "/" + "widget" + "-" + "1.2.0" + ".jar"
         == "org/example/widget/1.2.0/widget-1.2.0.jar"
  {
  }

  /** The coordinate org.example:widget:1.2.0 in the Maven 2 layout. */
  lemma WidgetPath()
    ensures ArtifactPath("org.example", "widget", "1.2.0") == "org/example/widget/1.2.0/widget-1.2.0.jar"
  {
    WidgetGroupDirectory();
    WidgetPathText();
  }

  /** The coordinate org.example:widget:1.2.0 on Maven Central. */
  lemma WidgetOnMavenCentral()
    ensures ArtifactUrl(MavenCentral, "org.example", "widget", "1.2.0") ==
      MavenCentral + "/" + "org/example/widget/1.2.0/widget-1.2.0.jar"
  {
    WidgetPath();
  }
}
