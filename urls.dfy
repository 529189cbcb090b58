/**
 * The part of java.net.URL that the bootstrap depends on: parsing a
 * hierarchical URL "scheme://authority/path?query#ref", getFile() (path and
 * query) and toString().
 */
module Urls {
  import opened Failures
  import opened Strings

  /** A parsed URL; `file` is what URL.getFile() returns, `ref` the fragment. */
  datatype Url = Url(scheme: string, authority: string, file: string, ref: Option<string>)

  predicate IsLetter(c: char) { 'a' <= c <= 'z' || 'A' <= c <= 'Z' }

  predicate IsSchemeChar(c: char) { IsLetter(c) || '0' <= c <= '9' || c == '+' || c == '-' || c == '.' }

  /** A protocol name as URL accepts it: a letter, then letters, digits, '+', '-' or '.'. */
  predicate ValidScheme(s: string)
  {
    |s| > 0 && IsLetter(s[0]) && forall i :: 0 <= i < |s| ==> IsSchemeChar(s[i])
  }

  /** What a parsed URL always satisfies. */
  ghost predicate WellFormed(u: Url)
  {
    && ValidScheme(u.scheme) && LowerAscii(u.scheme) == u.scheme
    && u.authority != "" && '/' !in u.authority && '?' !in u.authority && '#' !in u.authority
    && (u.file == "" || u.file[0] == '/' || u.file[0] == '?')
    && '#' !in u.file
  }

  /** The fragment as it is written after the file part. */
  function RefText(ref: Option<string>): string
  {
    match ref
    case None => ""
    case Some(r) => "#" + r
  }

  /** URL.toString(): the protocol is kept lower-cased, the fragment is included. */
  function ToString(u: Url): (s: string)
    ensures u.scheme + "://" + u.authority <= s
    ensures var tail := u.file + RefText(u.ref); |tail| <= |s| && s[|s| - |tail|..] == tail
  {
    u.scheme + "://" + u.authority + u.file + RefText(u.ref)
  }

  /** toString() regrouped as the protocol, ':' and the hierarchical part. */
  lemma ToStringParts(u: Url)
    ensures ToString(u) == u.scheme + (":" + ("//" + (u.authority + u.file) + RefText(u.ref)))
  {
  }

  lemma LowerAsciiScheme(s: string)
    requires ValidScheme(s)
    ensures ValidScheme(LowerAscii(s)) && LowerAscii(LowerAscii(s)) == LowerAscii(s)
  {
    var l := LowerAscii(s);
    assert forall i :: 0 <= i < |s| ==> IsSchemeChar(l[i]) && !('A' <= l[i] <= 'Z');
    assert forall i :: 0 <= i < |s| ==> LowerAscii(l)[i] == l[i];
  }

  /** The position of the ':' that ends a valid protocol name, or -1. */
  function SchemeEnd(s: string): (colon: int)
    ensures colon == -1 || (0 < colon < |s| && s[colon] == ':' && ValidScheme(s[..colon]))
  {
    var c := FirstIn(s, {':', '/'});
    if c != -1 && s[c] == ':' && ValidScheme(s[..c]) then c else -1
  }

  lemma SchemeEndOf(scheme: string, rest: string)
    requires ValidScheme(scheme)
    ensures SchemeEnd(scheme + (":" + rest)) == |scheme|
  {
    var s := scheme + (":" + rest);
    FirstInAppend(scheme, ":" + rest, {':', '/'});
    assert FirstIn(scheme, {':', '/'}) == -1;
    assert s[..|scheme|] == scheme;
  }

  /** Cuts the fragment off at the first '#'. */
  function SplitRef(rest: string): (r: (string, Option<string>))
    ensures '#' !in r.0 && r.0 + RefText(r.1) == rest
  {
    var h := FirstIn(rest, {'#'});
    if h == -1 then (rest, None)
    else
      assert rest == rest[..h] + "#" + rest[h + 1..];
      (rest[..h], Some(rest[h + 1..]))
  }

  lemma SplitRefOf(body: string, ref: Option<string>)
    requires '#' !in body
    ensures SplitRef(body + RefText(ref)) == (body, ref)
  {
    FirstInAppend(body, RefText(ref), {'#'});
    assert ref.Some? ==> RefText(ref)[0] == '#';
    assert FirstIn(body, {'#'}) == -1;
    assert (body + RefText(ref))[..|body|] == body;
    assert ref.Some? ==> (body + RefText(ref))[|body| + 1..] == ref.value;
  }

  /** Splits "authority file" at the first '/' or '?'. */
  function SplitAuthority(after: string): (r: (string, string))
    ensures '/' !in r.0 && '?' !in r.0 && r.0 + r.1 == after
    ensures r.1 == "" || r.1[0] == '/' || r.1[0] == '?'
  {
    var e := FirstIn(after, {'/', '?'});
    if e == -1 then (after, "") else (after[..e], after[e..])
  }

  lemma SplitAuthorityOf(authority: string, file: string)
    requires '/' !in authority && '?' !in authority
    requires file == "" || file[0] == '/' || file[0] == '?'
    ensures SplitAuthority(authority + file) == (authority, file)
  {
    FirstInAppend(authority, file, {'/', '?'});
    assert FirstIn(authority, {'/', '?'}) == -1;
    assert file != "" ==> FirstIn(file, {'/', '?'}) == 0;
    assert (authority + file)[..|authority|] == authority;
  }

  /** The "//" that introduces an authority. */
  predicate DoubleSlash(body: string)
  {
    |body| >= 2 && body[0] == '/' && body[1] == '/'
  }

  /**
   * new URL(s): None where the constructor throws MalformedURLException.
   * The protocol is the text before the first ':' provided no '/' comes
   * first; the fragment starts at the first '#'; the authority runs from
   * "//" to the first '/' or '?'; the rest up to the fragment is the file.
   */
  function ParseUrl(s: string): (r: Option<Url>)
    ensures r.Some? ==> WellFormed(r.value)
  {
    var colon := SchemeEnd(s);
    if colon == -1 then None
    else
      var body := SplitRef(s[colon + 1..]).0;
      if !DoubleSlash(body) then None
      else
        var parts := SplitAuthority(body[2..]);
        if parts.0 == "" then None
        else
          LowerAsciiScheme(s[..colon]);
          NoRefInParts(body[2..]);
          Some(Url(LowerAscii(s[..colon]), parts.0, parts.1, SplitRef(s[colon + 1..]).1))
  }

  lemma NoRefInParts(after: string)
    requires '#' !in after
    ensures '#' !in SplitAuthority(after).0 && '#' !in SplitAuthority(after).1
  {
    var parts := SplitAuthority(after);
    assert forall i :: 0 <= i < |parts.0| ==> parts.0[i] == after[i];
    assert forall i :: 0 <= i < |parts.1| ==> parts.1[i] == after[|parts.0| + i];
  }

  /** toString() gives back the parsed text, with the protocol lower-cased. */
  lemma ParseUrlText(s: string)
    requires ParseUrl(s).Some?
    ensures var u := ParseUrl(s).value;
      |u.scheme| < |s| && u.scheme == LowerAscii(s[..|u.scheme|]) && ToString(u) == u.scheme + s[|u.scheme|..]
  {
    ParseParsesAs(s);
    ParsesAsText(s, SchemeEnd(s), SplitRef(s[SchemeEnd(s) + 1..]).0, ParseUrl(s).value);
  }

  lemma ParsesAsText(s: string, colon: int, body: string, u: Url)
    requires ParsesAs(s, colon, body, u)
    ensures |u.scheme| == colon < |s| && u.scheme == LowerAscii(s[..colon]) && ToString(u) == u.scheme + s[colon..]
  {
    ParsesAsPieces(s, colon, body, u);
    PiecesText(s, colon, body, u);
  }

  /** The stages of a parse, stated as plain equations between the pieces. */
  lemma ParsesAsPieces(s: string, colon: int, body: string, u: Url)
    requires ParsesAs(s, colon, body, u)
    ensures 0 < colon < |s| && s[colon] == ':' && |u.scheme| == colon && u.scheme == LowerAscii(s[..colon])
    ensures body + RefText(u.ref) == s[colon + 1..] && body == "//" + (u.authority + u.file)
  {
    DoubleSlashSplit(body);
  }

  lemma PiecesText(s: string, colon: int, body: string, u: Url)
    requires 0 < colon < |s| && s[colon] == ':' && |u.scheme| == colon
    requires body + RefText(u.ref) == s[colon + 1..] && body == "//" + (u.authority + u.file)
    ensures ToString(u) == u.scheme + s[colon..]
  {
    assert s[colon..] == ":" + s[colon + 1..];
    ToStringParts(u);
  }

  lemma DoubleSlashSplit(body: string)
    requires DoubleSlash(body)
    ensures body == "//" + body[2..]
  {
  }

  /** The stages of ParseUrl, each with its outcome, for taking a URL apart or putting one together. */
  ghost predicate ParsesAs(s: string, colon: int, body: string, u: Url)
  {
    && colon != -1 && SchemeEnd(s) == colon
    && SplitRef(s[colon + 1..]) == (body, u.ref)
    && DoubleSlash(body)
    && SplitAuthority(body[2..]) == (u.authority, u.file) && u.authority != ""
    && u.scheme == LowerAscii(s[..colon])
  }

  lemma ParsesAsParse(s: string, colon: int, body: string, u: Url)
    requires ParsesAs(s, colon, body, u)
    ensures ParseUrl(s) == Some(u)
  {
  }

  lemma ParseParsesAs(s: string)
    requires ParseUrl(s).Some?
    ensures ParsesAs(s, SchemeEnd(s), SplitRef(s[SchemeEnd(s) + 1..]).0, ParseUrl(s).value)
  {
  }

  /** Parsing undoes toString() on every well-formed URL. */
  lemma ParseToString(u: Url)
    requires WellFormed(u)
    ensures ParseUrl(ToString(u)) == Some(u)
  {
    var body := "//" + (u.authority + u.file);
    ToStringScheme(u);
    ToStringRef(u);
    ToStringAuthority(u);
    ParsesAsParse(ToString(u), |u.scheme|, body, u);
  }

  lemma ToStringScheme(u: Url)
    requires WellFormed(u)
    ensures var s := ToString(u);
      && SchemeEnd(s) == |u.scheme| && s[..|u.scheme|] == u.scheme
      && s[|u.scheme| + 1..] == "//" + (u.authority + u.file) + RefText(u.ref)
  {
    ToStringParts(u);
    SchemeEndOf(u.scheme, "//" + (u.authority + u.file) + RefText(u.ref));
  }

  lemma ToStringRef(u: Url)
    requires WellFormed(u)
    ensures SplitRef("//" + (u.authority + u.file) + RefText(u.ref)) == ("//" + (u.authority + u.file), u.ref)
  {
    var body := "//" + (u.authority + u.file);
    assert forall i :: 2 <= i < 2 + |u.authority| ==> body[i] == u.authority[i - 2];
    assert forall i :: 2 + |u.authority| <= i < |body| ==> body[i] == u.file[i - 2 - |u.authority|];
    SplitRefOf(body, u.ref);
  }

  lemma ToStringAuthority(u: Url)
    requires WellFormed(u)
    ensures var body := "//" + (u.authority + u.file);
      DoubleSlash(body) && SplitAuthority(body[2..]) == (u.authority, u.file)
  {
    var body := "//" + (u.authority + u.file);
    assert body[2..] == u.authority + u.file;
    SplitAuthorityOf(u.authority, u.file);
  }

  lemma SchemeEndAppend(s: string, suffix: string)
    requires SchemeEnd(s) != -1
    ensures var c := SchemeEnd(s);
      SchemeEnd(s + suffix) == c && (s + suffix)[..c] == s[..c] && (s + suffix)[c + 1..] == s[c + 1..] + suffix
  {
    FirstInAppend(s, suffix, {':', '/'});
    var c := SchemeEnd(s);
    assert (s + suffix)[..c] == s[..c];
  }

  lemma DropAppend(a: string, b: string, i: nat)
    requires i <= |a|
    ensures (a + b)[i..] == a[i..] + b
  {
  }

  lemma AppendAssoc(x: string, a: string, f: string, suffix: string)
    requires x == a + f
    ensures x + suffix == a + (f + suffix)
  {
  }

  lemma BodyAppend(body: string, u: Url, suffix: string)
    requires DoubleSlash(body) && SplitAuthority(body[2..]) == (u.authority, u.file)
    requires |suffix| > 0 && suffix[0] == '/'
    ensures DoubleSlash(body + suffix) && SplitAuthority((body + suffix)[2..]) == (u.authority, u.file + suffix)
  {
    DropAppend(body, suffix, 2);
    AppendAssoc(body[2..], u.authority, u.file, suffix);
    SplitAuthorityOf(u.authority, u.file + suffix);
  }

  /** Appending a path to a URL that has no fragment extends its file part. */
  lemma ParseAppendPath(s: string, suffix: string)
    requires ParseUrl(s).Some? && ParseUrl(s).value.ref == None
    requires |suffix| > 0 && suffix[0] == '/' && '#' !in suffix
    ensures ParseUrl(s + suffix) == Some(ParseUrl(s).value.(file := ParseUrl(s).value.file + suffix))
  {
    var u := ParseUrl(s).value;
    var colon := SchemeEnd(s);
    var body := SplitRef(s[colon + 1..]).0;
    ParseParsesAs(s);
    assert body == s[colon + 1..] by {
      assert RefText(None) == "";
    }
    SchemeEndAppend(s, suffix);
    SplitRefOf(body + suffix, None);
    BodyAppend(body, u, suffix);
    ParsesAsParse(s + suffix, colon, body + suffix, u.(file := u.file + suffix));
  }

  /**
   * The repository base url(String) infers (JshBoot.java:102-103): the text
   * of toString() with as many characters cut from its end as getFile() has.
   */
  function InferBaseAsWritten(u: Url): (base: string)
    ensures base <= ToString(u) && |base| == |ToString(u)| - |u.file|
  {
    var t := ToString(u);
    t[..|t| - |u.file|]
  }

  /** The base that removes exactly the file part: "scheme://authority". */
  function InferBase(u: Url): (base: string)
    requires WellFormed(u)
    ensures ParseUrl(base) == Some(Url(u.scheme, u.authority, "", None))
    ensures ToString(u) == base + u.file + RefText(u.ref)
  {
    var b := u.scheme + "://" + u.authority;
    assert ParseUrl(b) == Some(Url(u.scheme, u.authority, "", None)) by {
      var v := Url(u.scheme, u.authority, "", None);
      assert ToString(v) == b;
      ParseToString(v);
    }
    b
  }

  /** The two agree exactly on URLs without a fragment. */
  lemma InferBaseAsWrittenAgrees(u: Url)
    requires WellFormed(u)
    ensures InferBaseAsWritten(u) == InferBase(u) <==> u.ref == None
  {
    var t := ToString(u);
    if u.ref.Some? {
      assert |InferBaseAsWritten(u)| == |InferBase(u)| + 1 + |u.ref.value|;
    } else {
      assert t == InferBase(u) + u.file;
    }
  }

  /**
   * With a fragment `#r`, the inferred base keeps |r| + 1 characters of the
   * file part (when the file is that long).
   */
  lemma InferBaseAsWrittenWithFragment(u: Url)
    requires WellFormed(u) && u.ref.Some? && |u.file| > |u.ref.value|
    ensures InferBaseAsWritten(u) == InferBase(u) + u.file[..|u.ref.value| + 1]
  {
    var t := ToString(u);
    assert t == InferBase(u) + u.file + ("#" + u.ref.value);
    assert t[..|t| - |u.file|] == (InferBase(u) + u.file)[..|InferBase(u)| + |u.ref.value| + 1];
  }
}
