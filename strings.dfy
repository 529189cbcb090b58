/** The java.lang.String operations the bootstrap relies on, over seq<char>. */
module Strings {

  /** indexOf for a set of characters: the first position holding one of `cs`, or -1. */
  function FirstIn(s: string, cs: set<char>): (r: int)
    ensures -1 <= r < |s|
    ensures r == -1 <==> forall i :: 0 <= i < |s| ==> s[i] !in cs
    ensures 0 <= r ==> s[r] in cs && forall i :: 0 <= i < r ==> s[i] !in cs
  {
    if |s| == 0 then -1
    else if s[0] in cs then 0
    else
      var k := FirstIn(s[1..], cs);
      if k == -1 then -1 else k + 1
  }

  /** Where the first match in `a + b` lies. */
  lemma {:induction false} FirstInAppend(a: string, b: string, cs: set<char>)
    ensures FirstIn(a + b, cs) ==
      if FirstIn(a, cs) != -1 then FirstIn(a, cs)
      else if FirstIn(b, cs) == -1 then -1
      else |a| + FirstIn(b, cs)
  {
    var r, ra, rb := FirstIn(a + b, cs), FirstIn(a, cs), FirstIn(b, cs);
    if ra != -1 {
      assert (a + b)[ra] == a[ra];
      assert forall i :: 0 <= i < ra ==> (a + b)[i] == a[i];
    } else if rb == -1 {
      assert forall i :: 0 <= i < |a + b| ==> (a + b)[i] !in cs by {
        forall i | 0 <= i < |a + b| ensures (a + b)[i] !in cs {
          if i < |a| { assert (a + b)[i] == a[i]; } else { assert (a + b)[i] == b[i - |a|]; }
        }
      }
    } else {
      assert (a + b)[|a| + rb] == b[rb];
      forall i | 0 <= i < |a| + rb ensures (a + b)[i] !in cs {
        if i < |a| { assert (a + b)[i] == a[i]; } else { assert (a + b)[i] == b[i - |a|]; }
      }
    }
  }

  /** The number of occurrences of `c` in `s`. */
  function Count(s: string, c: char): (n: nat)
    ensures n <= |s|
    ensures n == 0 <==> c !in s
  {
    if |s| == 0 then 0 else (if s[0] == c then 1 else 0) + Count(s[1..], c)
  }

  /** Counting past the first occurrence of `c`, at `i`. */
  lemma {:induction false} CountFrom(s: string, c: char, i: nat)
    requires i < |s| && s[i] == c && c !in s[..i]
    ensures Count(s, c) == 1 + Count(s[i + 1..], c)
  {
    if i > 0 {
      assert s[0] == s[..i][0];
      assert s[1..][..i - 1] == s[1..i];
      assert s[1..i] == s[..i][1..];
      CountFrom(s[1..], c, i - 1);
      assert s[1..][i..] == s[i + 1..];
    }
  }

  /** Parts joined with `d` between consecutive parts (String.join). */
  function Join(parts: seq<string>, d: char): (s: string)
    ensures |parts| == 0 ==> s == ""
    ensures |parts| > 0 ==> parts[0] <= s
  {
    if |parts| == 0 then ""
    else if |parts| == 1 then parts[0]
    else parts[0] + [d] + Join(parts[1..], d)
  }

  lemma JoinThree(parts: seq<string>, d: char)
    requires |parts| == 3
    ensures Join(parts, d) == parts[0] + [d] + parts[1] + [d] + parts[2]
  {
    var tail := parts[1..];
    assert tail[0] == parts[1] && tail[1..] == [parts[2]];
    assert Join(tail, d) == parts[1] + [d] + parts[2];
  }

  /** A text with exactly one occurrence of `c`. */
  lemma CountOne(a: string, c: char, b: string)
    requires c !in a && c !in b
    ensures Count(a + [c] + b, c) == 1
  {
    var s := a + [c] + b;
    assert s[..|a|] == a && s[|a| + 1..] == b;
    CountFrom(s, c, |a|);
  }

  /**
   * s.split(d, -1) for a one-character, non-special delimiter: every field
   * is kept, leading and trailing empty ones included.
   */
  function Split(s: string, d: char): (parts: seq<string>)
    ensures |parts| == Count(s, d) + 1
    ensures forall k :: 0 <= k < |parts| ==> d !in parts[k]
    ensures Join(parts, d) == s
    decreases |s|
  {
    var i := FirstIn(s, {d});
    if i == -1 then [s]
    else
      assert s == s[..i] + [d] + s[i + 1..];
      CountFrom(s, d, i);
      [s[..i]] + Split(s[i + 1..], d)
  }

  /** Splitting undoes joining parts that do not contain the delimiter. */
  lemma {:induction false} SplitJoin(parts: seq<string>, d: char)
    requires |parts| > 0
    requires forall k :: 0 <= k < |parts| ==> d !in parts[k]
    ensures Split(Join(parts, d), d) == parts
  {
    if |parts| > 1 {
      var p, rest := parts[0], Join(parts[1..], d);
      var s := p + [d] + rest;
      assert s == Join(parts, d);
      assert FirstIn(s, {d}) == |p| by {
        assert s == p + ([d] + rest);
        FirstInAppend(p, [d] + rest, {d});
      }
      assert s[..|p|] == p && s[|p| + 1..] == rest;
      SplitJoin(parts[1..], d);
      assert Split(s, d) == [p] + Split(rest, d);
    }
  }

  /** toLowerCase restricted to ASCII (all a URL scheme may hold). */
  function LowerAscii(s: string): (r: string)
    ensures |r| == |s|
    ensures forall i :: 0 <= i < |s| ==>
      r[i] == if 'A' <= s[i] <= 'Z' then (s[i] as int + 32) as char else s[i]
  {
    if |s| == 0 then ""
    else [if 'A' <= s[0] <= 'Z' then (s[0] as int + 32) as char else s[0]] + LowerAscii(s[1..])
  }

  /** s.replaceAll("\\.", "/") and the like: every `from` becomes `to`. */
  function Replace(s: string, from: char, to: char): (r: string)
    ensures |r| == |s|
    ensures forall i :: 0 <= i < |s| ==> r[i] == if s[i] == from then to else s[i]
  {
    if |s| == 0 then "" else [if s[0] == from then to else s[0]] + Replace(s[1..], from, to)
  }

  ghost predicate OccursAt(s: string, t: string, i: int)
  {
    0 <= i && i + |t| <= |s| && s[i..i + |t|] == t
  }

  /** s.contains(t). */
  function Contains(s: string, t: string): (b: bool)
    ensures b <==> exists i :: OccursAt(s, t, i)
    decreases |s|
  {
    if |s| < |t| then false
    else if s[..|t|] == t then assert OccursAt(s, t, 0); true
    else
      var rest := Contains(s[1..], t);
      assert forall i :: OccursAt(s[1..], t, i) ==> OccursAt(s, t, i + 1) by {
        forall i | OccursAt(s[1..], t, i) ensures OccursAt(s, t, i + 1) {
          assert s[1..][i..i + |t|] == s[i + 1..i + 1 + |t|];
        }
      }
      assert forall i :: OccursAt(s, t, i) && i > 0 ==> OccursAt(s[1..], t, i - 1) by {
        forall i | OccursAt(s, t, i) && i > 0 ensures OccursAt(s[1..], t, i - 1) {
          assert s[1..][i - 1..i - 1 + |t|] == s[i..i + |t|];
        }
      }
      rest
  }

  /** The length of the run of `c` that `s` starts with. */
  function LeadingCount(s: string, c: char): (n: nat)
    ensures n <= |s|
    ensures forall i :: 0 <= i < n ==> s[i] == c
    ensures n < |s| ==> s[n] != c
  {
    if |s| == 0 || s[0] != c then 0 else 1 + LeadingCount(s[1..], c)
  }
}
