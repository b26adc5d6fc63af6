/**
 * The Python `str` operations the pipeline relies on, over `seq<char>`.
 * Character classes are the ASCII parts of Python's Unicode classes:
 * `str.isspace()` and the regex class `\s` agree on ASCII, and so do
 * `str.isalnum()`, `\w` and `\d` with the letters, digits and underscore below.
 */
module Strings {

  /** `str.isspace()` / regex `\s` on ASCII: space, \t \n \v \f \r and the separators 0x1C-0x1F. */
  predicate IsSpace(c: char) {
    c == ' ' || '\t' <= c <= '\r' || '\U{1C}' <= c <= '\U{1F}'
  }

  predicate IsDigit(c: char) { '0' <= c <= '9' }

  predicate IsLetter(c: char) { 'A' <= c <= 'Z' || 'a' <= c <= 'z' }

  predicate IsAlnum(c: char) { IsLetter(c) || IsDigit(c) }

  /** Regex `\w`. */
  predicate IsWordChar(c: char) { IsAlnum(c) || c == '_' }

  predicate AllSpace(s: string) {
    forall i :: 0 <= i < |s| ==> IsSpace(s[i])
  }

  function LowerChar(c: char): char {
    if 'A' <= c <= 'Z' then (c as int + 32) as char else c
  }

  function UpperChar(c: char): char {
    if 'a' <= c <= 'z' then (c as int - 32) as char else c
  }

  /** `str.lower()` */
  function Lower(s: string): (r: string)
    ensures |r| == |s|
  {
    seq(|s|, i requires 0 <= i < |s| => LowerChar(s[i]))
  }

  /** `str.upper()` */
  function Upper(s: string): (r: string)
    ensures |r| == |s|
  {
    seq(|s|, i requires 0 <= i < |s| => UpperChar(s[i]))
  }

  /** Lower-casing leaves no upper-case letter and changes only upper-case letters, each to its own letter. */
  lemma LowerChars(s: string)
    ensures forall i :: 0 <= i < |s| ==>
      !('A' <= Lower(s)[i] <= 'Z') && UpperChar(Lower(s)[i]) == UpperChar(s[i])
    ensures forall i :: 0 <= i < |s| && !('A' <= s[i] <= 'Z') ==> Lower(s)[i] == s[i]
  {
  }

  /** Upper-casing leaves no lower-case letter and changes only lower-case letters, each to its own letter. */
  lemma UpperChars(s: string)
    ensures forall i :: 0 <= i < |s| ==>
      !('a' <= Upper(s)[i] <= 'z') && LowerChar(Upper(s)[i]) == LowerChar(s[i])
    ensures forall i :: 0 <= i < |s| && !('a' <= s[i] <= 'z') ==> Upper(s)[i] == s[i]
  {
  }

  /** Upper-casing twice is upper-casing once. */
  lemma UpperIdempotent(s: string)
    ensures Upper(Upper(s)) == Upper(s)
  {
  }

  /** A string is its own upper-case form exactly when it holds no lower-case letter. */
  lemma UpperFixedPoint(s: string)
    ensures Upper(s) == s <==> forall i :: 0 <= i < |s| ==> !('a' <= s[i] <= 'z')
  {
    if Upper(s) == s {
      forall i | 0 <= i < |s| ensures !('a' <= s[i] <= 'z') {
        assert Upper(s)[i] == s[i];
      }
    }
  }

  /** How many whitespace characters open the text. */
  function LeadingSpaces(s: string): (n: nat)
    ensures n <= |s|
    ensures forall i :: 0 <= i < n ==> IsSpace(s[i])
    ensures n < |s| ==> !IsSpace(s[n])
    decreases |s|
  {
    if |s| > 0 && IsSpace(s[0]) then 1 + LeadingSpaces(s[1..]) else 0
  }

  /** How many whitespace characters close the text. */
  function TrailingSpaces(s: string): (n: nat)
    ensures n <= |s|
    ensures forall i :: |s| - n <= i < |s| ==> IsSpace(s[i])
    ensures n < |s| ==> !IsSpace(s[|s| - n - 1])
    decreases |s|
  {
    if |s| > 0 && IsSpace(s[|s| - 1]) then 1 + TrailingSpaces(s[..|s| - 1]) else 0
  }

  /**
   * `str.strip()`: whitespace removed from both ends, nothing else touched.
   * The result is one contiguous slice of the input, everything before and
   * after it is whitespace, and it neither starts nor ends with whitespace.
   */
  function Strip(s: string): (r: string)
    ensures r == [] <==> AllSpace(s)
    ensures r != [] ==> !IsSpace(r[0]) && !IsSpace(r[|r| - 1])
    ensures var a := LeadingSpaces(s);
      && a + |r| <= |s| && r == s[a..a + |r|]
      && AllSpace(s[..a]) && AllSpace(s[a + |r|..])
    ensures forall k :: 0 <= k < |r| ==> r[k] in s
  {
    var a := LeadingSpaces(s);
    if a == |s| then ""
    else
      var b := |s| - TrailingSpaces(s);
      assert a < b;
      assert forall k :: 0 <= k < b - a ==> s[a..b][k] == s[a + k];
      assert forall k :: 0 <= k < |s| - b ==> s[b..][k] == s[b + k];
      s[a..b]
  }

  /** A string that already has no whitespace at either end is its own stripped form. */
  lemma StripNoEdgeSpace(s: string)
    requires s == [] || (!IsSpace(s[0]) && !IsSpace(s[|s| - 1]))
    ensures Strip(s) == s
  {
  }

  /** Stripping is idempotent. */
  lemma StripIdempotent(s: string)
    ensures Strip(Strip(s)) == Strip(s)
  {
    StripNoEdgeSpace(Strip(s));
  }

  predicate IsPrefix(p: string, s: string) {
    |p| <= |s| && s[..|p|] == p
  }

  lemma PrefixOfConcat(p: string, s: string)
    ensures IsPrefix(p, p + s)
  {
    assert (p + s)[..|p|] == p;
  }

  /** A text assembled from three pieces starts with the first, ends with the last, and holds the middle one in between. */
  lemma Surrounded(a: string, b: string, c: string)
    ensures var s := a + b + c;
      IsPrefix(a, s) && EndsWith(s, c) && s[|a|..|s| - |c|] == b
  {
    var s := a + b + c;
    assert s[..|a|] == a;
    assert s[|a|..|s| - |c|] == b;
    assert s[|s| - |c|..] == c;
  }

  /** `s.endswith(t)` */
  predicate EndsWith(s: string, t: string) {
    |t| <= |s| && s[|s| - |t|..] == t
  }

  /** `t in s` for strings: a substring test. A prefix and a suffix are contained; nothing longer than the text is. */
  predicate Contains(s: string, t: string)
    ensures Contains(s, t) ==> |t| <= |s|
    ensures IsPrefix(t, s) ==> Contains(s, t)
    ensures EndsWith(s, t) ==> Contains(s, t)
  {
    assert s[0..] == s;
    assert EndsWith(s, t) ==> s[|s| - |t|..][..|t|] == t;

    exists i :: 0 <= i <= |s| && IsPrefix(t, s[i..])
  }

  /**
   * `s.replace(pat, rep)`: every occurrence of `pat` found scanning left to
   * right, without overlaps, is replaced by `rep`.
   */
  function ReplaceAll(s: string, pat: string, rep: string): string
    requires |pat| > 0
    decreases |s|
  {
    if |s| == 0 then ""
    else if IsPrefix(pat, s) then rep + ReplaceAll(s[|pat|..], pat, rep)
    else [s[0]] + ReplaceAll(s[1..], pat, rep)
  }

  /** Every character of a `replace` result comes from the input or the replacement. */
  lemma {:induction false} ReplaceAllChars(s: string, pat: string, rep: string)
    requires |pat| > 0
    ensures forall c :: c in ReplaceAll(s, pat, rep) ==> c in s || c in rep
    decreases |s|
  {
    if |s| > 0 {
      if IsPrefix(pat, s) {
        ReplaceAllChars(s[|pat|..], pat, rep);
        assert forall c :: c in s[|pat|..] ==> c in s;
      } else {
        ReplaceAllChars(s[1..], pat, rep);
        assert forall c :: c in s[1..] ==> c in s;
      }
    }
  }

  /** A string without an occurrence of the pattern comes back unchanged. */
  lemma {:induction false} ReplaceAllNoMatch(s: string, pat: string, rep: string)
    requires |pat| > 0 && !Contains(s, pat)
    ensures ReplaceAll(s, pat, rep) == s
    decreases |s|
  {
    if |s| > 0 {
      assert s[0..] == s;
      forall i | 0 <= i <= |s[1..]|
        ensures !IsPrefix(pat, s[1..][i..])
      {
        assert s[1..][i..] == s[i + 1..];
      }
      ReplaceAllNoMatch(s[1..], pat, rep);
    }
  }

  /** A prefix none of whose characters can start the pattern passes through unchanged. */
  lemma {:induction false} ReplaceAllPrepend(p: string, s: string, pat: string, rep: string)
    requires |pat| > 0
    requires forall i :: 0 <= i < |p| ==> p[i] != pat[0]
    ensures ReplaceAll(p + s, pat, rep) == p + ReplaceAll(s, pat, rep)
    decreases |p|
  {
    if |p| > 0 {
      assert (p + s)[0] == p[0];
      assert (p + s)[1..] == p[1..] + s;
      ReplaceAllPrepend(p[1..], s, pat, rep);
    } else {
      assert p + s == s;
    }
  }

  /**
   * No occurrence can straddle the seam when the second part starts with a
   * character foreign to the pattern, so the replacement splits there.
   */
  lemma {:induction false} ReplaceAllAppend(a: string, b: string, pat: string, rep: string)
    requires |pat| > 0 && |b| > 0 && b[0] !in pat
    ensures ReplaceAll(a + b, pat, rep) == ReplaceAll(a, pat, rep) + ReplaceAll(b, pat, rep)
    decreases |a|
  {
    if |a| == 0 {
      assert a + b == b;
    } else if IsPrefix(pat, a) {
      assert (a + b)[..|pat|] == a[..|pat|];
      assert (a + b)[|pat|..] == a[|pat|..] + b;
      ReplaceAllAppend(a[|pat|..], b, pat, rep);
    } else {
      if |pat| <= |a| {
        assert (a + b)[..|pat|] == a[..|pat|];
      } else if |pat| <= |a + b| {
        assert (a + b)[..|pat|][|a|] == b[0];
        assert pat[|a|] in pat;
      }
      assert (a + b)[1..] == a[1..] + b;
      ReplaceAllAppend(a[1..], b, pat, rep);
    }
  }

  /** Replacing one character by nothing deletes exactly that character. */
  lemma {:induction false} RemoveCharChars(s: string, x: char)
    ensures forall c :: c in ReplaceAll(s, [x], []) <==> c in s && c != x
    decreases |s|
  {
    if |s| > 0 {
      RemoveCharChars(s[1..], x);
      assert s == [s[0]] + s[1..];
    }
  }

  /** `s.split(sep)` for a one-character separator. */
  function Split(s: string, sep: char): (parts: seq<string>)
    ensures |parts| > 0
    ensures forall i :: 0 <= i < |parts| ==> sep !in parts[i]
    decreases |s|
  {
    if |s| == 0 then [""]
    else
      var rest := Split(s[1..], sep);
      if s[0] == sep then [""] + rest else [[s[0]] + rest[0]] + rest[1..]
  }

  /** `sep.join(parts)`: no parts join to nothing; otherwise the text opens with the first part and closes with the last. */
  function Join(parts: seq<string>, sep: string): string
  {
    if |parts| == 0 then ""
    else if |parts| == 1 then parts[0]
    else parts[0] + sep + Join(parts[1..], sep)
  }

  /** A join of no parts is empty; otherwise it starts with the first part and ends with the last. */
  lemma {:induction false} JoinEnds(parts: seq<string>, sep: string)
    ensures |parts| == 0 ==> Join(parts, sep) == ""
    ensures |parts| > 0 ==> IsPrefix(parts[0], Join(parts, sep)) && EndsWith(Join(parts, sep), parts[|parts| - 1])
    decreases |parts|
  {
    if |parts| > 1 {
      var rest := Join(parts[1..], sep);
      var last := parts[|parts| - 1];
      JoinEnds(parts[1..], sep);
      assert parts[1..][|parts| - 2] == last;
      var r := parts[0] + sep + rest;
      assert r[..|parts[0]|] == parts[0];
      assert r[|r| - |last|..] == rest[|rest| - |last|..];
    }
  }

  /** Joining the pieces of a split with the same separator gives the input back. */
  lemma {:induction false} JoinSplit(s: string, sep: char)
    ensures Join(Split(s, sep), [sep]) == s
    decreases |s|
  {
    if |s| > 0 {
      var rest := Split(s[1..], sep);
      JoinSplit(s[1..], sep);
      assert s == [s[0]] + s[1..];
      if s[0] == sep {
        JoinCons("", rest, [sep]);
      } else if |rest| > 1 {
        JoinCons(rest[0], rest[1..], [sep]);
        assert rest == [rest[0]] + rest[1..];
        JoinCons([s[0]] + rest[0], rest[1..], [sep]);
      }
    }
  }

  /** Joining a first part before at least one more puts the separator after it. */
  lemma JoinCons(p: string, rest: seq<string>, sep: string)
    requires |rest| > 0
    ensures Join([p] + rest, sep) == p + sep + Join(rest, sep)
  {
    assert ([p] + rest)[1..] == rest;
  }

  lemma {:induction false} SplitNoSep(x: string, sep: char)
    requires sep !in x
    ensures Split(x, sep) == [x]
    decreases |x|
  {
    if |x| > 0 {
      SplitNoSep(x[1..], sep);
      assert x == [x[0]] + x[1..];
    }
  }

  lemma {:induction false} SplitAtSep(x: string, sep: char, y: string)
    requires sep !in x
    ensures Split(x + [sep] + y, sep) == [x] + Split(y, sep)
    decreases |x|
  {
    if |x| == 0 {
      assert x + [sep] + y == [sep] + y;
      assert ([sep] + y)[1..] == y;
    } else {
      assert (x + [sep] + y)[1..] == x[1..] + [sep] + y;
      SplitAtSep(x[1..], sep, y);
      assert x == [x[0]] + x[1..];
    }
  }

  /** Splitting a join of separator-free pieces gives the pieces back. */
  lemma {:induction false} SplitJoin(parts: seq<string>, sep: char)
    requires |parts| > 0
    requires forall i :: 0 <= i < |parts| ==> sep !in parts[i]
    ensures Split(Join(parts, [sep]), sep) == parts
    decreases |parts|
  {
    if |parts| == 1 {
      SplitNoSep(parts[0], sep);
    } else {
      SplitJoin(parts[1..], sep);
      SplitAtSep(parts[0], sep, Join(parts[1..], [sep]));
      assert parts == [parts[0]] + parts[1..];
    }
  }

  /** A join splits at any inner boundary into the joins of the two halves. */
  lemma {:induction false} JoinAt(parts: seq<string>, i: nat, sep: string)
    requires 0 < i < |parts|
    ensures Join(parts, sep) == Join(parts[..i], sep) + sep + Join(parts[i..], sep)
    decreases i
  {
    var p := parts[0];
    assert parts == [p] + parts[1..];
    JoinCons(p, parts[1..], sep);
    if i > 1 {
      var mid, tail := parts[1..i], parts[i..];
      assert Join(parts[1..], sep) == Join(mid, sep) + sep + Join(tail, sep) by {
        JoinAt(parts[1..], i - 1, sep);
        assert parts[1..][i - 1..] == tail;
        assert parts[1..][..i - 1] == mid;
      }
      assert Join(parts[..i], sep) == p + sep + Join(mid, sep) by {
        assert parts[..i] == [p] + mid;
        JoinCons(p, mid, sep);
      }
    } else {
      assert parts[..1] == [p];
    }
  }

  /** A substring brings its characters along: text lacking one of them cannot contain it. */
  lemma MissingCharNotContained(s: string, t: string, c: char)
    requires c in t && c !in s
    ensures !Contains(s, t)
  {
    var k :| 0 <= k < |t| && t[k] == c;
    forall j | 0 <= j <= |s| ensures !IsPrefix(t, s[j..]) {
      if |t| <= |s[j..]| {
        assert s[j..][..|t|][k] == s[j + k];
        assert s[j + k] in s;
      }
    }
  }

  /** Where the last path component starts: just after the last '/', or at 0. */
  function ComponentStart(p: string): (k: nat)
    ensures k <= |p|
    ensures forall i :: k <= i < |p| ==> p[i] != '/'
    ensures k > 0 ==> p[k - 1] == '/'
    decreases |p|
  {
    if |p| == 0 then 0
    else if p[|p| - 1] == '/' then |p|
    else ComponentStart(p[..|p| - 1])
  }

  /** `os.path.basename(p)`: the text after the last '/'. */
  function Basename(p: string): (b: string)
    ensures |b| <= |p| && b == p[|p| - |b|..]
    ensures '/' !in b
    ensures |b| < |p| ==> p[|p| - |b| - 1] == '/'
  {
    var k := ComponentStart(p);
    assert forall i :: 0 <= i < |p| - k ==> p[k..][i] == p[k + i];
    p[k..]
  }

  /** The component start is the one position just after a '/' (or 0) with no '/' from there on. */
  lemma ComponentStartAt(p: string, j: nat)
    requires j <= |p|
    requires j > 0 ==> p[j - 1] == '/'
    requires forall i :: j <= i < |p| ==> p[i] != '/'
    ensures ComponentStart(p) == j
  {
  }

  /**
   * `os.path.join(a, b)` for two components: the path ends with `b`; an
   * absolute `b` discards `a`, otherwise the path starts with `a`.
   */
  function PathJoin(a: string, b: string): (r: string)
    ensures EndsWith(r, b)
    ensures |b| > 0 && b[0] == '/' ==> r == b
    ensures !(|b| > 0 && b[0] == '/') ==> IsPrefix(a, r)
  {
    assert (a + b)[|a + b| - |b|..] == b && (a + b)[..|a|] == a;
    assert (a + "/" + b)[|a + "/" + b| - |b|..] == b && (a + "/" + b)[..|a|] == a;
    if |b| > 0 && b[0] == '/' then b
    else if |a| == 0 || a[|a| - 1] == '/' then a + b
    else a + "/" + b
  }

  /** A name without '/' lands directly inside a directory that does not end in '/'. */
  lemma PathJoinInside(dir: string, name: string)
    requires |dir| > 0 && dir[|dir| - 1] != '/'
    requires '/' !in name
    ensures PathJoin(dir, name) == dir + "/" + name
  {
    if |name| > 0 {
      assert name[0] in name;
    }
  }

  lemma BasenameAfterSlash(dir: string, name: string)
    requires dir == [] || dir[|dir| - 1] == '/'
    requires '/' !in name
    ensures Basename(dir + name) == name
  {
    var p := dir + name;
    forall j | |dir| <= j < |p| ensures p[j] != '/' {
      assert p[j] == name[j - |dir|];
    }
    ComponentStartAt(p, |dir|);
    assert p[|dir|..] == name;
  }

  /** A name without '/' is its own base name. */
  lemma BasenameOfBareName(name: string)
    requires '/' !in name
    ensures Basename(name) == name
  {
    assert name == "" + name;
    BasenameAfterSlash("", name);
  }

  /** The base name of a file joined under a directory is the file's own name. */
  lemma BasenameOfJoin(dir: string, name: string)
    requires '/' !in name
    ensures Basename(PathJoin(dir, name)) == name
  {
    if |name| > 0 {
      assert name[0] in name;
    }
    if |dir| == 0 || dir[|dir| - 1] == '/' {
      BasenameAfterSlash(dir, name);
    } else {
      var d := dir + "/";
      assert d[|d| - 1] == '/';
      assert dir + "/" + name == d + name;
      BasenameAfterSlash(d, name);
    }
  }

}
