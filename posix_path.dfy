/** The two pieces of Python's `posixpath` that name the output file:
    `splitext`, which cuts a path into a root and an extension, and `join`,
    which puts a file name under a directory. Paths are strings with `/`
    as the separator and `.` as the extension separator. */
module PosixPath {

  const Sep: char := '/'
  const ExtSep: char := '.'

  /** `s.rfind(c)`: the index of the last `c` in `s`, or -1. */
  function RFind(s: string, c: char): (i: int)
    ensures -1 <= i < |s|
    ensures i >= 0 ==> s[i] == c
    ensures forall j :: i < j < |s| ==> s[j] != c
  {
    if s == [] then -1
    else if s[|s| - 1] == c then |s| - 1
    else RFind(s[..|s| - 1], c)
  }

  /** The last occurrence is the only index with the properties RFind promises. */
  lemma RFindUnique(s: string, c: char, i: int)
    requires -1 <= i < |s|
    requires i >= 0 ==> s[i] == c
    requires forall j :: i < j < |s| ==> s[j] != c
    ensures RFind(s, c) == i
  {
  }

  /** The last `c` of `a + b` lies in `b` if `b` has one, else it is `a`'s. */
  lemma RFindAppend(a: string, b: string, c: char)
    ensures RFind(a + b, c) == if RFind(b, c) >= 0 then |a| + RFind(b, c) else RFind(a, c)
  {
    var i := if RFind(b, c) >= 0 then |a| + RFind(b, c) else RFind(a, c);
    forall j | i < j < |a + b|
      ensures (a + b)[j] != c
    {
      if j >= |a| {
        assert (a + b)[j] == b[j - |a|];
      } else {
        assert (a + b)[j] == a[j];
      }
    }
    RFindUnique(a + b, c, i);
  }

  lemma RFindAbsent(s: string, c: char)
    requires c !in s
    ensures RFind(s, c) == -1
  {
    RFindUnique(s, c, -1);
  }

  /** Some character strictly between `lo` and `hi` is not a dot. */
  predicate NonDotBetween(p: string, lo: int, hi: int)
    requires -1 <= lo && hi <= |p|
  {
    exists k :: lo < k < hi && p[k] != ExtSep
  }

  /** The final component of `p` has a `.` somewhere after a character
      other than `.`: exactly the paths that have an extension. */
  predicate DotAfterNonDot(p: string) {
    exists i, k :: RFind(p, Sep) < k < i < |p| && p[k] != ExtSep && p[i] == ExtSep
  }

  /** `os.path.splitext(p)`: the extension starts at the last dot, provided
      that dot lies in the final path component and is preceded, within
      that component, by something other than dots. */
  function SplitExt(p: string): (r: (string, string))
    ensures r.0 + r.1 == p
    ensures r.1 == [] || (r.1[0] == ExtSep && Sep !in r.1 && ExtSep !in r.1[1..])
    ensures r.1 != [] ==> NonDotBetween(p, RFind(p, Sep), |r.0|)
    ensures r.1 != [] <==> DotAfterNonDot(p)
  {
    var s := RFind(p, Sep);
    var d := RFind(p, ExtSep);
    if d > s && NonDotBetween(p, s, d) then
      assert forall j :: 0 <= j < |p[d..]| ==> p[d..][j] == p[d + j];
      (p[..d], p[d..])
    else
      (p, [])
  }

  /** The directory part of a path, up to and including its last `/`. */
  function Head(p: string): (h: string)
    ensures |h| <= |p| && h == p[..|h|]
    ensures h == [] || h[|h| - 1] == Sep
  {
    p[..RFind(p, Sep) + 1]
  }

  /** The final component of a path, after its last `/`. */
  function Tail(p: string): (t: string)
    ensures Sep !in t
    ensures Head(p) + t == p
  {
    p[RFind(p, Sep) + 1..]
  }

  /** `a` as the directory `Join` puts a relative name under. */
  function JoinDir(a: string): (dir: string)
    ensures dir == [] || dir[|dir| - 1] == Sep
  {
    if a == [] || a[|a| - 1] == Sep then a else a + [Sep]
  }

  /** `os.path.join(a, b)`: an absolute `b` replaces `a`; otherwise `b` is
      appended to `a`, with a `/` in between unless `a` is empty or ends in one. */
  function Join(a: string, b: string): string {
    if |b| > 0 && b[0] == Sep then b
    else if a == [] || a[|a| - 1] == Sep then a + b
    else a + [Sep] + b
  }

  lemma NonDotShift(a: string, b: string, lo: int, hi: int)
    requires -1 <= lo && hi <= |b|
    ensures NonDotBetween(a + b, |a| + lo, |a| + hi) <==> NonDotBetween(b, lo, hi)
  {
    if NonDotBetween(b, lo, hi) {
      var k :| lo < k < hi && b[k] != ExtSep;
      assert (a + b)[|a| + k] == b[k];
    }
    if NonDotBetween(a + b, |a| + lo, |a| + hi) {
      var k :| |a| + lo < k < |a| + hi && (a + b)[k] != ExtSep;
      assert (a + b)[k] == b[k - |a|];
    }
  }

  lemma NonDotPrefix(a: string, b: string, lo: int, hi: int)
    requires -1 <= lo && hi <= |a|
    ensures NonDotBetween(a + b, lo, hi) <==> NonDotBetween(a, lo, hi)
  {
    if NonDotBetween(a, lo, hi) {
      var k :| lo < k < hi && a[k] != ExtSep;
      assert (a + b)[k] == a[k];
    }
    if NonDotBetween(a + b, lo, hi) {
      var k :| lo < k < hi && (a + b)[k] != ExtSep;
      assert (a + b)[k] == a[k];
    }
  }

  /** A path without an extension keeps none when dot- and slash-free text is appended. */
  lemma SplitExtAppendNoExt(p: string, m: string)
    requires Sep !in m && ExtSep !in m
    requires SplitExt(p).1 == []
    ensures SplitExt(p + m) == (p + m, [])
  {
    RFindAbsent(m, Sep);
    RFindAbsent(m, ExtSep);
    RFindAppend(p, m, Sep);
    RFindAppend(p, m, ExtSep);
    NonDotPrefix(p, m, RFind(p, Sep), RFind(p, ExtSep));
  }

  /** Dot- and slash-free text put in front of an extension joins the root. */
  lemma SplitExtInsertBeforeExt(p: string, m: string)
    requires Sep !in m && ExtSep !in m
    requires SplitExt(p).1 != []
    ensures SplitExt(SplitExt(p).0 + m + SplitExt(p).1) == (SplitExt(p).0 + m, SplitExt(p).1)
  {
    var (root, ext) := SplitExt(p);
    var q := root + m + ext;
    var s := RFind(p, Sep);
    var d := RFind(p, ExtSep);
    assert |root| == d && d > s && NonDotBetween(p, s, d);
    RFindAbsent(m, Sep);
    RFindAbsent(ext, Sep);
    RFindAppend(root, m, Sep);
    RFindAppend(root + m, ext, Sep);
    RFindAppend(root, ext, Sep);
    assert RFind(q, Sep) == s;
    RFindUnique(ext, ExtSep, 0);
    RFindAppend(root + m, ext, ExtSep);
    assert RFind(q, ExtSep) == |root| + |m|;
    var k :| s < k < d && p[k] != ExtSep;
    assert q[k] == p[k];
    assert q[..|root| + |m|] == root + m;
    assert q[|root| + |m|..] == ext;
  }

  /** Text with neither `/` nor `.`, inserted between the root and the
      extension, joins the root and leaves the extension as it was. */
  lemma SplitExtInsert(p: string, m: string)
    requires Sep !in m && ExtSep !in m
    ensures SplitExt(SplitExt(p).0 + m + SplitExt(p).1) == (SplitExt(p).0 + m, SplitExt(p).1)
  {
    if SplitExt(p).1 == [] {
      SplitExtAppendNoExt(p, m);
      assert SplitExt(p).0 + m + SplitExt(p).1 == p + m;
    } else {
      SplitExtInsertBeforeExt(p, m);
    }
  }

  /** Splitting a path placed under a directory splits the name alone. */
  lemma SplitExtUnderDir(dir: string, b: string)
    requires dir != [] && dir[|dir| - 1] == Sep
    ensures SplitExt(dir + b) == (dir + SplitExt(b).0, SplitExt(b).1)
  {
    var q := dir + b;
    var sb := RFind(b, Sep);
    var db := RFind(b, ExtSep);
    RFindAppend(dir, b, Sep);
    RFindAppend(dir, b, ExtSep);
    RFindUnique(dir, Sep, |dir| - 1);
    assert RFind(q, Sep) == |dir| + sb;
    if db >= 0 {
      assert RFind(q, ExtSep) == |dir| + db;
      NonDotShift(dir, b, sb, db);
      if db > sb && NonDotBetween(b, sb, db) {
        assert q[..|dir| + db] == dir + b[..db];
        assert q[|dir| + db..] == b[db..];
      }
    } else {
      assert RFind(q, ExtSep) < |dir| - 1;
    }
  }

  /** A path splits as its final component does, behind its directory part. */
  lemma SplitExtHeadTail(p: string)
    ensures SplitExt(p) == (Head(p) + SplitExt(Tail(p)).0, SplitExt(Tail(p)).1)
  {
    var head, tail := Head(p), Tail(p);
    assert p == head + tail;
    if head != [] {
      SplitExtUnderDir(head, tail);
    } else {
      assert p == tail;
      assert head + SplitExt(tail).0 == SplitExt(tail).0;
    }
  }

  /** An absolute name is kept as it is; a relative one goes under `a` as
      a directory. */
  lemma JoinCases(a: string, b: string)
    ensures |b| > 0 && b[0] == Sep ==> Join(a, b) == b
    ensures (b == [] || b[0] != Sep) ==> Join(a, b) == JoinDir(a) + b
  {
  }

  /** Behind a directory that is empty or ends in `/`, the last `/` of the
      whole path is the last one of `b` if it has one, else the directory's. */
  lemma RFindSepUnderDir(dir: string, b: string)
    requires dir == [] || dir[|dir| - 1] == Sep
    ensures RFind(dir + b, Sep) == |dir| + RFind(b, Sep)
  {
    RFindAppend(dir, b, Sep);
    if RFind(b, Sep) < 0 && dir != [] {
      RFindUnique(dir, Sep, |dir| - 1);
    }
  }

  /** Behind such a directory the directory part grows by that directory. */
  lemma HeadUnderDir(dir: string, b: string)
    requires dir == [] || dir[|dir| - 1] == Sep
    ensures Head(dir + b) == dir + Head(b)
  {
    var n := RFind(b, Sep) + 1;
    RFindSepUnderDir(dir, b);
    assert (dir + b)[..|dir| + n] == dir + b[..n];
  }

  /** Behind such a directory the final component stays as it was. */
  lemma TailUnderDir(dir: string, b: string)
    requires dir == [] || dir[|dir| - 1] == Sep
    ensures Tail(dir + b) == Tail(b)
  {
    var n := RFind(b, Sep) + 1;
    RFindSepUnderDir(dir, b);
    assert (dir + b)[|dir| + n..] == b[n..];
  }

  /** The directory part of a join is the join of the directory part. */
  lemma JoinHead(a: string, b: string)
    ensures Head(Join(a, b)) == Join(a, Head(b))
  {
    if |b| > 0 && b[0] == Sep {
      assert RFind(b, Sep) >= 0;
    } else {
      JoinCases(a, b);
      JoinCases(a, Head(b));
      HeadUnderDir(JoinDir(a), b);
    }
  }

  /** Joining never changes the final component of the name. */
  lemma JoinTail(a: string, b: string)
    ensures Tail(Join(a, b)) == Tail(b)
  {
    if b == [] || b[0] != Sep {
      JoinCases(a, b);
      TailUnderDir(JoinDir(a), b);
    }
  }

  lemma SplitExtExamplePhoto()
    ensures SplitExt("photo.jpg") == ("photo", ".jpg")
  {
    RFindAbsent("photo.jpg", Sep);
    RFindUnique("photo.jpg", ExtSep, 5);
    assert NonDotBetween("photo.jpg", -1, 5) by { assert "photo.jpg"[0] != ExtSep; }
    assert "photo.jpg"[..5] == "photo" && "photo.jpg"[5..] == ".jpg";
  }

  lemma SplitExtExamplesLastDot()
    ensures SplitExt("dir/name.ext") == ("dir/name", ".ext")
    ensures SplitExt("archive.tar.gz") == ("archive.tar", ".gz")
  {
    RFindUnique("dir/name.ext", Sep, 3);
    RFindUnique("dir/name.ext", ExtSep, 8);
    assert NonDotBetween("dir/name.ext", 3, 8) by { assert "dir/name.ext"[4] != ExtSep; }
    assert "dir/name.ext"[..8] == "dir/name" && "dir/name.ext"[8..] == ".ext";
    RFindAbsent("archive.tar.gz", Sep);
    RFindUnique("archive.tar.gz", ExtSep, 11);
    assert NonDotBetween("archive.tar.gz", -1, 11) by { assert "archive.tar.gz"[0] != ExtSep; }
    assert "archive.tar.gz"[..11] == "archive.tar" && "archive.tar.gz"[11..] == ".gz";
  }

  lemma SplitExtExamplesNoExt()
    ensures SplitExt(".bashrc") == (".bashrc", "")
    ensures SplitExt("a.b/c") == ("a.b/c", "")
  {
    RFindAbsent(".bashrc", Sep);
    RFindUnique(".bashrc", ExtSep, 0);
    RFindUnique("a.b/c", Sep, 3);
    RFindUnique("a.b/c", ExtSep, 1);
  }

  lemma JoinExamples()
    ensures Join("out/", "photo.jpg") == "out/photo.jpg"
    ensures Join("out", "photo.jpg") == "out/photo.jpg"
    ensures Join("out", "/abs/photo.jpg") == "/abs/photo.jpg"
  {
  }
}
