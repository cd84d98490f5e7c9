/** Character-level helpers shared by the backend and the client-side upload guard:
    ASCII lower-casing, the last occurrence of a character, the text after the last
    dot (Python's `rsplit('.', 1)[1]`, JavaScript's `split('.').pop()`), and the
    extension part of Python's POSIX `os.path.splitext`. */
module Text {

  /** Lower-cases one ASCII letter; every other character is left alone. */
  function LowerChar(c: char): char {
    if 'A' <= c <= 'Z' then (c as int + 32) as char else c
  }

  /** `str.lower()` / `toLowerCase()`, restricted to ASCII letters. */
  function Lower(s: string): (r: string)
    ensures |r| == |s|
  {
    seq(|s|, i requires 0 <= i < |s| => LowerChar(s[i]))
  }

  /** The index of the last `c` in `s`, or -1 when `s` has none (`str.rfind`). */
  function LastIndexOf(s: string, c: char): (k: int)
    ensures -1 <= k < |s|
    ensures k >= 0 ==> s[k] == c
    ensures forall j :: k < j < |s| ==> s[j] != c
    decreases |s|
  {
    if |s| == 0 then -1
    else if s[|s| - 1] == c then |s| - 1
    else LastIndexOf(s[..|s| - 1], c)
  }

  /** The text after the last '.', or the whole string when it has no '.'. */
  function AfterLastDot(s: string): (r: string)
    ensures '.' !in r
    ensures |r| <= |s| && r == s[|s| - |r|..]
    ensures '.' !in s ==> r == s
    ensures '.' in s ==> |r| < |s| && s[|s| - |r| - 1] == '.'
  {
    var k := LastIndexOf(s, '.');
    s[k + 1..]
  }

  /** The number of '.' characters that lead `s`. */
  function LeadingDots(s: string): (n: nat)
    ensures n <= |s|
  {
    if |s| == 0 || s[0] != '.' then 0 else 1 + LeadingDots(s[1..])
  }

  /** The final component of a POSIX path: everything after the last '/'. */
  function FinalComponent(p: string): (c: string)
    ensures '/' !in c
    ensures |c| <= |p| && c == p[|p| - |c|..]
  {
    p[LastIndexOf(p, '/') + 1..]
  }

  /** The second half of POSIX `os.path.splitext(p)`: from the last '.' of the final
      path component to the end, provided some non-dot character precedes that dot
      in the component; otherwise the empty string. Leading dots of the component do
      not start an extension, so `.exe` has none. */
  function SplitextExt(p: string): string {
    var sep := LastIndexOf(p, '/');
    var dot := LastIndexOf(p, '.');
    if dot > sep && LeadingDots(FinalComponent(p)) < dot - sep - 1 then p[dot..] else []
  }

  /** Nothing after the last `c` is a `c`. */
  lemma NoneAfterLast(s: string, c: char, i: int)
    requires LastIndexOf(s, c) < i <= |s|
    ensures c !in s[i..]
  {
    forall j | 0 <= j < |s| - i ensures s[i..][j] != c {
      assert s[i..][j] == s[i + j];
    }
  }

  /** An extension is empty, or a dot followed by neither '.' nor '/', and it is a
      suffix of the path. */
  lemma SplitextShape(p: string)
    ensures SplitextExt(p) != [] ==> SplitextExt(p)[0] == '.' && '.' !in SplitextExt(p)[1..]
    ensures '/' !in SplitextExt(p)
    ensures |SplitextExt(p)| <= |p| && SplitextExt(p) == p[|p| - |SplitextExt(p)|..]
  {
    var ext := SplitextExt(p);
    if ext != [] {
      var dot := LastIndexOf(p, '.');
      assert ext == p[dot..];
      NoneAfterLast(p, '/', dot);
      NoneAfterLast(p, '.', dot + 1);
      assert ext[1..] == p[dot + 1..];
    }
  }

  /** Appending text without `c` does not move the last `c`. */
  lemma {:induction false} LastIndexOfAppend(q: string, e: string, c: char)
    requires c !in e
    ensures LastIndexOf(q + e, c) == LastIndexOf(q, c)
    decreases |e|
  {
    var p := q + e;
    if |e| > 0 {
      assert p[|p| - 1] == e[|e| - 1];
      assert p[..|p| - 1] == q + e[..|e| - 1];
      LastIndexOfAppend(q, e[..|e| - 1], c);
    } else {
      assert p == q;
    }
  }

  /** Text after a component that is not all dots leaves its leading dots alone. */
  lemma {:induction false} LeadingDotsAppend(a: string, b: string)
    requires LeadingDots(a) < |a|
    ensures LeadingDots(a + b) == LeadingDots(a)
  {
    if a[0] == '.' {
      assert (a + b)[1..] == a[1..] + b;
      LeadingDotsAppend(a[1..], b);
    }
  }

  /** In `root.e`, with `e` free of '.' and '/', the last '.' is the one before `e`
      and the last '/' is the last '/' of `root`. */
  lemma LastMarksOfExtension(root: string, e: string)
    requires '.' !in e && '/' !in e
    ensures LastIndexOf(root + "." + e, '.') == |root|
    ensures LastIndexOf(root + "." + e, '/') == LastIndexOf(root, '/')
  {
    var q := root + ".";
    assert root + "." + e == q + e;
    LastIndexOfAppend(q, e, '.');
    LastIndexOfAppend(q, e, '/');
    LastIndexOfAppend(root, ".", '/');
    assert q[|q| - 1] == '.';
  }

  /** Characterisation of `SplitextExt` from the other side: a name made of a root
      whose final component is not all dots, a dot, and a tail without '.' or '/'
      has exactly that dot and tail as its extension. */
  lemma SplitextOfExtension(root: string, e: string)
    requires '.' !in e && '/' !in e
    requires LeadingDots(FinalComponent(root)) < |FinalComponent(root)|
    ensures SplitextExt(root + "." + e) == "." + e
  {
    var p := root + "." + e;
    LastMarksOfExtension(root, e);
    var sep := LastIndexOf(root, '/');
    var c := FinalComponent(root);
    assert FinalComponent(p) == c + ("." + e);
    LeadingDotsAppend(c, "." + e);
    assert p[|root|..] == "." + e;
  }

  /** A name made of one dot and an extension (`.exe`) has no extension. */
  lemma BareDotFileHasNoExtension(e: string)
    requires '.' !in e && '/' !in e
    ensures SplitextExt("." + e) == []
  {
    LastIndexOfAppend(".", e, '.');
    LastIndexOfAppend(".", e, '/');
    assert FinalComponent("." + e) == "." + e;
  }

  /** So has such a final component after a directory (`dir/.exe`). */
  lemma DotFileHasNoExtension(dir: string, e: string)
    requires '.' !in e && '/' !in e
    ensures SplitextExt(dir + "/." + e) == []
  {
    var p := dir + "/." + e;
    var q := dir + "/.";
    assert p == q + e;
    LastIndexOfAppend(q, e, '.');
    LastIndexOfAppend(q, e, '/');
    assert q[|q| - 1] == '.' && q[|q| - 2] == '/';
    assert LastIndexOf(q[..|q| - 1], '/') == |dir|;
    assert LastIndexOf(p, '/') == |dir|;
    assert LastIndexOf(p, '.') == |dir| + 1;
    assert FinalComponent(p) == "." + e;
    assert LeadingDots("." + e) >= 1;
  }

  /** A path whose final component has no '.' has no extension. */
  lemma NoDotNoExtension(p: string)
    requires '.' !in FinalComponent(p)
    ensures SplitextExt(p) == []
  {
    var sep := LastIndexOf(p, '/');
    var c := FinalComponent(p);
    assert c == p[sep + 1..];
    forall j | sep < j < |p| ensures p[j] != '.' {
      assert p[j] == c[j - sep - 1];
    }
    assert LastIndexOf(p, '.') <= sep;
  }
}
