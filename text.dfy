/** The handful of JavaScript string operations the core relies on, over
    `seq<char>`: `startsWith`, `endsWith`, `split('.')`, `join('.')`,
    `slice`, and ASCII case changes. */
module Text {

  /** `s.startsWith(prefix)` */
  predicate StartsWith(s: string, prefix: string)
  {
    |prefix| <= |s| && s[..|prefix|] == prefix
  }

  /** `s.endsWith(suffix)` */
  predicate EndsWith(s: string, suffix: string)
  {
    |suffix| <= |s| && s[|s| - |suffix|..] == suffix
  }

  /** `s.lastIndexOf(c)`: -1 when `c` does not occur. */
  function LastIndexOf(s: string, c: char): (r: int)
    ensures -1 <= r < |s|
    ensures r == -1 <==> c !in s
    ensures r >= 0 ==> s[r] == c && c !in s[r + 1..]
  {
    if |s| == 0 then -1
    else if s[|s| - 1] == c then |s| - 1
    else
      var r := LastIndexOf(s[..|s| - 1], c);
      assert s == s[..|s| - 1] + [s[|s| - 1]];
      r
  }

  /** `s.split('.')`: the maximal dot-free pieces, at least one. */
  function Split(s: string): (segs: seq<string>)
    ensures |segs| >= 1
    decreases |s|
  {
    var j := LastIndexOf(s, '.');
    if j < 0 then [s] else Split(s[..j]) + [s[j + 1..]]
  }

  /** `segs.join('.')` */
  function Join(segs: seq<string>): string
  {
    if |segs| == 0 then ""
    else if |segs| == 1 then segs[0]
    else Join(segs[..|segs| - 1]) + "." + segs[|segs| - 1]
  }

  /** `path.split('.').pop()`: the last segment. */
  function LastSegment(path: string): string
  {
    var segs := Split(path);
    segs[|segs| - 1]
  }

  /** `path.split('.')[0]`: the first segment. */
  function FirstSegment(path: string): string
  {
    Split(path)[0]
  }

  /** `path.split('.').slice(0, -1).join('.')`: the parent path, empty for a
      single-segment path. */
  function ParentPath(path: string): string
  {
    var segs := Split(path);
    Join(segs[..|segs| - 1])
  }

  /** `path.split('.').slice(1).join('.')`: everything after the first dot. */
  function DropFirstSegment(path: string): string
  {
    Join(Split(path)[1..])
  }

  /** ASCII `toUpperCase` of one character. */
  function UpperChar(c: char): char
  {
    if 'a' <= c <= 'z' then (c as int - 32) as char else c
  }

  /** ASCII `toLowerCase` of one character. */
  function LowerChar(c: char): char
  {
    if 'A' <= c <= 'Z' then (c as int + 32) as char else c
  }

  /** `s.charAt(0).toUpperCase() + s.slice(1)` */
  function UpperFirst(s: string): (r: string)
    ensures |r| == |s|
    ensures |s| > 0 ==> r[0] == UpperChar(s[0]) && r[1..] == s[1..]
  {
    if |s| == 0 then s else [UpperChar(s[0])] + s[1..]
  }

  /** `s.charAt(0).toLowerCase() + s.slice(1)` */
  function LowerFirst(s: string): (r: string)
    ensures |r| == |s|
    ensures |s| > 0 ==> r[0] == LowerChar(s[0]) && r[1..] == s[1..]
  {
    if |s| == 0 then s else [LowerChar(s[0])] + s[1..]
  }

  /** `s.slice(n)`, which yields "" once `n` passes the end. */
  function SliceFrom(s: string, n: nat): (r: string)
    ensures n <= |s| ==> r == s[n..]
    ensures n > |s| ==> r == ""
  {
    if n <= |s| then s[n..] else ""
  }

  /** Splitting and joining again gives back the string. */
  lemma {:induction false} JoinSplit(s: string)
    ensures Join(Split(s)) == s
    decreases |s|
  {
    var j := LastIndexOf(s, '.');
    if j >= 0 {
      JoinSplit(s[..j]);
      var segs := Split(s[..j]) + [s[j + 1..]];
      assert segs[..|segs| - 1] == Split(s[..j]);
      assert s == s[..j] + "." + s[j + 1..];
    }
  }

  /** No segment contains a dot. */
  lemma {:induction false} SplitDotFree(s: string)
    ensures forall k :: 0 <= k < |Split(s)| ==> '.' !in Split(s)[k]
    decreases |s|
  {
    var j := LastIndexOf(s, '.');
    if j >= 0 {
      SplitDotFree(s[..j]);
    }
  }

  /** A dot-free path is its own last segment and has parent "". */
  lemma ParentPathOfSegment(path: string)
    requires '.' !in path
    ensures ParentPath(path) == "" && LastSegment(path) == path
  {
    assert LastIndexOf(path, '.') == -1;
    assert Split(path) == [path];
  }

  /** The parent path is the text before the last dot, and the path is that
      parent, a dot and the last segment. */
  lemma ParentPathShape(path: string)
    requires '.' in path
    ensures ParentPath(path) == path[..LastIndexOf(path, '.')]
    ensures LastSegment(path) == path[LastIndexOf(path, '.') + 1..]
    ensures path == ParentPath(path) + "." + LastSegment(path)
  {
    var j := LastIndexOf(path, '.');
    var parent, last := path[..j], path[j + 1..];
    var segs := Split(path);
    assert segs == Split(parent) + [last];
    assert segs[..|segs| - 1] == Split(parent);
    JoinSplit(parent);
    assert ParentPath(path) == parent;
    SplitAround(path, j);
  }

  /** The text from position `i` on is a suffix of `s`. */
  lemma SuffixFrom(s: string, i: nat)
    requires i < |s|
    ensures EndsWith(s, [s[i]] + s[i + 1..])
  {
    assert s[i..] == [s[i]] + s[i + 1..];
  }

  lemma SplitAround(s: string, j: nat)
    requires j < |s|
    ensures s == s[..j] + [s[j]] + s[j + 1..]
  {
  }

  /** Joining one more segment extends the joined prefix with a dot. */
  lemma JoinPrefixStep(segs: seq<string>, i: nat)
    requires 1 <= i < |segs|
    ensures Join(segs[..i + 1]) == Join(segs[..i]) + "." + segs[i]
    ensures StartsWith(Join(segs[..i + 1]), Join(segs[..i]) + ".")
  {
    assert segs[..i + 1][..i] == segs[..i];
    var a := Join(segs[..i]) + ".";
    assert Join(segs[..i + 1]) == a + segs[i];
    assert (a + segs[i])[..|a|] == a;
  }

  /** A dotted prefix of a dotted prefix is a dotted prefix. */
  lemma StartsWithTrans(s: string, q: string, r: string)
    requires StartsWith(s, q + ".") && StartsWith(q, r + ".")
    ensures StartsWith(s, r + ".")
  {
    assert s[..|r + "."|] == q[..|r + "."|];
  }
}
