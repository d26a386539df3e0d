/** The POSIX `os.path` functions the pipeline uses to name files. */
module PyPath {

  /** `s.rfind(c)`: the last position holding `c`, or -1. */
  function RFind(s: string, c: char): (i: int)
    ensures -1 <= i < |s|
    ensures i >= 0 ==> s[i] == c
    ensures forall k :: i < k < |s| ==> s[k] != c
  {
    if |s| == 0 then -1
    else if s[|s| - 1] == c then |s| - 1
    else RFind(s[..|s| - 1], c)
  }

  /** `os.path.basename(p)`: everything after the last `/`. */
  function Basename(p: string): (r: string)
    ensures '/' !in r
    ensures |r| <= |p| && r == p[|p| - |r|..]
  {
    p[RFind(p, '/') + 1..]
  }

  /** `os.path.join(a, b)` with two components. */
  function JoinPath(a: string, b: string): string {
    if |b| > 0 && b[0] == '/' then b
    else if a == "" || a[|a| - 1] == '/' then a + b
    else a + "/" + b
  }

  /** The contract of `RFind` pins its result down: the last position of `c`. */
  lemma {:induction false} RFindIs(s: string, c: char, i: int)
    requires -1 <= i < |s|
    requires i >= 0 ==> s[i] == c
    requires forall k :: i < k < |s| ==> s[k] != c
    ensures RFind(s, c) == i
  {
    if |s| > 0 && s[|s| - 1] != c {
      RFindIs(s[..|s| - 1], c, i);
    }
  }

  /** A name joined under a directory is that name's basename again. */
  lemma BasenameOfJoin(dir: string, name: string)
    requires '/' !in name
    ensures Basename(JoinPath(dir, name)) == name
  {
    var p := JoinPath(dir, name);
    var pre := p[..|p| - |name|];
    assert p == pre + name;
    assert pre == [] || pre[|pre| - 1] == '/';
    assert forall k :: |pre| <= k < |p| ==> p[k] == name[k - |pre|];
    RFindIs(p, '/', |pre| - 1);
  }

  /** Some character of `p[lo..hi]` is not a dot. */
  predicate HasNonDot(p: string, lo: int, hi: int)
    requires 0 <= lo && hi <= |p|
  {
    exists k :: lo <= k < hi && p[k] != '.'
  }

  /** Whether a final path component has an extension for `splitext`: some
      dot in it comes after a character that is not a dot. A leading dot, as
      in `.bashrc`, does not start an extension. */
  predicate HasExtension(name: string) {
    exists d, k :: 0 <= k < d < |name| && name[d] == '.' && name[k] != '.'
  }

  /** `os.path.splitext(p)`: the extension is the last `.`-suffix of the final
      path component, unless every character before that dot is a dot too. */
  function Splitext(p: string): (r: (string, string))
    ensures r.0 + r.1 == p
    ensures r.1 == "" || (r.1[0] == '.' && '.' !in r.1[1..] && '/' !in r.1)
    ensures r.1 != "" <==> HasExtension(Basename(p))
  {
    var sepIndex := RFind(p, '/');
    var dotIndex := RFind(p, '.');
    SplitextCondition(p, sepIndex, dotIndex);
    if dotIndex > sepIndex && HasNonDot(p, sepIndex + 1, dotIndex) then
      assert p[..dotIndex] + p[dotIndex..] == p;
      (p[..dotIndex], p[dotIndex..])
    else
      (p, "")
  }

  /** The test `Splitext` makes on the last dot and the last separator is
      whether the final component has an extension. */
  lemma SplitextCondition(p: string, sepIndex: int, dotIndex: int)
    requires sepIndex == RFind(p, '/') && dotIndex == RFind(p, '.')
    ensures (dotIndex > sepIndex && HasNonDot(p, sepIndex + 1, dotIndex)) <==> HasExtension(Basename(p))
  {
    var name := Basename(p);
    assert name == p[sepIndex + 1..];
    if dotIndex > sepIndex && HasNonDot(p, sepIndex + 1, dotIndex) {
      var k :| sepIndex + 1 <= k < dotIndex && p[k] != '.';
      assert name[dotIndex - sepIndex - 1] == '.' && name[k - sepIndex - 1] != '.';
    }
    if HasExtension(name) {
      var d, k :| 0 <= k < d < |name| && name[d] == '.' && name[k] != '.';
      assert p[sepIndex + 1 + d] == '.';
      assert p[sepIndex + 1 + k] != '.';
    }
  }
}
