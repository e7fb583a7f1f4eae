/** The parts of Python's `posixpath` the handlers use on file names. */
module Paths {

  /** `p.rfind(c)`: the last position of c, -1 when there is none. */
  function LastIndexOf(p: string, c: char): (i: int)
    ensures -1 <= i < |p|
    ensures i >= 0 ==> p[i] == c
    ensures forall k | i < k < |p| :: p[k] != c
  {
    if |p| == 0 then -1
    else if p[|p| - 1] == c then |p| - 1
    else LastIndexOf(p[..|p| - 1], c)
  }

  function LastSlash(p: string): int {
    LastIndexOf(p, '/')
  }

  predicate AllSlashes(s: string) {
    forall k | 0 <= k < |s| :: s[k] == '/'
  }

  function RStripSlashes(s: string): (r: string)
    ensures |r| <= |s| && r == s[..|r|]
    ensures |r| > 0 ==> r[|r| - 1] != '/'
  {
    if |s| > 0 && s[|s| - 1] == '/' then RStripSlashes(s[..|s| - 1]) else s
  }

  /** `posixpath.dirname`. */
  function DirName(p: string): string {
    var head := p[..LastSlash(p) + 1];
    if |head| > 0 && !AllSlashes(head) then RStripSlashes(head) else head
  }

  /** `posixpath.basename`. */
  function BaseName(p: string): string {
    p[LastSlash(p) + 1..]
  }

  predicate NoSlash(s: string) {
    forall k | 0 <= k < |s| :: s[k] != '/'
  }

  lemma LastSlashOfJoin(a: string, b: string)
    requires NoSlash(b)
    ensures LastSlash(a + "/" + b) == |a|
    decreases |b|
  {
    if |b| > 0 {
      var p := a + "/" + b;
      assert p[..|p| - 1] == a + "/" + b[..|b| - 1];
      assert p[|p| - 1] != '/';
      LastSlashOfJoin(a, b[..|b| - 1]);
    } else {
      assert a + "/" + b == a + "/";
      assert (a + "/")[|a|] == '/';
    }
  }

  /** The extension `os.path.splitext` returns: from the last dot of the
      last path component, provided that component has a character other
      than '.' before that dot; "" otherwise. */
  function Extension(p: string): (e: string)
    ensures e == "" || (|e| <= |p| && e == p[|p| - |e|..] && e[0] == '.' && NoSlash(e))
  {
    var sep := LastSlash(p);
    var dot := LastIndexOf(p, '.');
    if dot > sep && exists k | sep < k < dot :: p[k] != '.' then p[dot..] else ""
  }

  predicate NoDot(s: string) {
    forall k | 0 <= k < |s| :: s[k] != '.'
  }

  /** A plain file name "stem.x" has extension ".x". */
  lemma ExtensionOfPlainName(stem: string, x: string)
    requires |stem| > 0 && NoSlash(stem) && NoDot(stem)
    requires NoSlash(x) && NoDot(x)
    ensures Extension(stem + "." + x) == "." + x
  {
    var p := stem + "." + x;
    LastIndexOfSuffix(stem, x, '.');
    LastIndexOfNone(p, '/');
    assert p[0] == stem[0];
    assert p[|stem|..] == "." + x;
  }

  /** A file name without a dot in its last component has no extension. */
  lemma ExtensionWithoutDot(p: string)
    requires NoDot(p)
    ensures Extension(p) == ""
  {
    LastIndexOfNone(p, '.');
  }

  lemma {:induction false} LastIndexOfNone(p: string, c: char)
    requires forall k | 0 <= k < |p| :: p[k] != c
    ensures LastIndexOf(p, c) == -1
  {
    if |p| > 0 {
      LastIndexOfNone(p[..|p| - 1], c);
    }
  }

  /** In a + [c] + b with no c in b, the last c is the one after a. */
  lemma {:induction false} LastIndexOfSuffix(a: string, b: string, c: char)
    requires forall k | 0 <= k < |b| :: b[k] != c
    ensures LastIndexOf(a + [c] + b, c) == |a|
    decreases |b|
  {
    var p := a + [c] + b;
    if |b| > 0 {
      assert p[..|p| - 1] == a + [c] + b[..|b| - 1];
      LastIndexOfSuffix(a, b[..|b| - 1], c);
    } else {
      assert p[|p| - 1] == c;
    }
  }
}
