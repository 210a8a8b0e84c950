/** The parts of Python's `posixpath` that the converter uses to name files:
    `basename`, `dirname`, `splitext` and `join`. */
module Paths {
  import Text

  /** Index of the last `c` in `s`, or -1 (`str.rfind`). */
  function LastIndex(s: string, c: char): (r: int)
    ensures -1 <= r < |s|
    ensures r >= 0 ==> s[r] == c
    ensures forall k :: r < k < |s| ==> s[k] != c
  {
    if s == [] then -1
    else if s[|s| - 1] == c then |s| - 1
    else LastIndex(s[..|s| - 1], c)
  }

  /** `os.path.basename`: the text after the last `/`. */
  function Basename(p: string): (r: string)
    ensures '/' !in r
  {
    p[LastIndex(p, '/') + 1..]
  }

  /** `os.path.dirname`: everything up to the last `/`, without trailing
      slashes unless it consists of slashes only. */
  function Dirname(p: string): (r: string)
  {
    var head := p[..LastIndex(p, '/') + 1];
    if head != [] && exists k :: 0 <= k < |head| && head[k] != '/' then StripSlashes(head)
    else head
  }

  function StripSlashes(s: string): (r: string)
    ensures r <= s
    ensures r == [] || r[|r| - 1] != '/'
  {
    if s != [] && s[|s| - 1] == '/' then StripSlashes(s[..|s| - 1]) else s
  }

  /** Whether `p[from..to]` holds a character other than `.`. */
  predicate HasNonDot(p: string, from: nat, to: nat)
    requires from <= to <= |p|
  {
    exists k :: from <= k < to && p[k] != '.'
  }

  /** `os.path.splitext`: `(root, ext)` where `ext` runs from the last `.` of the
      last path component, unless every character of the component before that
      dot is a dot too (a leading-dot name such as `.bashrc` has no extension). */
  function SplitExt(p: string): (r: (string, string))
    ensures r.0 + r.1 == p
    ensures r.1 == [] || (r.1[0] == '.' && '.' !in r.1[1..] && '/' !in r.1)
  {
    var sep := LastIndex(p, '/');
    var dot := LastIndex(p, '.');
    if dot > sep && HasNonDot(p, sep + 1, dot) then
      assert p == p[..dot] + p[dot..];
      assert forall k :: 1 <= k < |p[dot..]| ==> p[dot..][k] == p[dot + k];
      (p[..dot], p[dot..])
    else
      (p, [])
  }

  /** When `splitext` finds an extension: exactly when some dot of the last
      path component has a non-dot character before it in that component. */
  lemma SplitExtExtension(p: string)
    ensures var r := SplitExt(p);
      && (r.1 != [] ==> LastIndex(p, '/') < |r.0| && HasNonDot(p, LastIndex(p, '/') + 1, |r.0|))
      && (r.1 == [] ==> forall d :: LastIndex(p, '/') < d < |p| && p[d] == '.' ==>
                                      !HasNonDot(p, LastIndex(p, '/') + 1, d))
  {
    var sep := LastIndex(p, '/');
    var dot := LastIndex(p, '.');
    if !(dot > sep && HasNonDot(p, sep + 1, dot)) {
      forall d | sep < d < |p| && p[d] == '.' ensures !HasNonDot(p, sep + 1, d) {
        HasNonDotWidens(p, sep + 1, d, dot);
      }
    }
  }

  /** A wider range keeps a non-dot character of a narrower one. */
  lemma HasNonDotWidens(p: string, from: nat, to: nat, to': nat)
    requires from <= to <= to' <= |p|
    ensures HasNonDot(p, from, to) ==> HasNonDot(p, from, to')
  {
  }

  /** The name of a file without its extension, as line 357 and 492 compute it:
      `os.path.splitext(os.path.basename(path))[0]`. */
  function Stem(path: string): (r: string)
    ensures '/' !in r
    ensures r + SplitExt(Basename(path)).1 == Basename(path)
  {
    var b := Basename(path);
    var r := SplitExt(b).0;
    PrefixKeeps(r, SplitExt(b).1, '/');
    r
  }

  /** A character absent from `s + t` is absent from `s`. */
  lemma PrefixKeeps(s: string, t: string, c: char)
    requires c !in s + t
    ensures c !in s
  {
    forall k | 0 <= k < |s| ensures s[k] != c {
      assert s[k] == (s + t)[k];
    }
  }

  /** `os.path.join(a, b)`. */
  function Join(a: string, b: string): (r: string)
    ensures '/' !in b ==> Text.EndsWith(r, b)
  {
    if b != [] && b[0] == '/' then b
    else if a == [] || a[|a| - 1] == '/' then a + b
    else a + "/" + b
  }

  /** Joining a plain name onto a directory and taking the base name gives the
      name back. */
  lemma BasenameOfJoin(a: string, b: string)
    requires '/' !in b
    ensures Basename(Join(a, b)) == b
  {
    var pre := if a == [] || a[|a| - 1] == '/' then a else a + "/";
    assert Join(a, b) == pre + b;
    LastIndexSkips(pre, b, '/');
    assert pre == [] || LastIndex(pre, '/') == |pre| - 1;
    assert (pre + b)[|pre|..] == b;
  }

  /** The last `c` of `pre + b` is the last `c` of `pre` when `b` has none. */
  lemma {:induction false} LastIndexSkips(pre: string, b: string, c: char)
    requires c !in b
    ensures LastIndex(pre + b, c) == LastIndex(pre, c)
    decreases |b|
  {
    if b == [] {
      assert pre + b == pre;
    } else {
      var b' := b[..|b| - 1];
      assert (pre + b)[..|pre + b| - 1] == pre + b';
      assert (pre + b)[|pre + b| - 1] == b[|b| - 1];
      assert c !in b' by {
        forall k | 0 <= k < |b'| ensures b'[k] != c {
          assert b'[k] == b[k];
        }
      }
      LastIndexSkips(pre, b', c);
    }
  }

  /** Adding an extension to a stem that holds more than dots splits back into
      the stem and that extension. */
  lemma SplitExtOfAddedExtension(stem: string, ext: string)
    requires '/' !in stem && exists k :: 0 <= k < |stem| && stem[k] != '.'
    requires |ext| >= 1 && ext[0] == '.' && '.' !in ext[1..] && '/' !in ext
    ensures SplitExt(stem + ext) == (stem, ext)
  {
    var p := stem + ext;
    var dot := LastIndex(p, '.');
    var sep := LastIndex(p, '/');
    assert p[|stem|] == '.';
    assert forall k :: |stem| < k < |p| ==> p[k] != '.' by {
      forall k | |stem| < k < |p| ensures p[k] != '.' {
        assert p[k] == ext[1..][k - |stem| - 1];
      }
    }
    assert forall k :: 0 <= k < |p| ==> p[k] != '/' by {
      forall k | 0 <= k < |p| ensures p[k] != '/' {
        if k < |stem| { assert p[k] == stem[k]; } else { assert p[k] == ext[k - |stem|]; }
      }
    }
    assert dot == |stem|;
    assert sep == -1;
    var k :| 0 <= k < |stem| && stem[k] != '.';
    assert p[k] != '.';
    assert p[..dot] == stem;
  }
}
