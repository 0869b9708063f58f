/** The parts of POSIX `os.path` the retrievers use to classify and name input files. */
module Paths {
  import opened Wrappers

  /** The position just after the last '/' of `p`, or 0 when there is none. */
  function NameStart(p: string): (k: nat)
    ensures k <= |p|
    ensures k > 0 ==> p[k - 1] == '/'
    ensures forall i :: k <= i < |p| ==> p[i] != '/'
  {
    if p == [] then 0
    else if p[|p| - 1] == '/' then |p|
    else NameStart(p[..|p| - 1])
  }

  /** `os.path.basename(p)`: everything after the last '/'. */
  function Basename(p: string): string
  {
    p[NameStart(p)..]
  }

  /** The position of the last '.' of `s`, if any. */
  function LastDot(s: string): (r: Option<nat>)
    ensures r.Some? ==> r.value < |s| && s[r.value] == '.'
    ensures forall i :: (if r.Some? then r.value + 1 else 0) <= i < |s| ==> s[i] != '.'
  {
    if s == [] then None
    else if s[|s| - 1] == '.' then Some(|s| - 1)
    else LastDot(s[..|s| - 1])
  }

  /** `os.path.splitext(p)[1]`: the last '.' of the file name and what follows it, unless
      the name holds only dots before that '.', as in a hidden file such as ".md". */
  function Extension(p: string): string
  {
    var name := Basename(p);
    match LastDot(name)
    case None => ""
    case Some(d) => if exists j :: 0 <= j < d && name[j] != '.' then name[d..] else ""
  }

  /** `str.lower()` restricted to the ASCII letters. */
  function Lower(s: string): (r: string)
    ensures |r| == |s|
  {
    if s == [] then []
    else [if 'A' <= s[0] <= 'Z' then (s[0] as int + 32) as char else s[0]] + Lower(s[1..])
  }

  lemma NameStartAfterSlash(dir: string, name: string)
    requires forall i :: 0 <= i < |name| ==> name[i] != '/'
    ensures NameStart(dir + "/" + name) == |dir| + 1
    decreases |name|
  {
    var p := dir + "/" + name;
    if name != [] {
      assert p[..|p| - 1] == dir + "/" + name[..|name| - 1];
      NameStartAfterSlash(dir, name[..|name| - 1]);
    }
  }

  lemma {:induction false} LastDotOfExt(stem: string, ext: string)
    requires |ext| > 0 && ext[0] == '.'
    requires forall i :: 1 <= i < |ext| ==> ext[i] != '.'
    ensures LastDot(stem + ext) == Some(|stem|)
    decreases |ext|
  {
    if |ext| > 1 {
      assert (stem + ext)[..|stem + ext| - 1] == stem + ext[..|ext| - 1];
      LastDotOfExt(stem, ext[..|ext| - 1]);
    }
  }

  /** For `dir/stem.ext`, the base name is `stem.ext` and the extension is `.ext`, provided
      the stem is not made of dots only and `.ext` has no further dot. */
  lemma {:induction false} ExtensionOfFile(dir: string, stem: string, ext: string)
    requires forall i :: 0 <= i < |stem + ext| ==> (stem + ext)[i] != '/'
    requires exists j :: 0 <= j < |stem| && stem[j] != '.'
    requires |ext| > 0 && ext[0] == '.'
    requires forall i :: 1 <= i < |ext| ==> ext[i] != '.'
    ensures Basename(dir + "/" + stem + ext) == stem + ext
    ensures Extension(dir + "/" + stem + ext) == ext
  {
    var p := dir + "/" + stem + ext;
    var name := stem + ext;
    assert p == dir + "/" + name;
    NameStartAfterSlash(dir, name);
    assert p[|dir| + 1..] == name;
    LastDotOfExt(stem, ext);
    var j :| 0 <= j < |stem| && stem[j] != '.';
    assert name[j] != '.';
    assert name[|stem|..] == ext;
  }
}
