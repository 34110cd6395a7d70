/**
 * The three path operations the scripts use, as POSIX `os.path` defines them:
 * `join` of a directory and one name, `basename`, and the root half of
 * `splitext`.
 */
module Paths {
  import opened Strings

  const Sep: char := '/'

  /** `os.path.join(dir, name)`. */
  function Join(dir: string, name: string): string
  {
    if StartsWith(name, [Sep]) then name
    else if dir == "" || EndsWith(dir, [Sep]) then dir + name
    else dir + [Sep] + name
  }

  /** The joined path ends with the name and, unless the name is absolute, starts with the directory. */
  lemma JoinEnds(dir: string, name: string)
    ensures EndsWith(Join(dir, name), name)
    ensures !StartsWith(name, [Sep]) ==> StartsWith(Join(dir, name), dir)
  {
  }

  /** `os.path.basename(path)`: what follows the last separator. */
  function Basename(path: string): (b: string)
    ensures Sep !in b
    ensures EndsWith(path, b)
    ensures |b| < |path| ==> path[|path| - |b| - 1] == Sep
  {
    path[LastIndexOf(path, Sep) + 1..]
  }

  /**
   * `os.path.splitext(path)[0]`: the path without its extension. The
   * extension starts at the last dot of the final component, unless every
   * character of that component before the dot is itself a dot (a name such
   * as ".txt" has no extension).
   */
  function SplitextRoot(path: string): (root: string)
    ensures StartsWith(path, root)
  {
    var sepIndex := LastIndexOf(path, Sep);
    var dotIndex := LastIndexOf(path, '.');
    if dotIndex > sepIndex && exists i :: sepIndex < i < dotIndex && path[i] != '.'
    then path[..dotIndex]
    else path
  }

  /** Joining a name that holds no separator onto any directory keeps that name as the basename. */
  lemma BasenameOfJoin(dir: string, name: string)
    requires Sep !in name
    ensures Basename(Join(dir, name)) == name
  {
    assert !StartsWith(name, [Sep]) by {
      if |name| > 0 { assert name[0] in name; }
    }
    if dir == "" {
      assert Join(dir, name) == name;
    } else {
      var prefix := if EndsWith(dir, [Sep]) then dir else dir + [Sep];
      assert prefix[|prefix| - 1] == Sep;
      assert Join(dir, name) == prefix + name;
      LastIndexOfAfter(prefix, name, Sep);
      assert (prefix + name)[|prefix|..] == name;
    }
  }

  /**
   * For a name ending in ".txt" that has a character other than a dot before
   * the extension, the splitext root is the name without ".txt".
   */
  lemma {:induction false} SplitextRootOfTxt(name: string)
    requires EndsWith(name, ".txt") && Sep !in name
    requires exists i :: 0 <= i < |name| - 4 && name[i] != '.'
    ensures SplitextRoot(name) == name[..|name| - 4]
  {
    var d := |name| - 4;
    assert name[d] == '.';
    assert forall j :: d < j < |name| ==> name[j] == ".txt"[j - d];
    assert LastIndexOf(name, '.') == d;
    assert LastIndexOf(name, Sep) == -1;
  }

  /** A ".txt" name made of dots and the extension has no extension: its root is the whole name. */
  lemma {:induction false} SplitextRootOfDotsTxt(name: string)
    requires EndsWith(name, ".txt") && Sep !in name
    requires forall i :: 0 <= i < |name| - 4 ==> name[i] == '.'
    ensures SplitextRoot(name) == name
  {
    var d := |name| - 4;
    assert name[d] == '.';
    assert forall j :: d < j < |name| ==> name[j] == ".txt"[j - d];
    assert LastIndexOf(name, '.') == d;
    assert LastIndexOf(name, Sep) == -1;
  }
}
