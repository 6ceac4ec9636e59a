/** Node's POSIX `path.basename` and `path.extname`, on the characters of a
    path string. */
module JsPath {
  import opened JsText

  /** The path without the slashes at its end. */
  function StripTrailingSlashes(p: string): (r: string)
    ensures |r| <= |p| && r == p[..|r|]
    ensures |r| == 0 || r[|r| - 1] != '/'
    ensures forall i :: |r| <= i < |p| ==> p[i] == '/'
  {
    if |p| > 0 && p[|p| - 1] == '/' then StripTrailingSlashes(p[..|p| - 1]) else p
  }

  /** Everything after the last slash. */
  function AfterLastSlash(s: string): (r: string)
    ensures '/' !in r
    ensures EndsWith(s, r)
    ensures |r| == |s| || s[|s| - |r| - 1] == '/'
  {
    if |s| == 0 || s[|s| - 1] == '/' then ""
    else
      var r := AfterLastSlash(s[..|s| - 1]) + [s[|s| - 1]];
      assert s[|s| - |r|..] == s[..|s| - 1][|s| - |r|..] + [s[|s| - 1]];
      r
  }

  /** `path.basename(p)`: the last component, trailing slashes ignored. */
  function Basename(p: string): (r: string)
    ensures '/' !in r
  {
    AfterLastSlash(StripTrailingSlashes(p))
  }

  /** A name without slashes is its own basename. */
  lemma {:induction false} BasenameOfPlainName(name: string)
    requires '/' !in name
    ensures Basename(name) == name
    decreases |name|
  {
    if |name| > 0 {
      var init := name[..|name| - 1];
      assert '/' !in init;
      BasenameOfPlainName(init);
      assert StripTrailingSlashes(init) == init;
      assert name == init + [name[|name| - 1]];
    }
  }

  /** Index of the last occurrence of `c`, or -1. */
  function LastIndexOf(s: string, c: char): (r: int)
    ensures -1 <= r < |s|
    ensures r >= 0 ==> s[r] == c
    ensures forall i :: r < i < |s| ==> s[i] != c
  {
    if |s| == 0 then -1
    else if s[|s| - 1] == c then |s| - 1
    else LastIndexOf(s[..|s| - 1], c)
  }

  /** `path.extname(p)`: from the last dot of the last component to its end;
      empty when that component has no dot, when its only dot is its first
      character (a dot-file such as `.pdf`), or when it is exactly `..`.
      An extension starts with its dot (ExtNameShape says the rest). */
  function ExtName(p: string): (r: string)
    ensures r == "" || r[0] == '.'
  {
    var name := Basename(p);
    var dot := LastIndexOf(name, '.');
    if dot <= 0 || name == ".." then "" else name[dot..]
  }

  /** An extension is empty or a dot followed by dot-free, slash-free text,
      and it is a proper suffix of the basename. */
  lemma ExtNameShape(p: string)
    ensures var r := ExtName(p);
      r == "" || (r[0] == '.' && '.' !in r[1..] && '/' !in r && |r| < |Basename(p)| && EndsWith(Basename(p), r))
  {
    var name := Basename(p);
    var dot := LastIndexOf(name, '.');
    if 0 < dot && name != ".." {
      TailFromDot(name, dot);
    }
  }

  lemma TailFromDot(name: string, dot: int)
    requires '/' !in name && 0 < dot < |name| && name[dot] == '.'
    requires forall i :: dot < i < |name| ==> name[i] != '.'
    ensures var r := name[dot..];
      r[0] == '.' && '.' !in r[1..] && '/' !in r && |r| < |name| && EndsWith(name, r)
  {
    var r := name[dot..];
    assert r[1..] == name[dot + 1..];
    assert '.' !in r[1..] by {
      forall j | 0 <= j < |r| - 1 ensures r[1..][j] != '.' {
        assert r[1..][j] == name[dot + 1 + j];
      }
    }
    forall c | c in r ensures c in name {
      var i :| 0 <= i < |r| && r[i] == c;
      assert name[dot + i] == c;
    }
    assert name[|name| - |r|..] == r;
  }

  /** A plain name made of a non-empty stem and an extension has that
      extension. */
  lemma ExtNameOfStemAndExtension(stem: string, ext: string)
    requires |stem| > 0 && '/' !in stem
    requires |ext| > 0 && ext[0] == '.' && '.' !in ext[1..] && '/' !in ext
    requires stem + ext != ".."
    ensures ExtName(stem + ext) == ext
  {
    var name := stem + ext;
    assert '/' !in name;
    BasenameOfPlainName(name);
    assert name[|stem|] == '.';
    forall i | |stem| < i < |name| ensures name[i] != '.' {
      assert name[i] == ext[1..][i - |stem| - 1];
    }
    LastIndexIsUnique(name, '.', |stem|);
  }

  /** A name without any dot has no extension. */
  lemma ExtNameWithoutDot(name: string)
    requires '/' !in name && '.' !in name
    ensures ExtName(name) == ""
  {
    BasenameOfPlainName(name);
    assert forall i :: 0 <= i < |name| ==> name[i] != '.';
  }

  /** A trailing slash does not change the extension. */
  lemma ExtNameIgnoresTrailingSlash(p: string)
    ensures ExtName(p + "/") == ExtName(p)
  {
    BasenameIgnoresTrailingSlash(p);
  }

  lemma BasenameIgnoresTrailingSlash(p: string)
    ensures Basename(p + "/") == Basename(p)
  {
    var q := p + "/";
    assert q[|q| - 1] == '/' && q[..|q| - 1] == p;
    assert StripTrailingSlashes(q) == StripTrailingSlashes(p);
  }

  /** The extension of a name without slashes, from its last dot. */
  lemma PlainExtName(name: string)
    requires '/' !in name
    ensures var dot := LastIndexOf(name, '.');
      ExtName(name) == if dot <= 0 || name == ".." then "" else name[dot..]
  {
    BasenameOfPlainName(name);
  }

  /** The last index of `c` is the one after which `c` no longer occurs. */
  lemma LastIndexIsUnique(s: string, c: char, k: int)
    requires 0 <= k < |s| && s[k] == c && forall i :: k < i < |s| ==> s[i] != c
    ensures LastIndexOf(s, c) == k
  {
  }
}
