/** The part of Node's POSIX `path` module the gateway relies on:
    `path.extname`, as Node documents it and implements it. Trailing '/'
    characters are ignored, the extension is taken from the last path
    component, and it is empty when that component has no '.', when its
    last '.' is its first character, or when the component is "..". */
module NodePath {
  import opened Text

  /** The path without its trailing '/' characters. */
  function TrimTrailingSlashes(p: string): (r: string)
    ensures |r| <= |p| && r == p[..|r|]
    ensures r == [] || r[|r| - 1] != '/'
    ensures forall i :: |r| <= i < |p| ==> p[i] == '/'
  {
    if p != [] && p[|p| - 1] == '/' then TrimTrailingSlashes(p[..|p| - 1]) else p
  }

  /** The last component of the path, as `path.basename` gives it. */
  function Basename(p: string): (b: string)
    ensures '/' !in b
    ensures '/' !in p ==> b == p
  {
    var t := TrimTrailingSlashes(p);
    match LastIndexOf(t, '/')
    case None => t
    case Some(i) => t[i + 1..]
  }

  /** `path.extname(p)`: the last component's suffix from its last '.'. */
  function ExtName(p: string): (e: string)
    ensures e == "" || (e[0] == '.' && '.' !in e[1..] && '/' !in e)
    ensures '.' !in Basename(p) ==> e == ""
  {
    var b := Basename(p);
    match LastIndexOf(b, '.')
    case None => ""
    case Some(k) => if k == 0 || b == ".." then "" else b[k..]
  }

  /** A file name with something before its last '.' has the extension
      that starts at that '.', even an empty one ("index." gives "."). */
  lemma ExtNameOfDottedName(stem: string, ext: string)
    requires '/' !in stem && '/' !in ext && '.' !in ext
    requires stem != [] && stem + "." + ext != ".."
    ensures ExtName(stem + "." + ext) == "." + ext
  {
    var p := stem + "." + ext;
    assert '/' !in p by {
      forall i | 0 <= i < |p| ensures p[i] != '/' {
        if i < |stem| { assert p[i] == stem[i]; }
        else if i > |stem| { assert p[i] == ext[i - |stem| - 1]; }
      }
    }
    LastDotOfDottedName(stem, ext);
    assert p[|stem|..] == "." + ext;
  }

  /** A name whose only '.' is its first character has no extension. */
  lemma ExtNameOfLeadingDotName(ext: string)
    requires '/' !in ext && '.' !in ext
    ensures ExtName("." + ext) == ""
  {
    var p := "." + ext;
    assert '/' !in p by {
      forall i | 0 <= i < |p| ensures p[i] != '/' {
        if i > 0 { assert p[i] == ext[i - 1]; }
      }
    }
    LastDotOfDottedName("", ext);
  }

  /** For a file name without '/', a non-empty extension is the name's
      suffix from its last '.'. */
  lemma ExtNameStartsAtLastDot(p: string)
    requires '/' !in p && ExtName(p) != ""
    ensures LastIndexOf(p, '.').Some?
    ensures ExtName(p) == p[LastIndexOf(p, '.').value..]
  {
  }
}
