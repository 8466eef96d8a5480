/**
 * File names: the last `/`-segment of a URL path (`pathname.split('/').pop()`),
 * Node's POSIX `path.basename` and `path.extname`, and the name of the
 * temporary file a download is written into.
 */
module Paths {

  /** The text after the last '/', or the whole string when it has none. */
  function LastSegment(p: string): string {
    if p == [] || p[|p| - 1] == '/' then ""
    else LastSegment(p[..|p| - 1]) + [p[|p| - 1]]
  }

  /** `p` without its trailing slashes. */
  function StripTrailingSlashes(p: string): string {
    if p != [] && p[|p| - 1] == '/' then StripTrailingSlashes(p[..|p| - 1]) else p
  }

  /** `path.basename(p)`: the last segment once trailing slashes are dropped. */
  function Basename(p: string): string {
    LastSegment(StripTrailingSlashes(p))
  }

  /** Index of the last '.' in `s`, or -1. */
  function LastDot(s: string): (i: int)
    ensures -1 <= i < |s|
  {
    if s == [] then -1
    else if s[|s| - 1] == '.' then |s| - 1
    else LastDot(s[..|s| - 1])
  }

  /**
   * The extension of a base name as `path.extname` computes it: from the last
   * '.' to the end, except that a base name with no '.', one whose only
   * leading '.' is its last, and ".." have none.
   */
  function ExtensionOf(base: string): string {
    var i := LastDot(base);
    if i <= 0 || base == ".." then "" else base[i..]
  }

  /** `path.extname(p)`. */
  function Extname(p: string): string {
    ExtensionOf(Basename(p))
  }

  /**
   * `[".", basename, extname, ".fget.tmp"].join('')`; the extension appears
   * twice, because the base name already ends with it.
   */
  function TempName(filename: string): string {
    "." + Basename(filename) + Extname(filename) + ".fget.tmp"
  }

  /**
   * The last segment is the longest suffix without a '/' that starts the
   * string or follows a '/'.
   */
  lemma {:induction false} LastSegmentShape(p: string)
    ensures var seg := LastSegment(p);
      && |seg| <= |p| && p[|p| - |seg|..] == seg
      && '/' !in seg
      && (|seg| == |p| || p[|p| - |seg| - 1] == '/')
  {
    if p != [] && p[|p| - 1] != '/' {
      var q := p[..|p| - 1];
      var last := p[|p| - 1];
      LastSegmentShape(q);
      var sq := LastSegment(q);
      assert LastSegment(p) == sq + [last];
      assert p == q + [last];
      assert p[|p| - |sq| - 1..] == q[|q| - |sq|..] + [last];
      assert '/' !in sq + [last];
      assert |sq| + 1 < |p| ==> p[|p| - |sq| - 2] == q[|q| - |sq| - 1];
    }
  }

  /** Stripping keeps a prefix, which does not end in '/', and drops only slashes. */
  lemma {:induction false} StripTrailingSlashesShape(p: string)
    ensures var q := StripTrailingSlashes(p);
      && |q| <= |p| && p[..|q|] == q
      && (q == [] || q[|q| - 1] != '/')
      && forall i :: |q| <= i < |p| ==> p[i] == '/'
  {
    if p != [] && p[|p| - 1] == '/' {
      StripTrailingSlashesShape(p[..|p| - 1]);
    }
  }

  /** `LastDot` finds the last '.', and -1 exactly when there is none. */
  lemma {:induction false} LastDotShape(s: string)
    ensures -1 <= LastDot(s) < |s|
    ensures LastDot(s) >= 0 ==> s[LastDot(s)] == '.'
    ensures forall j :: LastDot(s) < j < |s| ==> s[j] != '.'
  {
    if s != [] && s[|s| - 1] != '.' {
      LastDotShape(s[..|s| - 1]);
    }
  }

  /** An extension is a suffix of the base name that starts with its only '.'. */
  lemma ExtensionOfShape(base: string)
    ensures var e := ExtensionOf(base);
      && |e| <= |base| && base[|base| - |e|..] == e
      && (e == [] || e[0] == '.')
      && (e != [] ==> '.' !in e[1..])
    ensures ExtensionOf(base) != [] <==> (exists j :: 0 < j < |base| && base[j] == '.') && base != ".."
  {
    LastDotShape(base);
    var e := ExtensionOf(base);
    if exists j :: 0 < j < |base| && base[j] == '.' {
      var j :| 0 < j < |base| && base[j] == '.';
      assert LastDot(base) >= j;
    }
    if LastDot(base) > 0 {
      assert base[LastDot(base)] == '.';
    }
    if e != [] {
      forall k | 0 <= k < |e[1..]|
        ensures e[1..][k] != '.'
      {
        assert e[1..][k] == base[LastDot(base) + 1 + k];
      }
    }
  }

  /** The last segment holds no '/'. */
  lemma LastSegmentNoSlash(p: string)
    ensures '/' !in LastSegment(p)
  {
    LastSegmentShape(p);
  }

  /** The extension is a suffix of the base name. */
  lemma ExtensionSuffix(base: string)
    ensures |ExtensionOf(base)| <= |base| && base[|base| - |ExtensionOf(base)|..] == ExtensionOf(base)
  {
    LastDotShape(base);
  }

  /** A name without '/' is its own base name. */
  lemma BasenameOfSegment(name: string)
    requires '/' !in name
    ensures Basename(name) == name
  {
    assert StripTrailingSlashes(name) == name;
    LastSegmentShape(name);
  }

  /** The temporary name is a hidden file in the working directory. */
  lemma TempNameShape(filename: string)
    ensures TempName(filename)[0] == '.'
    ensures '/' !in TempName(filename)
    ensures |TempName(filename)| >= 9
    ensures TempName(filename)[|TempName(filename)| - 9..] == ".fget.tmp"
    ensures |Extname(filename)| <= |Basename(filename)|
      && Basename(filename)[|Basename(filename)| - |Extname(filename)|..] == Extname(filename)
  {
    var b := Basename(filename);
    var e := Extname(filename);
    LastSegmentNoSlash(StripTrailingSlashes(filename));
    ExtensionSuffix(b);
    HiddenTempShape(b, e);
  }

  lemma HiddenTempShape(b: string, e: string)
    requires '/' !in b
    requires |e| <= |b| && b[|b| - |e|..] == e
    ensures var t := "." + b + e + ".fget.tmp";
      t[0] == '.' && '/' !in t && t[|t| - 9..] == ".fget.tmp"
  {
    var t := "." + b + e + ".fget.tmp";
    assert t == ("." + b + e) + ".fget.tmp";
  }

  /** Renaming the temporary file onto the final name is never a no-op. */
  lemma TempNameDiffers(filename: string)
    ensures TempName(filename) != filename
  {
    TempNameShape(filename);
    if '/' !in filename {
      BasenameOfSegment(filename);
    }
  }

  /**
   * For a name without '/', the temporary name is the name with its extension
   * repeated, between a leading '.' and the ".fget.tmp" suffix.
   */
  lemma TempNameOfPlainName(name: string)
    requires '/' !in name
    ensures TempName(name) == "." + name + ExtensionOf(name) + ".fget.tmp"
    ensures |ExtensionOf(name)| <= |name| && name[|name| - |ExtensionOf(name)|..] == ExtensionOf(name)
  {
    BasenameOfSegment(name);
    ExtensionSuffix(name);
  }

  /** "a.gz" is downloaded into ".a.gz.gz.fget.tmp". */
  lemma TempNameExample()
    ensures TempName("a.gz") == ".a.gz.gz.fget.tmp"
  {
    TempNameOfPlainName("a.gz");
    ExtnameExample();
  }

  lemma ExtnameExample()
    ensures ExtensionOf("a.gz") == ".gz"
  {
    var name := "a.gz";
    assert name[..3] == "a.g" && name[..2] == "a.";
    assert LastDot(name) == 1;
  }
}
