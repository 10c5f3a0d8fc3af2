/**
 * The path arithmetic of crop_pascal_voc.py: POSIX os.path.join, basename,
 * dirname and splitext on '/'-separated strings, str() of an index and the
 * crop file name built from it (line 104).
 */
module Paths {

  predicate NoSlash(s: string) {
    forall k | 0 <= k < |s| :: s[k] != '/'
  }

  predicate NoDot(s: string) {
    forall k | 0 <= k < |s| :: s[k] != '.'
  }

  predicate AllSlashes(s: string) {
    forall k | 0 <= k < |s| :: s[k] == '/'
  }

  predicate IsAbsolute(p: string) {
    |p| > 0 && p[0] == '/'
  }

  /** A directory name that does not end in '/'. */
  predicate IsDirectoryName(a: string) {
    a != [] && a[|a| - 1] != '/'
  }

  /** The directory part of a relative file name: empty, or a relative path ending in exactly one '/'. */
  predicate IsDirectoryPart(dir: string) {
    dir == [] || (|dir| >= 2 && dir[0] != '/' && dir[|dir| - 1] == '/' && dir[|dir| - 2] != '/')
  }

  /** A file stem: no '/', and not made of dots alone (so splitext does not take it for an extension). */
  predicate IsStem(stem: string) {
    NoSlash(stem) && exists k | 0 <= k < |stem| :: stem[k] != '.'
  }

  /** A file extension: a '.' followed by neither '.' nor '/'. */
  predicate IsExtension(ext: string) {
    |ext| >= 1 && ext[0] == '.' && NoSlash(ext) && NoDot(ext[1..])
  }

  /** s.rfind(ch): the index of the last ch in s, or -1 when there is none. */
  function RFind(s: string, ch: char): (r: int)
    ensures -1 <= r < |s|
    ensures r >= 0 ==> s[r] == ch
    ensures forall k | r < k < |s| :: s[k] != ch
  {
    if s == [] then -1
    else if s[|s| - 1] == ch then |s| - 1
    else RFind(s[..|s| - 1], ch)
  }

  /**
   * os.path.join(a, b): an absolute b replaces a; otherwise b follows a,
   * with one '/' between them unless a is empty or already ends in '/'.
   */
  function Join(a: string, b: string): string {
    if IsAbsolute(b) then b
    else if a == [] || a[|a| - 1] == '/' then a + b
    else a + "/" + b
  }

  /** os.path.basename(p): what follows the last '/' of p. */
  function Basename(p: string): string {
    p[RFind(p, '/') + 1..]
  }

  /** s.rstrip('/') */
  function StripTrailingSlashes(s: string): string {
    if s != [] && s[|s| - 1] == '/' then StripTrailingSlashes(s[..|s| - 1]) else s
  }

  /**
   * os.path.dirname(p): p up to its last '/', with the trailing slashes
   * removed unless nothing but slashes is left.
   */
  function Dirname(p: string): string {
    var head := p[..RFind(p, '/') + 1];
    if head != [] && !AllSlashes(head) then StripTrailingSlashes(head) else head
  }

  /**
   * os.path.splitext(p) as (root, ext): ext runs from the last '.' of the
   * last component, provided something other than a '.' precedes that dot
   * within the component; otherwise ext is empty.
   */
  function Splitext(p: string): (string, string) {
    var sep := RFind(p, '/');
    var dot := RFind(p, '.');
    if sep < dot && exists k | sep + 1 <= k < dot :: p[k] != '.' then (p[..dot], p[dot..])
    else (p, [])
  }

  /** The root of splitext(p). */
  function Stem(p: string): string {
    Splitext(p).0
  }

  /** A joined path starts with a (unless b is absolute), ends with b, and has at most one '/' inserted between them. */
  lemma JoinParts(a: string, b: string)
    ensures IsAbsolute(b) ==> Join(a, b) == b
    ensures !IsAbsolute(b) ==> |a| <= |Join(a, b)| && Join(a, b)[..|a|] == a
    ensures !IsAbsolute(b) ==> |Join(a, b)| == |a| + |b| || (|Join(a, b)| == |a| + |b| + 1 && Join(a, b)[|a|] == '/')
    ensures |b| <= |Join(a, b)| && Join(a, b)[|Join(a, b)| - |b|..] == b
  {
  }

  /** The base name is the longest suffix of p without a '/'. */
  lemma BasenameParts(p: string)
    ensures NoSlash(Basename(p))
    ensures |Basename(p)| <= |p| && p[|p| - |Basename(p)|..] == Basename(p)
    ensures |Basename(p)| < |p| ==> p[|p| - |Basename(p)| - 1] == '/'
  {
  }

  /** rstrip('/') removes exactly the run of slashes at the end of s. */
  lemma {:induction false} StripTrailingSlashesParts(s: string)
    ensures |StripTrailingSlashes(s)| <= |s| && s[..|StripTrailingSlashes(s)|] == StripTrailingSlashes(s)
    ensures AllSlashes(s[|StripTrailingSlashes(s)|..])
    ensures StripTrailingSlashes(s) == [] || StripTrailingSlashes(s)[|StripTrailingSlashes(s)| - 1] != '/'
  {
    if s != [] && s[|s| - 1] == '/' {
      var r := StripTrailingSlashes(s[..|s| - 1]);
      StripTrailingSlashesParts(s[..|s| - 1]);
      assert s[|r|..] == s[..|s| - 1][|r|..] + [s[|s| - 1]];
    }
  }

  /** p is its dirname, then a run of slashes, then its base name. */
  lemma DirnameParts(p: string)
    ensures |Dirname(p)| <= |p| && p[..|Dirname(p)|] == Dirname(p)
    ensures |Dirname(p)| + |Basename(p)| <= |p| && AllSlashes(p[|Dirname(p)|..|p| - |Basename(p)|])
  {
    var head := p[..RFind(p, '/') + 1];
    if head != [] && !AllSlashes(head) {
      StripTrailingSlashesParts(head);
      assert p[|Dirname(p)|..|p| - |Basename(p)|] == head[|Dirname(p)|..];
    }
  }

  /** splitext cuts p in two; a non-empty ext is a '.' followed by neither '/' nor '.'. */
  lemma SplitextParts(p: string)
    ensures Splitext(p).0 + Splitext(p).1 == p
    ensures Splitext(p).1 == [] || (Splitext(p).1[0] == '.' && NoSlash(Splitext(p).1) && NoDot(Splitext(p).1[1..]))
  {
    var dot := RFind(p, '.');
    if Splitext(p).1 != [] {
      assert p[..dot] + p[dot..] == p;
    }
  }

  function DigitChar(d: nat): (c: char)
    requires d < 10
    ensures '0' <= c <= '9'
    ensures c as int - '0' as int == d
  {
    (48 + d) as char
  }

  /** str(n) for a non-negative n: its decimal digits, without leading zeros. */
  function NatToString(n: nat): (s: string)
    ensures |s| >= 1
    ensures forall k | 0 <= k < |s| :: '0' <= s[k] <= '9'
    ensures (|s| == 1) == (n < 10)
  {
    if n < 10 then [DigitChar(n)]
    else NatToString(n / 10) + [DigitChar(n % 10)]
  }

  /** Distinct indices have distinct decimal strings. */
  lemma {:induction false} NatToStringInjective(a: nat, b: nat)
    requires NatToString(a) == NatToString(b)
    ensures a == b
  {
    if a >= 10 && b >= 10 {
      var sa, sb := NatToString(a), NatToString(b);
      assert sa[|sa| - 1] == DigitChar(a % 10);
      assert sb[|sb| - 1] == DigitChar(b % 10);
      assert sa[..|sa| - 1] == NatToString(a / 10);
      assert sb[..|sb| - 1] == NatToString(b / 10);
      NatToStringInjective(a / 10, b / 10);
    }
  }

  predicate IsDigits(s: string) {
    forall k | 0 <= k < |s| :: '0' <= s[k] <= '9'
  }

  /** The number a string of decimal digits denotes, most significant digit first. */
  function DigitsValue(s: string): nat
    requires IsDigits(s)
  {
    if s == [] then 0
    else DigitsValue(s[..|s| - 1]) * 10 + (s[|s| - 1] as int - '0' as int)
  }

  /** str(n) denotes n, and starts with '0' only for n = 0. */
  lemma {:induction false} NatToStringValue(n: nat)
    ensures DigitsValue(NatToString(n)) == n
    ensures (NatToString(n)[0] == '0') == (n == 0)
  {
    var s := NatToString(n);
    if n < 10 {
      assert s[..0] == [];
    } else {
      NatToStringValue(n / 10);
      assert s[..|s| - 1] == NatToString(n / 10);
      assert s[0] == NatToString(n / 10)[0];
    }
  }

  /** Conversely, every string of decimal digits without a leading zero (other than "0" itself) is str of the number it denotes. */
  lemma {:induction false} DigitsRoundTrip(s: string)
    requires IsDigits(s) && |s| >= 1 && (|s| > 1 ==> s[0] != '0')
    ensures NatToString(DigitsValue(s)) == s
  {
    var prefix, d := s[..|s| - 1], s[|s| - 1] as int - '0' as int;
    if |s| == 1 {
      assert prefix == [];
      assert s == [DigitChar(d)];
    } else {
      assert prefix[0] == s[0];
      DigitsRoundTrip(prefix);
      var v := DigitsValue(prefix);
      NatToStringValue(v);
      assert v != 0;
      var n := v * 10 + d;
      assert n / 10 == v && n % 10 == d;
      assert s == prefix + [DigitChar(d)];
    }
  }

  /** cls + "_" + str(index) + ".jpg", the file name of a crop (line 104). */
  function CropName(cls: string, index: nat): string {
    cls + "_" + NatToString(index) + ".jpg"
  }

  /** Within one class directory, distinct indices give distinct crop file names. */
  lemma CropNameInjective(cls: string, i: nat, j: nat)
    requires CropName(cls, i) == CropName(cls, j)
    ensures i == j
  {
    var si, sj := NatToString(i), NatToString(j);
    var n := |cls| + 1;
    assert |si| == |sj|;
    assert si == CropName(cls, i)[n..n + |si|];
    assert sj == CropName(cls, j)[n..n + |sj|];
    NatToStringInjective(i, j);
  }

  /** The names of the first two crops of class dog. */
  lemma CropNameExample()
    ensures CropName("dog", 0) == "dog_0.jpg" && CropName("dog", 1) == "dog_1.jpg"
  {
  }

  /** Joining a single component b onto a directory gives back b as the base name. */
  lemma BasenameOfJoin(a: string, b: string)
    requires NoSlash(b)
    ensures Basename(Join(a, b)) == b
  {
    var x := if a == [] || a[|a| - 1] == '/' then a else a + "/";
    assert Join(a, b) == x + b;
    BasenameAfterDirectory(x, b);
  }

  /** The dirname of y/b, for a plain name b, is y when y does not end in '/'. */
  lemma DirnameOfSlashed(y: string, b: string)
    requires y != [] && y[|y| - 1] != '/' && NoSlash(b)
    ensures Dirname(y + "/" + b) == y
  {
    var x := y + "/";
    var p := x + b;
    assert p == y + "/" + b;
    assert forall k | |x| <= k < |p| :: p[k] == b[k - |x|];
    assert p[|y|] == '/';
    assert RFind(p, '/') == |y|;
    assert p[..|y| + 1] == x;
    assert !AllSlashes(x) by {
      assert x[|y| - 1] != '/';
    }
    assert StripTrailingSlashes(x) == StripTrailingSlashes(y) by {
      assert x[..|x| - 1] == y;
    }
  }

  /** Joining a single component onto a directory name without a trailing '/' has that directory as its dirname. */
  lemma DirnameOfJoin(a: string, b: string)
    requires NoSlash(b) && a != [] && a[|a| - 1] != '/'
    ensures Dirname(Join(a, b)) == a
  {
    assert Join(a, b) == a + "/" + b;
    DirnameOfSlashed(a, b);
  }

  /**
   * Adding an extension to a file stem, after an optional directory part
   * ending in '/', and splitting it off again gives back the path without
   * the extension, and the extension.
   */
  lemma SplitextOfAddedExtension(dir: string, stem: string, ext: string)
    requires dir == [] || dir[|dir| - 1] == '/'
    requires IsStem(stem) && IsExtension(ext)
    ensures Splitext(dir + stem + ext) == (dir + stem, ext)
  {
    var p := dir + stem + ext;
    var n := |dir| + |stem|;
    assert p[n] == '.';
    assert forall k | |dir| <= k < |p| :: p[k] != '/';
    if dir != [] {
      assert p[|dir| - 1] == '/';
    }
    assert RFind(p, '/') == |dir| - 1;
    assert forall k | n < k < |p| :: p[k] == ext[1..][k - n - 1];
    assert RFind(p, '.') == n;
    var k :| 0 <= k < |stem| && stem[k] != '.';
    assert p[|dir| + k] != '.';
    assert p[..n] == dir + stem && p[n..] == ext;
  }

  /** The base name of a name after a directory part ending in '/' is what follows the directory part. */
  lemma BasenameAfterDirectory(dir: string, file: string)
    requires dir == [] || dir[|dir| - 1] == '/'
    requires NoSlash(file)
    ensures Basename(dir + file) == file
  {
    var name := dir + file;
    assert forall k | |dir| <= k < |name| :: name[k] == file[k - |dir|] != '/';
    if dir != [] {
      assert name[|dir| - 1] == '/';
    }
    assert RFind(name, '/') == |dir| - 1;
    assert name[|dir|..] == file;
  }

  /**
   * The dirname of a relative name dir + stem + ext joined onto a, when its
   * directory part dir is empty or ends in exactly one '/': a joined with dir.
   */
  lemma DirnameOfJoinWithDirectory(a: string, dir: string, stem: string, ext: string)
    requires IsDirectoryName(a) && IsDirectoryPart(dir)
    requires NoSlash(stem) && NoSlash(ext) && stem != []
    ensures Dirname(Join(a, dir + stem + ext)) + "/" == a + "/" + dir
    ensures IsDirectoryName(Dirname(Join(a, dir + stem + ext)))
  {
    var file := stem + ext;
    if dir == [] {
      assert Join(a, dir + stem + ext) == a + "/" + file;
      DirnameOfSlashed(a, file);
    } else {
      var y := a + "/" + dir[..|dir| - 1];
      assert Join(a, dir + stem + ext) == y + "/" + file;
      DirnameOfSlashed(y, file);
      assert y + "/" == a + "/" + dir;
    }
  }

  /** Swapping the extension of dir + stem + ext for newExt and taking the base name gives stem + newExt. */
  lemma BasenameOfReplacedExtension(dir: string, stem: string, ext: string, newExt: string)
    requires dir == [] || dir[|dir| - 1] == '/'
    requires IsStem(stem) && IsExtension(ext) && NoSlash(newExt)
    ensures Basename(Stem(dir + stem + ext) + newExt) == stem + newExt
  {
    SplitextOfAddedExtension(dir, stem, ext);
    assert Stem(dir + stem + ext) + newExt == dir + (stem + newExt);
    BasenameAfterDirectory(dir, stem + newExt);
  }

  /** Joining stem + ext onto d, where d + "/" is a + "/" + dir, is joining dir + stem + ext onto a. */
  lemma JoinAfterDirectory(d: string, a: string, dir: string, stem: string, ext: string)
    requires IsDirectoryName(d) && d + "/" == a + "/" + dir
    requires IsDirectoryName(a) && IsDirectoryPart(dir)
    requires stem != [] && stem[0] != '/'
    ensures Join(d, stem + ext) == Join(a, dir + stem + ext)
  {
    var prefix := a + "/";
    assert Join(d, stem + ext) == d + "/" + (stem + ext);
    assert Join(a, dir + stem + ext) == prefix + (dir + stem + ext);
    assert d + "/" + (stem + ext) == prefix + dir + stem + ext;
  }

  /**
   * Mirroring a relative file name dir + stem + ext under a directory a and
   * giving it the extension newExt instead, as dirname, splitext, basename
   * and join do it together, gives a/dir + stem + newExt: the directory part
   * of the name is kept. A directory part is empty or ends in exactly one '/'.
   */
  lemma ReplaceExtensionUnder(a: string, dir: string, stem: string, ext: string, newExt: string)
    requires IsDirectoryName(a) && IsDirectoryPart(dir)
    requires IsStem(stem) && IsExtension(ext) && NoSlash(newExt)
    ensures Join(Dirname(Join(a, dir + stem + ext)), Basename(Stem(dir + stem + ext) + newExt)) == Join(a, dir + stem + newExt)
  {
    var k :| 0 <= k < |stem| && stem[k] != '.';
    assert stem != [] && stem[0] != '/';
    var d := Dirname(Join(a, dir + stem + ext));
    DirnameOfJoinWithDirectory(a, dir, stem, ext);
    JoinAfterDirectory(d, a, dir, stem, newExt);
    BasenameOfReplacedExtension(dir, stem, ext, newExt);
  }
}
