/** Paths as sequences of components, with the parts of Rust's `std::path`
    the pipeline relies on: file name, stem, extension, their replacement, and
    the numbered collision candidates of a `.jxl` output. */
module Paths {
  import opened Base

  /** One component of a path: a directory or file name. */
  type Name = string

  /** A path, root component first. */
  type Path = seq<Name>

  /** `components().count()`, the key of the scheduler's sort. */
  function Depth(p: Path): nat { |p| }

  /** A normal component: not the empty name, not "." or "..", and free of the
      separators and the drive colon that only root and prefix components
      (`\`, `/`, `C:`) carry on Windows, where the encoder `cjxl.exe` runs. */
  predicate NormalName(n: Name) {
    n != "" && n != "." && n != ".." && SeparatorFree(n)
  }

  /** No '/', '\\' or ':' in the text. */
  predicate SeparatorFree(t: string) {
    forall i :: 0 <= i < |t| ==> t[i] != '/' && t[i] != '\\' && t[i] != ':'
  }

  lemma SeparatorFreeConcat(a: string, b: string)
    requires SeparatorFree(a) && SeparatorFree(b)
    ensures SeparatorFree(a + b)
  {
    forall i | 0 <= i < |a + b| ensures (a + b)[i] != '/' && (a + b)[i] != '\\' && (a + b)[i] != ':' {
      if i >= |a| {
        assert (a + b)[i] == b[i - |a|];
      }
    }
  }

  /** `file_name()`, with `unwrap_or_default`: the last component when it is a
      normal name, else the empty name (a root, a prefix, "..", or no
      component at all has none). */
  function FileName(p: Path): (r: Name)
    ensures r == "" || NormalName(r)
  {
    if p != [] && NormalName(p[|p| - 1]) then p[|p| - 1] else ""
  }

  /** The path without its file name (`pop` when there is one). */
  function Parent(p: Path): Path {
    if FileName(p) != "" then p[..|p| - 1] else p
  }

  /** `with_file_name`: the file name, if there is one, is replaced; otherwise
      `name` is appended. */
  function WithFileName(p: Path, name: Name): (r: Path)
    ensures r == Parent(p) + [name]
    ensures NormalName(name) ==> FileName(r) == name
  {
    Parent(p) + [name]
  }

  /** Index of the last '.' of a name. */
  function LastDot(s: string): (r: Option<nat>)
    ensures r.Some? ==> r.value < |s| && s[r.value] == '.' && '.' !in s[r.value + 1..]
    ensures r.None? ==> '.' !in s
  {
    if s == [] then None
    else if s[|s| - 1] == '.' then Some(|s| - 1)
    else
      var r := LastDot(s[..|s| - 1]);
      if r.Some? then
        assert s[r.value + 1..] == s[..|s| - 1][r.value + 1..] + [s[|s| - 1]];
        r
      else
        assert s == s[..|s| - 1] + [s[|s| - 1]];
        r
  }

  /** `file_stem()` of a name (Rust's `rsplit_file_at_dot`): the part before the
      last dot; a name without a dot, a name whose only dot leads it, and ".."
      are their own stem. */
  function Stem(name: Name): Name {
    if name == ".." then name
    else match LastDot(name)
      case None => name
      case Some(i) => if i == 0 then name else name[..i]
  }

  /** `extension()` of a name: the part after the last dot, under the same rules. */
  function Extension(name: Name): Option<string> {
    if name == ".." then None
    else match LastDot(name)
      case None => None
      case Some(i) => if i == 0 then None else Some(name[i + 1..])
  }

  /** A name is its stem, or its stem, a dot and a dot-free extension. */
  lemma StemAndExtension(name: Name)
    ensures Extension(name).None? ==> Stem(name) == name
    ensures Extension(name).Some? ==>
      '.' !in Extension(name).value && name == Stem(name) + "." + Extension(name).value
    ensures name != [] ==> Stem(name) != []
  {
    if name != ".." && LastDot(name).Some? && LastDot(name).value != 0 {
      var i := LastDot(name).value;
      assert name == name[..i] + "." + name[i + 1..];
    }
  }

  /** `with_extension(ext)`: the file name becomes its stem, a dot and `ext`;
      a path without a file name is returned unchanged. */
  function WithExtension(p: Path, ext: string): Path {
    if FileName(p) == "" then p else WithFileName(p, Stem(FileName(p)) + "." + ext)
  }

  /** A path without a file name (a root, a drive, or one ending in "..") keeps
      its form under `with_extension`. */
  lemma NoNameKeepsPath(p: Path, ext: string)
    requires p == [] || !NormalName(p[|p| - 1])
    ensures WithExtension(p, ext) == p
  {
  }

  /** The stem of a name is a prefix of it. */
  lemma StemIsPrefix(name: Name)
    ensures Stem(name) <= name
  {
  }

  /** Replacing the extension keeps the stem and sets the extension. */
  lemma {:induction false} WithExtensionParts(p: Path, ext: string)
    requires FileName(p) != [] && NormalName(ext) && '.' !in ext
    ensures WithExtension(p, ext) == Parent(p) + [Stem(FileName(p)) + "." + ext]
    ensures Stem(FileName(WithExtension(p, ext))) == Stem(FileName(p))
    ensures Extension(FileName(WithExtension(p, ext))) == Some(ext)
  {
    var s := Stem(FileName(p));
    StemAndExtension(FileName(p));
    var n := s + "." + ext;
    StemIsPrefix(FileName(p));
    assert NormalName(n) by {
      assert |n| >= 3;
      forall i | 0 <= i < |n| ensures n[i] != '/' && n[i] != '\\' && n[i] != ':' {
        if i < |s| {
          assert n[i] == FileName(p)[i];
        } else if i > |s| {
          assert n[i] == ext[i - |s| - 1];
        }
      }
    }
    assert FileName(WithExtension(p, ext)) == n;
    assert n[|s|] == '.';
    assert n[|s| + 1..] == ext;
    LastDotAt(n, |s|);
    assert |n| >= 3;
  }

  /** A dot after which no dot follows is the last dot. */
  lemma {:induction false} LastDotAt(s: string, i: nat)
    requires i < |s| && s[i] == '.' && '.' !in s[i + 1..]
    ensures LastDot(s) == Some(i)
  {
    if i < |s| - 1 {
      assert s[i + 1..] == s[i + 1..|s| - 1] + [s[|s| - 1]];
      assert s[..|s| - 1][i + 1..] == s[i + 1..|s| - 1];
      LastDotAt(s[..|s| - 1], i);
    }
  }

  /** Rust's `Display` of an unsigned integer: decimal digits, no leading zeros. */
  function Decimal(n: nat): (r: string)
    ensures r != []
    ensures forall i :: 0 <= i < |r| ==> '0' <= r[i] <= '9'
    ensures n >= 10 ==> |r| >= 2
    decreases n
  {
    if n < 10 then [Digit(n)] else Decimal(n / 10) + [Digit(n % 10)]
  }

  function Digit(d: nat): (c: char)
    requires d < 10
    ensures '0' <= c <= '9'
  {
    ('0' as int + d) as char
  }

  lemma {:induction false} DecimalInjective(a: nat, b: nat)
    requires Decimal(a) == Decimal(b)
    ensures a == b
    decreases a
  {
    if a >= 10 && b >= 10 {
      var da, db := Decimal(a), Decimal(b);
      assert da[|da| - 1] == Digit(a % 10) && db[|db| - 1] == Digit(b % 10);
      assert da[..|da| - 1] == Decimal(a / 10) && db[..|db| - 1] == Decimal(b / 10);
      DecimalInjective(a / 10, b / 10);
    } else if a < 10 && b < 10 {
      assert Decimal(a)[0] == Digit(a);
    }
  }

  /** The `stem(k).jxl` name the collision probe gives its k-th candidate (src/main.rs:116-123). */
  function NumberedName(jxl: Path, k: nat): Name {
    Stem(FileName(jxl)) + "(" + Decimal(k) + ").jxl"
  }

  /** The k-th member of the collision family of `jxl`: `jxl` itself for k = 0,
      else `<stem>(k).jxl` in the same directory. */
  function Candidate(jxl: Path, k: nat): Path {
    if k == 0 then jxl else WithFileName(jxl, NumberedName(jxl, k))
  }

  /** Renaming candidate `k` to the next numbered name gives candidate `k + 1`,
      as the probe does when it reuses its last path. */
  lemma CandidateNext(jxl: Path, k: nat)
    ensures WithFileName(Candidate(jxl, k), NumberedName(jxl, k + 1)) == Candidate(jxl, k + 1)
  {
    if k > 0 {
      NumberedNameNormal(jxl, k);
      assert FileName(Candidate(jxl, k)) == NumberedName(jxl, k);
    }
  }

  /** Two different indices never name the same candidate, whatever `jxl` is. */
  lemma CandidateInjective(jxl: Path, i: nat, j: nat)
    requires Candidate(jxl, i) == Candidate(jxl, j)
    ensures i == j
  {
    if i != 0 && j != 0 {
      NumberedNameInjective(jxl, i, j);
    } else if i != 0 {
      NotOwnCandidate(jxl, i);
    } else if j != 0 {
      NotOwnCandidate(jxl, j);
    }
  }

  lemma NumberedNameInjective(jxl: Path, i: nat, j: nat)
    requires i != 0 && j != 0
    requires WithFileName(jxl, NumberedName(jxl, i)) == WithFileName(jxl, NumberedName(jxl, j))
    ensures i == j
  {
    var s := Stem(FileName(jxl));
    var a, b := NumberedName(jxl, i), NumberedName(jxl, j);
    var r := WithFileName(jxl, a);
    assert a == r[|r| - 1] == b;
    var di, dj := Decimal(i), Decimal(j);
    assert |di| == |dj|;
    assert a[|s| + 1..|s| + 1 + |di|] == di;
    assert b[|s| + 1..|s| + 1 + |dj|] == dj;
    DecimalInjective(i, j);
  }

  /** A numbered name is a normal component. */
  lemma NumberedNameNormal(jxl: Path, k: nat)
    ensures NormalName(NumberedName(jxl, k))
  {
    var name := FileName(jxl);
    var s := Stem(name);
    StemIsPrefix(name);
    assert SeparatorFree(s) by {
      forall i | 0 <= i < |s| ensures s[i] != '/' && s[i] != '\\' && s[i] != ':' {
        assert s[i] == name[i];
      }
    }
    assert SeparatorFree("(") && SeparatorFree(").jxl");
    SeparatorFreeConcat(s, "(");
    SeparatorFreeConcat(s + "(", Decimal(k));
    SeparatorFreeConcat(s + "(" + Decimal(k), ").jxl");
    assert |NumberedName(jxl, k)| >= 6;
  }

  /** A numbered name has the extension "jxl". */
  lemma NumberedNameExtension(jxl: Path, k: nat)
    ensures Extension(NumberedName(jxl, k)) == Some("jxl")
  {
    var n := NumberedName(jxl, k);
    var head := Stem(FileName(jxl)) + "(" + Decimal(k) + ")";
    assert n == head + ".jxl";
    assert n[|head|] == '.' && n[|head| + 1..] == "jxl";
    LastDotAt(n, |head|);
  }

  lemma NotOwnCandidate(jxl: Path, k: nat)
    requires k != 0
    ensures Candidate(jxl, k) != jxl
  {
    var n := NumberedName(jxl, k);
    var name := FileName(jxl);
    if name == "" {
      assert |Candidate(jxl, k)| == |jxl| + 1;
    } else {
      var s := Stem(name);
      StemAndExtension(name);
      if Extension(name).None? {
        assert |n| > |name|;
      } else {
        assert n[|s|] == '(' && name[|s|] == '.';
      }
      assert Candidate(jxl, k)[|jxl| - 1] == n != name == jxl[|jxl| - 1];
    }
  }

  /** Every candidate of a path with a file name lies in the same directory. */
  lemma CandidateSibling(jxl: Path, k: nat)
    requires FileName(jxl) != ""
    ensures |Candidate(jxl, k)| == |jxl|
    ensures Candidate(jxl, k)[..|jxl| - 1] == jxl[..|jxl| - 1]
  {
  }

  /** `folder.with_extension("zip")`: the archive of a folder, beside it. */
  function ZipPath(folder: Path): Path {
    WithExtension(folder, "zip")
  }

  /** Two sibling folders with the same stem share one archive path, however
      their names continue after the last dot. */
  lemma SiblingsShareZipPath(a: Path, b: Path)
    requires FileName(a) != "" && FileName(b) != ""
    requires Parent(a) == Parent(b) && Stem(FileName(a)) == Stem(FileName(b))
    ensures ZipPath(a) == ZipPath(b)
  {
    WithExtensionParts(a, "zip");
    WithExtensionParts(b, "zip");
  }

  /** The archive of a folder whose name has its last dot at `i > 0` is the
      name's first `i` characters followed by ".zip", beside it. */
  lemma DottedZipPath(parent: Path, n: Name, i: nat)
    requires 0 < i < |n| && n[i] == '.' && '.' !in n[i + 1..] && NormalName(n)
    ensures ZipPath(parent + [n]) == parent + [n[..i] + "." + "zip"]
  {
    var p := parent + [n];
    LastDotAt(n, i);
    assert FileName(p) == n;
    assert p[..|p| - 1] == parent;
  }

  /** Two different folders share one archive path: "vol.1" and "vol.2" beside
      each other both give "vol.zip", and so does any `stem.x` and `stem.y`. */
  lemma SiblingsCanShareZipPath(parent: Path, stem: Name, x: string, y: string)
    requires stem != "" && '.' !in stem && SeparatorFree(stem)
    requires x != y && '.' !in x && '.' !in y && SeparatorFree(x) && SeparatorFree(y)
    ensures stem + "." + x != stem + "." + y
    ensures ZipPath(parent + [stem + "." + x]) == ZipPath(parent + [stem + "." + y])
                                                == parent + [stem + "." + "zip"]
  {
    DottedName(parent, stem, x);
    DottedName(parent, stem, y);
    assert (stem + "." + x)[|stem| + 1..] == x;
  }

  /** The archive of `stem.x` is `stem.zip` beside it. */
  lemma DottedName(parent: Path, stem: Name, x: string)
    requires stem != "" && '.' !in stem && SeparatorFree(stem)
    requires '.' !in x && SeparatorFree(x)
    ensures ZipPath(parent + [stem + "." + x]) == parent + [stem + "." + "zip"]
  {
    var n := stem + "." + x;
    assert n[|stem|] == '.' && n[|stem| + 1..] == x && n[..|stem|] == stem;
    SeparatorFreeConcat(stem, ".");
    SeparatorFreeConcat(stem + ".", x);
    assert n != "" && n != "." && n != ".." by {
      assert |n| >= 2 && n[0] != '.';
    }
    DottedZipPath(parent, n, |stem|);
  }

  /** A subfolder's archive lies inside every folder that contains the subfolder,
      so deleting that folder deletes the archive too. */
  lemma ChildArchiveInside(parent: Path, child: Path)
    requires parent < child && FileName(child) != ""
    ensures parent <= ZipPath(child)
  {
    WithExtensionParts(child, "zip");
    assert parent <= child[..|child| - 1];
  }
}
