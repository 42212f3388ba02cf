/** Turning one image into a `.jxl` file: the extension check of
    `is_image_file` (src/main.rs:213-247) and `image_to_jxl`
    (src/main.rs:99-204), which probes for a free output name, runs the
    encoder, and reconciles the numbered copies with the canonical name. */
module Convert {
  import opened Base
  import opened Text
  import opened Paths
  import opened Store

  /** The format `ImageReader::open` reports. `open` takes it from the path's
      extension (`ImageFormat::from_path`), so the header is never read. */
  datatype ImageFormat = Png | Jpeg | OtherFormat

  /** Why a file is not converted: `Skipped` is the "This file is skip" error
      (a `.jxl` file); `NotImage` the "not image" error; `OpenFailed` the panic
      when the image file cannot be opened. */
  datatype ImageError = Skipped | NotImage | OpenFailed

  const ConvertedExtensions: seq<string> := ["jpg", "png", "jpeg"]

  /** `is_image_file` on a name with an extension; `opens` says whether the
      file can be opened. For the three image extensions `format()` always
      has a value, so neither the "Failed to read image format" panic nor the
      skip of other formats (src/main.rs:227-234) can happen. */
  function IsImageFile(name: Name, opens: bool): (r: Result<ImageFormat, ImageError>)
    requires Extension(name).Some?
    ensures r.Ok? <==> Lower(Extension(name).value) in ConvertedExtensions && opens
    ensures r.Ok? ==> r.value != OtherFormat && (r.value == Png <==> Lower(Extension(name).value) == "png")
    ensures r == Err(NotImage) <==> Lower(Extension(name).value) !in ConvertedExtensions + ["jxl"]
    ensures r == Err(OpenFailed) <==> Lower(Extension(name).value) in ConvertedExtensions && !opens
    ensures r == Err(Skipped) <==> Lower(Extension(name).value) == "jxl"
  {
    var ext := Lower(Extension(name).value);
    if ext in ConvertedExtensions then
      if !opens then Err(OpenFailed)
      else if ext == "png" then Ok(Png) else Ok(Jpeg)
    else if ext == "jxl" then Err(Skipped)
    else Err(NotImage)
  }

  /** A `.jxl` name, in any case of its extension, is skipped, readable or not. */
  lemma JxlIsSkipped(name: Name, opens: bool)
    requires Extension(name).Some? && Lower(Extension(name).value) == "jxl"
    ensures IsImageFile(name, opens) == Err(Skipped)
  {
    assert "jxl"[1] == 'x';
    assert "jxl" != "jpg" && "jxl" != "png" && "jxl" != "jpeg";
  }

  /** What the encoder process reports: the bytes it wrote, or failure with
      its captured output. */
  datatype EncodeOutcome = Encoded(bytes: Bytes) | EncodeFailed(stdout: string, stderr: string)

  /** `cjxl <image> <output> <args…>`. */
  type Encoder = (Path, Path, seq<string>) -> EncodeOutcome

  /** The 64-bit file hash, as an uninterpreted function of the contents. */
  type Digest = nat

  datatype ConvertError =
    | UnsupportedType(image: Path)
    | EncoderFailed(image: Path, stdout: string, stderr: string)

  /** The first `k` candidates, as a set. */
  function CandidateSet(jxl: Path, k: nat): set<Path> {
    set i | 0 <= i < k :: Candidate(jxl, i)
  }

  lemma CandidateSetGrows(jxl: Path, k: nat)
    ensures CandidateSet(jxl, k + 1) == CandidateSet(jxl, k) + {Candidate(jxl, k)}
    ensures Candidate(jxl, k) !in CandidateSet(jxl, k)
  {
    if Candidate(jxl, k) in CandidateSet(jxl, k) {
      var i :| 0 <= i < k && Candidate(jxl, i) == Candidate(jxl, k);
      CandidateInjective(jxl, i, k);
    }
  }

  /** `Path::exists`: a file or a directory. */
  predicate Exists(files: Files, dirs: set<Path>, p: Path) {
    p in files || p in dirs
  }

  /** The candidates 0..n-1 are all files. */
  predicate AllTaken(files: Files, jxl: Path, n: nat) {
    forall i :: 0 <= i < n ==> Candidate(jxl, i) in files
  }

  /** The candidates 0..n-1 all exist, as files or directories. */
  predicate AllExist(files: Files, dirs: set<Path>, jxl: Path, n: nat) {
    forall i :: 0 <= i < n ==> Exists(files, dirs, Candidate(jxl, i))
  }

  /** The first free candidate from `k` on. */
  function FreeFrom(files: Files, dirs: set<Path>, jxl: Path, k: nat): (n: nat)
    ensures k <= n && !Exists(files, dirs, Candidate(jxl, n))
    ensures forall i :: k <= i < n ==> Exists(files, dirs, Candidate(jxl, i))
    decreases (files.Keys + dirs) - CandidateSet(jxl, k)
  {
    if !Exists(files, dirs, Candidate(jxl, k)) then k
    else
      ProbeShrinks(files, dirs, jxl, k);
      var n := FreeFrom(files, dirs, jxl, k + 1);
      assert forall i :: k <= i < n ==> Exists(files, dirs, Candidate(jxl, i)) by {
        forall i | k <= i < n ensures Exists(files, dirs, Candidate(jxl, i)) {
          if i > k {
            assert k + 1 <= i < n;
          }
        }
      }
      n
  }

  /** The index the collision probe stops at. */
  function FreeIndex(files: Files, dirs: set<Path>, jxl: Path): (n: nat)
    ensures !Exists(files, dirs, Candidate(jxl, n)) && AllExist(files, dirs, jxl, n)
  {
    FreeFrom(files, dirs, jxl, 0)
  }

  /** The probe's answer is the least free index: no other index is free with
      every smaller one taken. */
  lemma FreeIndexIsLeast(files: Files, dirs: set<Path>, jxl: Path, m: nat)
    requires !Exists(files, dirs, Candidate(jxl, m)) && AllExist(files, dirs, jxl, m)
    ensures m == FreeIndex(files, dirs, jxl)
  {
  }

  /** The probe loop (src/main.rs:108-127): `number` and `new_jxl_path` advance
      while the path exists. */
  method Probe(fs: FileSystem, jxl: Path) returns (number: nat, path: Path)
    ensures path == Candidate(jxl, number)
    ensures number == FreeIndex(fs.files, fs.dirs, jxl)
  {
    number := 0;
    path := jxl;
    ghost var pool := fs.files.Keys + fs.dirs;
    while path in fs.files || path in fs.dirs
      invariant path == Candidate(jxl, number)
      invariant AllExist(fs.files, fs.dirs, jxl, number)
      decreases pool - CandidateSet(jxl, number)
    {
      ProbeStep(fs.files, fs.dirs, jxl, number);
      number := number + 1;
      path := WithFileName(path, NumberedName(jxl, number));
    }
    FreeIndexIsLeast(fs.files, fs.dirs, jxl, number);
  }

  /** One more round of the probe: candidate `k` exists, so the first `k + 1`
      all exist, fewer paths are left to probe, and the next path is candidate `k + 1`. */
  lemma ProbeStep(files: Files, dirs: set<Path>, jxl: Path, k: nat)
    requires Exists(files, dirs, Candidate(jxl, k)) && AllExist(files, dirs, jxl, k)
    ensures AllExist(files, dirs, jxl, k + 1)
    ensures (files.Keys + dirs) - CandidateSet(jxl, k + 1) < (files.Keys + dirs) - CandidateSet(jxl, k)
    ensures WithFileName(Candidate(jxl, k), NumberedName(jxl, k + 1)) == Candidate(jxl, k + 1)
  {
    ProbeShrinks(files, dirs, jxl, k);
    CandidateNext(jxl, k);
  }

  /** An existing candidate leaves one path fewer to probe. */
  lemma ProbeShrinks(files: Files, dirs: set<Path>, jxl: Path, k: nat)
    requires Exists(files, dirs, Candidate(jxl, k))
    ensures (files.Keys + dirs) - CandidateSet(jxl, k + 1) < (files.Keys + dirs) - CandidateSet(jxl, k)
  {
    CandidateSetGrows(jxl, k);
    assert Candidate(jxl, k) in (files.Keys + dirs) - CandidateSet(jxl, k);
  }

  /** The highest candidate below `n` that is a directory, if any: hashing it
      is the first read that fails. */
  function LastDirBelow(dirs: set<Path>, jxl: Path, n: nat): (r: Option<nat>)
    ensures r.Some? ==> r.value < n && Candidate(jxl, r.value) in dirs
    ensures r.Some? ==> forall j :: r.value < j < n ==> Candidate(jxl, j) !in dirs
    ensures r.None? <==> forall j :: 0 <= j < n ==> Candidate(jxl, j) !in dirs
  {
    if n == 0 then None
    else if Candidate(jxl, n - 1) in dirs then Some(n - 1)
    else LastDirBelow(dirs, jxl, n - 1)
  }

  /** The candidates in `lo..hi` whose contents hash to `h`. */
  function Duplicates(files: Files, jxl: Path, lo: nat, hi: nat, h: Digest, hash: Bytes -> Digest): set<Path> {
    set i | lo <= i < hi && Candidate(jxl, i) in files && hash(files[Candidate(jxl, i)]) == h :: Candidate(jxl, i)
  }

  /** After writing the new file at candidate `n > 0`: the earlier candidates
      with the same hash are removed, then the new file is renamed onto `jxl`. */
  function Reconciled(written: Files, jxl: Path, n: nat, hash: Bytes -> Digest): Files
    requires Candidate(jxl, n) in written
  {
    var made := written[Candidate(jxl, n)];
    var kept := written - Duplicates(written, jxl, 0, n, hash(made), hash);
    (kept - {Candidate(jxl, n)})[jxl := made]
  }

  /** How `image_to_jxl` ends: with its result, or in the panic of hashing a
      candidate that is a directory. */
  datatype Conversion = Finished(result: Result<Unit, ConvertError>) | HashPanic(path: Path)

  /** `image_to_jxl` as a function of the filesystem: how it ends and the files after. */
  function ConvertOutcome(files: Files, dirs: set<Path>, image: Path, jxl: Path, pngArgs: seq<string>, jpgArgs: seq<string>,
                          format: ImageFormat, encoder: Encoder, hash: Bytes -> Digest): (Conversion, Files)
  {
    var n := FreeIndex(files, dirs, jxl);
    var target := Candidate(jxl, n);
    if format == OtherFormat then (Finished(Err(UnsupportedType(image))), files)
    else
      match encoder(image, target, if format == Jpeg then jpgArgs else pngArgs)
      case EncodeFailed(out, err) => (Finished(Err(EncoderFailed(image, out, err))), files)
      case Encoded(bytes) =>
        var written := files[target := bytes];
        if n == 0 then (Finished(Ok(Unit)), written)
        else
          var (stop, after) := ReconcileEnd(written, dirs, jxl, n, hash);
          (if stop.None? then Finished(Ok(Unit)) else HashPanic(stop.value), after)
  }

  /** `image_to_jxl`. */
  method ImageToJxl(fs: FileSystem, image: Path, jxl: Path, pngArgs: seq<string>, jpgArgs: seq<string>,
                    format: ImageFormat, encoder: Encoder, hash: Bytes -> Digest) returns (r: Conversion)
    modifies fs
    ensures (r, fs.files) == ConvertOutcome(old(fs.files), old(fs.dirs), image, jxl, pngArgs, jpgArgs, format, encoder, hash)
    ensures fs.dirs == old(fs.dirs)
  {
    var number, path := Probe(fs, jxl);
    var output;
    match format {
      case Jpeg => output := encoder(image, path, jpgArgs);
      case Png => output := encoder(image, path, pngArgs);
      case OtherFormat =>
        return Finished(Err(UnsupportedType(image)));
    }
    if output.EncodeFailed? {
      return Finished(Err(EncoderFailed(image, output.stdout, output.stderr)));
    }
    fs.files := fs.files[path := output.bytes];
    if number > 0 {
      var panicAt := Reconcile(fs, jxl, number, hash);
      if panicAt.Some? {
        return HashPanic(panicAt.value);
      }
    }
    r := Finished(Ok(Unit));
  }

  /** The hash comparison loop, from the highest earlier candidate down to
      `jxl`, and the final rename (src/main.rs:155-201); a candidate that is a
      directory stops it with the panic of the failed read. */
  method Reconcile(fs: FileSystem, jxl: Path, number: nat, hash: Bytes -> Digest) returns (panicAt: Option<Path>)
    requires number > 0 && Candidate(jxl, number) in fs.files && AllExist(fs.files, fs.dirs, jxl, number)
    modifies fs
    ensures (panicAt, fs.files) == ReconcileEnd(old(fs.files), old(fs.dirs), jxl, number, hash)
    ensures fs.dirs == old(fs.dirs)
  {
    ghost var written, dirs := fs.files, fs.dirs;
    var files := fs.files;
    var newPath := Candidate(jxl, number);
    var newHash := hash(files[newPath]);
    var i := number;
    while i > 0
      invariant 0 <= i <= number
      invariant files == written - Duplicates(written, jxl, i, number, newHash, hash)
      invariant NoDirBetween(dirs, jxl, i, number)
      invariant fs.files == written && fs.dirs == dirs
    {
      i := i - 1;
      var comparePath := if i == 0 then jxl else WithFileName(jxl, NumberedName(jxl, i));
      assert comparePath == Candidate(jxl, i);
      if comparePath in fs.dirs {
        ReconcileStops(written, dirs, jxl, i, number, hash);
        fs.files := files;
        return Some(comparePath);
      }
      NoDirBetweenGrows(dirs, jxl, i, number);
      DuplicatesStep(written, jxl, i, number, newHash, hash);
      ghost var above := Duplicates(written, jxl, i + 1, number, newHash, hash);
      var compareHash := hash(files[comparePath]);
      if newHash == compareHash {
        RemoveOneMore(written, above, comparePath);
        files := files - {comparePath};
        assert Duplicates(written, jxl, i, number, newHash, hash) == above + {comparePath};
      } else {
        assert Duplicates(written, jxl, i, number, newHash, hash) == above;
      }
    }
    ReconcileCompletes(written, dirs, jxl, number, hash);
    fs.files := (files - {newPath})[jxl := files[newPath]];
    panicAt := None;
  }

  lemma ReconcileStops(written: Files, dirs: set<Path>, jxl: Path, i: nat, n: nat, hash: Bytes -> Digest)
    requires Candidate(jxl, n) in written && i < n && Candidate(jxl, i) in dirs
    requires NoDirBetween(dirs, jxl, i + 1, n)
    ensures ReconcileEnd(written, dirs, jxl, n, hash) ==
      (Some(Candidate(jxl, i)), written - Duplicates(written, jxl, i + 1, n, hash(written[Candidate(jxl, n)]), hash))
  {
    LastDirAt(dirs, jxl, i, n);
  }

  lemma ReconcileCompletes(written: Files, dirs: set<Path>, jxl: Path, n: nat, hash: Bytes -> Digest)
    requires Candidate(jxl, n) in written && NoDirBetween(dirs, jxl, 0, n)
    ensures Candidate(jxl, n) in written - Duplicates(written, jxl, 0, n, hash(written[Candidate(jxl, n)]), hash)
    ensures ReconcileEnd(written, dirs, jxl, n, hash) == (None, Reconciled(written, jxl, n, hash))
  {
    NotADuplicate(written, jxl, n, hash(written[Candidate(jxl, n)]), hash);
  }

  /** How the comparison loop and rename end on the files `written` with the
      new output at candidate `n`: stopped by the highest directory among the
      earlier candidates, with the duplicates above it removed, or completed. */
  function ReconcileEnd(written: Files, dirs: set<Path>, jxl: Path, n: nat, hash: Bytes -> Digest): (Option<Path>, Files)
    requires Candidate(jxl, n) in written
  {
    match LastDirBelow(dirs, jxl, n)
    case None => (None, Reconciled(written, jxl, n, hash))
    case Some(d) => (Some(Candidate(jxl, d)), written - Duplicates(written, jxl, d + 1, n, hash(written[Candidate(jxl, n)]), hash))
  }

  /** No candidate in `lo..hi` is a directory. */
  predicate NoDirBetween(dirs: set<Path>, jxl: Path, lo: nat, hi: nat) {
    forall j :: lo <= j < hi ==> Candidate(jxl, j) !in dirs
  }

  lemma NoDirBetweenGrows(dirs: set<Path>, jxl: Path, i: nat, hi: nat)
    requires i < hi && Candidate(jxl, i) !in dirs && NoDirBetween(dirs, jxl, i + 1, hi)
    ensures NoDirBetween(dirs, jxl, i, hi)
  {
  }

  lemma RemoveOneMore(files: Files, gone: set<Path>, p: Path)
    ensures (files - gone) - {p} == files - (gone + {p})
  {
  }

  /** A directory at candidate `i` with none above it below `n` is the one the
      loop meets first. */
  lemma LastDirAt(dirs: set<Path>, jxl: Path, i: nat, n: nat)
    requires i < n && Candidate(jxl, i) in dirs
    requires NoDirBetween(dirs, jxl, i + 1, n)
    ensures LastDirBelow(dirs, jxl, n) == Some(i)
    decreases n
  {
    if n - 1 > i {
      LastDirAt(dirs, jxl, i, n - 1);
    }
  }

  lemma DuplicatesStep(written: Files, jxl: Path, i: nat, hi: nat, h: Digest, hash: Bytes -> Digest)
    requires i < hi && Candidate(jxl, i) in written
    ensures Candidate(jxl, i) in written - Duplicates(written, jxl, i + 1, hi, h, hash)
    ensures (written - Duplicates(written, jxl, i + 1, hi, h, hash))[Candidate(jxl, i)] == written[Candidate(jxl, i)]
    ensures Duplicates(written, jxl, i, hi, h, hash) ==
      Duplicates(written, jxl, i + 1, hi, h, hash) + (if hash(written[Candidate(jxl, i)]) == h then {Candidate(jxl, i)} else {})
  {
    if Candidate(jxl, i) in Duplicates(written, jxl, i + 1, hi, h, hash) {
      var j :| i + 1 <= j < hi && Candidate(jxl, j) == Candidate(jxl, i);
      CandidateInjective(jxl, i, j);
    }
  }

  lemma NotADuplicate(written: Files, jxl: Path, n: nat, h: Digest, hash: Bytes -> Digest)
    ensures Candidate(jxl, n) !in Duplicates(written, jxl, 0, n, h, hash)
  {
    if Candidate(jxl, n) in Duplicates(written, jxl, 0, n, h, hash) {
      var j :| 0 <= j < n && Candidate(jxl, j) == Candidate(jxl, n);
      CandidateInjective(jxl, j, n);
    }
  }

  /** The canonical path ends up holding the new bytes, and the numbered
      candidate the encoder wrote no longer exists. */
  lemma ReconcileMovesOutput(files: Files, jxl: Path, n: nat, bytes: Bytes, hash: Bytes -> Digest)
    requires n > 0 && AllTaken(files, jxl, n) && Candidate(jxl, n) !in files
    ensures jxl in Reconciled(files[Candidate(jxl, n) := bytes], jxl, n, hash)
    ensures Reconciled(files[Candidate(jxl, n) := bytes], jxl, n, hash)[jxl] == bytes
    ensures Candidate(jxl, n) !in Reconciled(files[Candidate(jxl, n) := bytes], jxl, n, hash)
  {
    NotOwnCandidate(jxl, n);
  }

  /** An earlier numbered candidate is removed exactly when its hash equals the
      new file's hash; otherwise it is left as it was. */
  lemma ReconcileCandidate(files: Files, jxl: Path, n: nat, bytes: Bytes, hash: Bytes -> Digest, i: nat)
    requires n > 0 && AllTaken(files, jxl, n) && Candidate(jxl, n) !in files
    requires 1 <= i < n
    ensures Candidate(jxl, i) in Reconciled(files[Candidate(jxl, n) := bytes], jxl, n, hash) <==>
      hash(files[Candidate(jxl, i)]) != hash(bytes)
    ensures Candidate(jxl, i) in Reconciled(files[Candidate(jxl, n) := bytes], jxl, n, hash) ==>
      Reconciled(files[Candidate(jxl, n) := bytes], jxl, n, hash)[Candidate(jxl, i)] == files[Candidate(jxl, i)]
  {
    var written := files[Candidate(jxl, n) := bytes];
    var c := Candidate(jxl, i);
    NotOwnCandidate(jxl, i);
    if c == Candidate(jxl, n) {
      CandidateInjective(jxl, i, n);
    }
    assert written[c] == files[c];
    if hash(files[c]) == hash(bytes) {
      assert c in Duplicates(written, jxl, 0, n, hash(bytes), hash);
    }
  }

  /** A path outside the candidates 0..n is not touched by the reconciliation. */
  lemma ReconcileElsewhere(files: Files, jxl: Path, n: nat, bytes: Bytes, hash: Bytes -> Digest, p: Path)
    requires n > 0 && AllTaken(files, jxl, n) && Candidate(jxl, n) !in files
    requires p !in CandidateSet(jxl, n + 1)
    ensures p in Reconciled(files[Candidate(jxl, n) := bytes], jxl, n, hash) <==> p in files
    ensures p in files ==> Reconciled(files[Candidate(jxl, n) := bytes], jxl, n, hash)[p] == files[p]
  {
    var written := files[Candidate(jxl, n) := bytes];
    assert p != Candidate(jxl, 0) && p != Candidate(jxl, n);
  }

  /** No path is created: the result holds only paths that existed before. */
  lemma ReconcileCreatesNothing(files: Files, jxl: Path, n: nat, bytes: Bytes, hash: Bytes -> Digest)
    requires n > 0 && AllTaken(files, jxl, n) && Candidate(jxl, n) !in files
    ensures Reconciled(files[Candidate(jxl, n) := bytes], jxl, n, hash).Keys <= files.Keys
  {
    assert Candidate(jxl, 0) in files;
  }

  /** The inline promise that a file with different contents is never deleted
      does not hold for `jxl` itself: the rename replaces it. */
  lemma RenameReplacesDifferentCanonical(files: Files, jxl: Path, n: nat, bytes: Bytes, hash: Bytes -> Digest)
    requires n > 0 && AllTaken(files, jxl, n) && Candidate(jxl, n) !in files
    requires jxl in files && hash(files[jxl]) != hash(bytes)
    ensures Reconciled(files[Candidate(jxl, n) := bytes], jxl, n, hash)[jxl] != files[jxl]
  {
    ReconcileMovesOutput(files, jxl, n, bytes, hash);
    assert Candidate(jxl, 0) == jxl;
  }

  /** `image_to_jxl` as a whole: it fails exactly for a format other than PNG
      and JPEG or a failed encoding, and then no file changes; it panics
      exactly when the output was written at a numbered candidate and some
      earlier candidate is a directory; otherwise the canonical path holds the
      encoder's bytes, and when nothing existed there no other file is hashed,
      deleted or renamed. */
  lemma ConvertContract(files: Files, dirs: set<Path>, image: Path, jxl: Path, pngArgs: seq<string>, jpgArgs: seq<string>,
                        format: ImageFormat, encoder: Encoder, hash: Bytes -> Digest)
    ensures var (r, after) := ConvertOutcome(files, dirs, image, jxl, pngArgs, jpgArgs, format, encoder, hash);
      var n := FreeIndex(files, dirs, jxl);
      var out := encoder(image, Candidate(jxl, n), if format == Jpeg then jpgArgs else pngArgs);
      && (r.Finished? && r.result.Err? <==> format == OtherFormat || out.EncodeFailed?)
      && (r.Finished? && r.result.Err? ==> after == files)
      && (r.HashPanic? <==> format != OtherFormat && out.Encoded? && exists j :: 0 <= j < n && Candidate(jxl, j) in dirs)
      && (r.HashPanic? ==> r.path in dirs)
      && (r == Finished(Ok(Unit)) ==> jxl in after && after[jxl] == out.bytes)
      && (r == Finished(Ok(Unit)) && !Exists(files, dirs, jxl) ==> after == files[jxl := out.bytes])
  {
    var n := FreeIndex(files, dirs, jxl);
    if n > 0 && format != OtherFormat {
      var out := encoder(image, Candidate(jxl, n), if format == Jpeg then jpgArgs else pngArgs);
      if out.Encoded? && LastDirBelow(dirs, jxl, n).None? {
        NoDirsAllTaken(files, dirs, jxl, n);
        ReconcileMovesOutput(files, jxl, n, out.bytes, hash);
      }
    }
    if !Exists(files, dirs, jxl) {
      FreeIndexIsLeast(files, dirs, jxl, 0);
    }
  }

  /** Without a directory among them, existing candidates are files: the
      reconciliation lemmas above then describe the successful outcome. */
  lemma NoDirsAllTaken(files: Files, dirs: set<Path>, jxl: Path, n: nat)
    requires n == FreeIndex(files, dirs, jxl) && LastDirBelow(dirs, jxl, n).None?
    ensures AllTaken(files, jxl, n) && Candidate(jxl, n) !in files
  {
  }

  /** Every candidate of a `.jxl` path is itself a `.jxl` name, so no source
      image is ever a candidate. */
  lemma CandidateIsJxl(jxl: Path, k: nat)
    requires Extension(FileName(jxl)) == Some("jxl")
    ensures Extension(FileName(Candidate(jxl, k))) == Some("jxl")
  {
    if k > 0 {
      NumberedNameNormal(jxl, k);
      NumberedNameExtension(jxl, k);
    }
  }
}
