/**
 The thumbnail handler: `get-thumbnail` dispatches on the extension, and RAW files go through a
 persistent cache keyed by a digest of the path and the modification time.
 The filesystem is a value; the digest (MD5 in the source) is a function-valued parameter.
 */
module ThumbnailCache {
  import opened Wrappers
  import Ascii
  import Decimal
  import Paths
  import JpegScan

  /** A regular file: modification time in milliseconds and its bytes (`None`: cannot be read). */
  datatype FileInfo = FileInfo(mtime: int, content: Option<seq<bv8>>)

  /** Regular files, and directories with their modification times. */
  datatype FileSystem = FileSystem(files: map<string, FileInfo>, dirs: map<string, int>) {
    /** `fs.existsSync`. */
    predicate Exists(p: string) {
      p in files || p in dirs
    }
  }

  /** `fs.statSync(p).mtime`, which succeeds on files and directories alike; `None` when it throws. */
  function Stat(fs: FileSystem, p: string): (r: Option<int>)
    ensures r.Some? <==> fs.Exists(p)
    ensures p in fs.files ==> r == Some(fs.files[p].mtime)
  {
    if p in fs.files then Some(fs.files[p].mtime)
    else if p in fs.dirs then Some(fs.dirs[p])
    else None
  }

  /** The bytes `readSync` gets from `p`; reading a directory fails. */
  function Content(fs: FileSystem, p: string): Option<seq<bv8>> {
    if p in fs.files then fs.files[p].content else None
  }

  /** The process environment the handler consults. */
  datatype Env = Env(home: string, userProfile: string)

  /** `process.env.HOME || process.env.USERPROFILE || ''`. */
  function HomeDir(env: Env): string {
    if env.home != "" then env.home else env.userProfile
  }

  /** `<home>/.photocore_cache/thumbnails`. */
  function CacheDir(env: Env): string {
    Paths.Join(Paths.Join(HomeDir(env), ".photocore_cache"), "thumbnails")
  }

  /** The digest input: the path followed by the decimal modification time. */
  function KeyInput(path: string, mtime: int): string {
    path + Decimal.IntToString(mtime)
  }

  /** `getCacheKey` once `statSync` has produced `mtime`. */
  function CacheKey(hash: string -> string, path: string, mtime: int): (key: string)
    ensures |key| >= 4 && key[|key| - 4..] == ".jpg"
  {
    hash(KeyInput(path, mtime)) + ".jpg"
  }

  function CachePath(env: Env, hash: string -> string, path: string, mtime: int): string {
    Paths.Join(CacheDir(env), CacheKey(hash, path, mtime))
  }

  ghost predicate Injective(hash: string -> string) {
    forall a, b :: hash(a) == hash(b) ==> a == b
  }

  /** Appending different decimal times to the same path gives different digest inputs. */
  lemma KeyInputChangesWithMtime(path: string, m1: int, m2: int)
    requires m1 != m2
    ensures KeyInput(path, m1) != KeyInput(path, m2)
  {
    assert KeyInput(path, m1)[|path|..] == Decimal.IntToString(m1);
    assert KeyInput(path, m2)[|path|..] == Decimal.IntToString(m2);
    if Decimal.IntToString(m1) == Decimal.IntToString(m2) {
      Decimal.IntToStringInjective(m1, m2);
    }
  }

  /** Under a collision-free digest a modified file gets a new cache key. */
  lemma CacheKeyChangesWithMtime(hash: string -> string, path: string, m1: int, m2: int)
    requires Injective(hash) && m1 != m2
    ensures CacheKey(hash, path, m1) != CacheKey(hash, path, m2)
  {
    KeyInputChangesWithMtime(path, m1, m2);
    var k1 := CacheKey(hash, path, m1);
    var k2 := CacheKey(hash, path, m2);
    assert k1[..|k1| - 4] == hash(KeyInput(path, m1));
    assert k2[..|k2| - 4] == hash(KeyInput(path, m2));
  }

  /** How a call ended: the source either rejects (a throw outside `try`) or resolves to a value. */
  datatype Outcome = Threw | Returned(value: Option<string>)

  /** The filesystem after the call, how it ended, and whether the scanner ran. */
  datatype Thumb = Thumb(fs: FileSystem, outcome: Outcome, extracted: bool)

  /**
   How `writeFileSync` ends: every byte written, or a throw, either before the file was created
   (`kept == None`) or after it was created and its first `k` bytes written (`kept == Some(k)`).
   */
  datatype WriteOutcome = Written | WriteFailed(kept: Option<nat>)

  function Min(a: nat, b: nat): nat {
    if a <= b then a else b
  }

  /** `mkdirSync(dir, {recursive: true})`: `dir` and every missing folder above it appear, made at `now`. */
  function MakeDirs(fs: FileSystem, dir: string, now: int): (r: FileSystem)
    ensures r.files == fs.files
    ensures forall q :: q in r.dirs <==> q in fs.dirs || q == dir || Paths.IsAncestor(q, dir)
    ensures forall q :: q in fs.dirs ==> r.dirs[q] == fs.dirs[q]
  {
    var made := fs.dirs.Keys + Paths.Lineage(dir);
    fs.(dirs := map q | q in made :: if q in fs.dirs then fs.dirs[q] else now)
  }

  /**
   `getThumbnailCacheDir`: creates the directory, with any missing folder above it, when it is
   absent; `mkdirOk` is whether that succeeds.
   */
  function EnsureCacheDir(fs: FileSystem, env: Env, mkdirOk: bool, now: int): (r: Option<FileSystem>)
    ensures r.None? <==> !fs.Exists(CacheDir(env)) && !mkdirOk
    ensures r.Some? ==> r.value.files == fs.files && r.value.Exists(CacheDir(env))
    ensures r.Some? ==> forall q :: q in r.value.dirs <==>
              q in fs.dirs || (!fs.Exists(CacheDir(env)) && (q == CacheDir(env) || Paths.IsAncestor(q, CacheDir(env))))
    ensures r.Some? ==> forall q :: q in fs.dirs ==> r.value.dirs[q] == fs.dirs[q]
  {
    var dir := CacheDir(env);
    if fs.Exists(dir) then Some(fs)
    else if mkdirOk then Some(MakeDirs(fs, dir, now))
    else None
  }

  /**
   `extractThumbnail`. The cache directory and `statSync` of the source run outside the `try`,
   so either can make the call throw, and a directory made before `statSync` throws stays.
   A cache hit returns at once; a miss runs the scanner and writes a non-empty preview, where
   a failed write may leave a truncated file behind (`write`; `now`: the time of anything made).
   */
  function ExtractThumbnail(fs: FileSystem, env: Env, hash: string -> string, path: string,
                            mkdirOk: bool, write: WriteOutcome, now: int): (r: Thumb)
    ensures r.outcome.Threw? <==> (!fs.Exists(CacheDir(env)) && !mkdirOk) || !r.fs.Exists(path)
    ensures r.outcome.Threw? ==> !r.extracted && r.fs.files == fs.files
    ensures fs.Exists(CacheDir(env)) || mkdirOk ==>
              var fs1 := EnsureCacheDir(fs, env, mkdirOk, now).value;
              && r.fs.dirs == fs1.dirs
              && (r.outcome.Returned? ==> fs1.Exists(path))
              && (r.outcome.Returned? && fs1.Exists(path) ==>
                    var cached := CachePath(env, hash, path, Stat(fs1, path).value);
                    var preview := JpegScan.EmbeddedJpeg(Content(fs1, path));
                    && (r.extracted <==> !fs1.Exists(cached))
                    && (!r.extracted ==> r.outcome.value == Some(cached) && r.fs == fs1)
                    && (r.outcome.value.Some? ==> r.outcome.value.value == cached && r.fs.Exists(cached))
                    && (r.extracted && r.outcome.value.Some? ==>
                          && preview.Some? && |preview.value| > 0 && write == Written
                          && r.fs.files == fs1.files[cached := FileInfo(now, Some(preview.value))])
                    && (r.outcome.value.None? && r.fs.files != fs1.files ==>
                          && preview.Some? && write.WriteFailed? && write.kept.Some?
                          && r.fs.files == fs1.files[cached := FileInfo(now, Some(preview.value[..Min(write.kept.value, |preview.value|)]))]))
  {
    match EnsureCacheDir(fs, env, mkdirOk, now)
    case None => Thumb(fs, Threw, false)
    case Some(fs1) =>
      match Stat(fs1, path)
      case None => Thumb(fs1, Threw, false)
      case Some(mtime) =>
        var cached := CachePath(env, hash, path, mtime);
        if fs1.Exists(cached) then Thumb(fs1, Returned(Some(cached)), false)
        else
          var jpeg := JpegScan.EmbeddedJpeg(Content(fs1, path));
          if jpeg.Some? && |jpeg.value| > 0 then
            match write
            case Written =>
              Thumb(fs1.(files := fs1.files[cached := FileInfo(now, Some(jpeg.value))]), Returned(Some(cached)), true)
            case WriteFailed(None) => Thumb(fs1, Returned(None), true)
            case WriteFailed(Some(k)) =>
              Thumb(fs1.(files := fs1.files[cached := FileInfo(now, Some(jpeg.value[..Min(k, |jpeg.value|)]))]),
                    Returned(None), true)
          else Thumb(fs1, Returned(None), true)
  }

  /** How `get-thumbnail` treats a lower-cased extension. */
  datatype Route = Direct | ViaCache | Unsupported

  function RouteOf(ext: string): (r: Route)
    ensures r == Direct <==> ext in Paths.DirectImageExtensions
    ensures r == ViaCache <==> ext in Paths.RawExtensions
  {
    if ext in Paths.DirectImageExtensions then Direct
    else if ext in Paths.RawExtensions then ViaCache
    else Unsupported
  }

  /**
   The `get-thumbnail` handler: JPEG and PNG paths come back unchanged, RAW paths go through
   the cache, anything else resolves to `null`.
   */
  function GetThumbnail(fs: FileSystem, env: Env, hash: string -> string, path: string,
                        mkdirOk: bool, write: WriteOutcome, now: int): (r: Thumb)
    ensures RouteOf(Paths.LowerExt(path)) == Direct ==> r == Thumb(fs, Returned(Some(path)), false)
    ensures RouteOf(Paths.LowerExt(path)) == ViaCache ==>
              r == ExtractThumbnail(fs, env, hash, path, mkdirOk, write, now)
    ensures RouteOf(Paths.LowerExt(path)) == Unsupported ==> r == Thumb(fs, Returned(None), false)
  {
    match RouteOf(Paths.LowerExt(path))
    case Direct => Thumb(fs, Returned(Some(path)), false)
    case ViaCache => ExtractThumbnail(fs, env, hash, path, mkdirOk, write, now)
    case Unsupported => Thumb(fs, Returned(None), false)
  }

  /** What MD5's `digest('hex')` produces: 32 lower-case hexadecimal digits. */
  predicate IsHexDigest(h: string) {
    |h| == 32 && forall i :: 0 <= i < |h| ==> Ascii.IsDigit(h[i]) || 'a' <= h[i] <= 'f'
  }

  ghost predicate HexDigests(hash: string -> string) {
    forall s :: IsHexDigest(hash(s))
  }

  /** A cache file is a `.jpg`, so it is never itself a RAW source. */
  lemma CachePathIsJpg(env: Env, hash: string -> string, path: string, mtime: int)
    requires HexDigests(hash)
    ensures Paths.LowerExt(CachePath(env, hash, path, mtime)) == ".jpg"
  {
    var h := hash(KeyInput(path, mtime));
    assert IsHexDigest(h);
    assert '/' !in h by {
      forall i | 0 <= i < |h| ensures h[i] != '/' {
        assert Ascii.IsDigit(h[i]) || 'a' <= h[i] <= 'f';
      }
    }
    Paths.JpgNameExt(CacheDir(env), h);
  }

  /** The cache file lies strictly inside the cache directory, so making that directory never makes it. */
  lemma CachePathIsNotCacheDir(env: Env, hash: string -> string, path: string, mtime: int)
    ensures CachePath(env, hash, path, mtime) != CacheDir(env)
    ensures !Paths.IsAncestor(CachePath(env, hash, path, mtime), CacheDir(env))
  {
    var dir := CacheDir(env);
    var key := CacheKey(hash, path, mtime);
    assert |Paths.Join(dir, key)| > |dir|;
  }

  /** A RAW path is never one of its own cache files. */
  lemma RawIsNoCachePath(env: Env, hash: string -> string, path: string)
    requires HexDigests(hash) && Paths.LowerExt(path) in Paths.RawExtensions
    ensures forall m :: CachePath(env, hash, path, m) != path
  {
    forall m ensures CachePath(env, hash, path, m) != path {
      CachePathIsJpg(env, hash, path, m);
      NotJpg(Paths.LowerExt(path));
    }
  }

  lemma NotJpg(ext: string)
    requires ext in Paths.RawExtensions
    ensures ext != ".jpg"
  {
  }

  /** After a call that produced a cache file, the same call is a hit. */
  lemma SecondCallHits(fs: FileSystem, env: Env, hash: string -> string, path: string,
                       mkdirOk: bool, write: WriteOutcome, now: int,
                       mkdirOk2: bool, write2: WriteOutcome, now2: int)
    requires forall m :: CachePath(env, hash, path, m) != path
    requires ExtractThumbnail(fs, env, hash, path, mkdirOk, write, now).outcome.Returned?
    requires ExtractThumbnail(fs, env, hash, path, mkdirOk, write, now).outcome.value.Some?
    ensures var first := ExtractThumbnail(fs, env, hash, path, mkdirOk, write, now);
            ExtractThumbnail(first.fs, env, hash, path, mkdirOk2, write2, now2)
              == Thumb(first.fs, first.outcome, false)
  {
    var first := ExtractThumbnail(fs, env, hash, path, mkdirOk, write, now);
    var fs1 := EnsureCacheDir(fs, env, mkdirOk, now).value;
    var cached := CachePath(env, hash, path, Stat(fs1, path).value);
    CachePathIsNotCacheDir(env, hash, path, Stat(fs1, path).value);
    assert first.fs.Exists(CacheDir(env));
    assert EnsureCacheDir(first.fs, env, mkdirOk2, now2) == Some(first.fs);
    assert Stat(first.fs, path) == Stat(fs1, path);
    assert first.fs.Exists(cached);
  }

  /**
   Asking twice for the thumbnail of an unchanged RAW file gives the same path, and the second
   call is a cache hit: no extraction and no change to the filesystem.
   */
  lemma GetThumbnailIdempotent(fs: FileSystem, env: Env, hash: string -> string, path: string,
                               mkdirOk: bool, write: WriteOutcome, now: int,
                               mkdirOk2: bool, write2: WriteOutcome, now2: int)
    requires HexDigests(hash)
    requires Paths.LowerExt(path) in Paths.RawExtensions
    requires GetThumbnail(fs, env, hash, path, mkdirOk, write, now).outcome.Returned?
    requires GetThumbnail(fs, env, hash, path, mkdirOk, write, now).outcome.value.Some?
    ensures var first := GetThumbnail(fs, env, hash, path, mkdirOk, write, now);
            GetThumbnail(first.fs, env, hash, path, mkdirOk2, write2, now2)
              == Thumb(first.fs, first.outcome, false)
  {
    assert RouteOf(Paths.LowerExt(path)) == ViaCache;
    RawIsNoCachePath(env, hash, path);
    SecondCallHits(fs, env, hash, path, mkdirOk, write, now, mkdirOk2, write2, now2);
  }

  /**
   Once the source's modification time changes, a collision-free digest sends it to a different
   cache file, so the thumbnail made from the old contents is not returned.
   */
  lemma ModifiedFileGetsNewThumbnail(fs1: FileSystem, fs2: FileSystem, env: Env,
                                     hash: string -> string, path: string,
                                     mkdirOk: bool, write: WriteOutcome, now: int)
    requires Injective(hash)
    requires path in fs1.files && path in fs2.files && fs1.files[path].mtime != fs2.files[path].mtime
    ensures ExtractThumbnail(fs2, env, hash, path, mkdirOk, write, now).outcome
              != Returned(Some(CachePath(env, hash, path, fs1.files[path].mtime)))
  {
    var m1 := fs1.files[path].mtime;
    var m2 := fs2.files[path].mtime;
    CacheKeyChangesWithMtime(hash, path, m1, m2);
    if CachePath(env, hash, path, m1) == CachePath(env, hash, path, m2) {
      Paths.JoinInjective(CacheDir(env), CacheKey(hash, path, m1), CacheKey(hash, path, m2));
    }
    var r := ExtractThumbnail(fs2, env, hash, path, mkdirOk, write, now);
    if r.outcome.Returned? && r.outcome.value.Some? {
      assert Stat(EnsureCacheDir(fs2, env, mkdirOk, now).value, path) == Some(m2);
    }
  }

  /**
   A miss that finds no preview, or whose write fails before creating the cache file, leaves
   no cache entry behind, so once the same file reads back with a preview, the next call
   extracts it and caches it.
   */
  lemma NoNegativeCaching(fs: FileSystem, env: Env, hash: string -> string, path: string,
                          mkdirOk: bool, write: WriteOutcome, now: int, bytes: seq<bv8>)
    requires HexDigests(hash)
    requires Paths.LowerExt(path) in Paths.RawExtensions
    requires path in fs.files
    requires write.WriteFailed? ==> write.kept.None?
    requires ExtractThumbnail(fs, env, hash, path, mkdirOk, write, now).outcome == Returned(None)
    requires JpegScan.EmbeddedJpeg(Some(bytes)).Some?
    ensures var first := ExtractThumbnail(fs, env, hash, path, mkdirOk, write, now);
            var mtime := fs.files[path].mtime;
            var later := first.fs.(files := first.fs.files[path := FileInfo(mtime, Some(bytes))]);
            var second := ExtractThumbnail(later, env, hash, path, mkdirOk, Written, now);
            second.extracted && second.outcome == Returned(Some(CachePath(env, hash, path, mtime)))
  {
    var first := ExtractThumbnail(fs, env, hash, path, mkdirOk, write, now);
    var mtime := fs.files[path].mtime;
    var cached := CachePath(env, hash, path, mtime);
    CachePathIsJpg(env, hash, path, mtime);
    assert cached != path;
    var fs1 := EnsureCacheDir(fs, env, mkdirOk, now).value;
    assert first.fs == fs1 && !fs1.Exists(cached);
    var later := first.fs.(files := first.fs.files[path := FileInfo(mtime, Some(bytes))]);
    assert EnsureCacheDir(later, env, mkdirOk, now) == Some(later);
    assert !later.Exists(cached);
    var jpeg := JpegScan.EmbeddedJpeg(Content(later, path));
    assert jpeg.Some? && |jpeg.value| > 0;
  }

  /**
   A write that fails after creating the cache file leaves a truncated preview behind: the call
   returns null, and every later call for the unchanged file is a hit on the truncated file.
   */
  lemma PartialCacheFileIsServed(fs: FileSystem, env: Env, hash: string -> string, path: string,
                                 mkdirOk: bool, k: nat, now: int,
                                 mkdirOk2: bool, write2: WriteOutcome, now2: int)
    requires forall m :: CachePath(env, hash, path, m) != path
    requires path in fs.files && (fs.Exists(CacheDir(env)) || mkdirOk)
    requires !fs.Exists(CachePath(env, hash, path, fs.files[path].mtime))
    requires JpegScan.EmbeddedJpeg(fs.files[path].content).Some?
    ensures var first := ExtractThumbnail(fs, env, hash, path, mkdirOk, WriteFailed(Some(k)), now);
            var cached := CachePath(env, hash, path, fs.files[path].mtime);
            var preview := JpegScan.EmbeddedJpeg(fs.files[path].content).value;
            && first.outcome == Returned(None)
            && cached in first.fs.files
            && first.fs.files[cached].content == Some(preview[..Min(k, |preview|)])
            && ExtractThumbnail(first.fs, env, hash, path, mkdirOk2, write2, now2)
                 == Thumb(first.fs, Returned(Some(cached)), false)
  {
    var mtime := fs.files[path].mtime;
    var cached := CachePath(env, hash, path, mtime);
    CachePathIsNotCacheDir(env, hash, path, mtime);
    var fs1 := EnsureCacheDir(fs, env, mkdirOk, now).value;
    assert !fs1.Exists(cached);
    assert Stat(fs1, path) == Some(mtime);
    var preview := JpegScan.EmbeddedJpeg(Content(fs1, path));
    assert preview.Some? && |preview.value| > 0;
    var first := ExtractThumbnail(fs, env, hash, path, mkdirOk, WriteFailed(Some(k)), now);
    assert first.fs == fs1.(files := fs1.files[cached := FileInfo(now, Some(preview.value[..Min(k, |preview.value|)]))]);
    assert first.fs.Exists(CacheDir(env));
    assert EnsureCacheDir(first.fs, env, mkdirOk2, now2) == Some(first.fs);
    assert Stat(first.fs, path) == Some(mtime);
  }

  /**
   A RAW-named directory passes `statSync`: the call is a hit when a cache file exists for the
   directory's time, and otherwise reading it fails inside the `try` and the result is null.
   */
  lemma FolderPathIsNull(fs: FileSystem, env: Env, hash: string -> string, path: string,
                         mkdirOk: bool, write: WriteOutcome, now: int)
    requires path in fs.dirs && path !in fs.files
    requires fs.Exists(CacheDir(env)) || mkdirOk
    ensures var r := ExtractThumbnail(fs, env, hash, path, mkdirOk, write, now);
            var cached := CachePath(env, hash, path, fs.dirs[path]);
            && r.outcome == (if r.extracted then Returned(None) else Returned(Some(cached)))
            && r.fs.files == fs.files
  {
    var fs1 := EnsureCacheDir(fs, env, mkdirOk, now).value;
    assert Stat(fs1, path) == Some(fs.dirs[path]);
    assert Content(fs1, path).None?;
  }

  /**
   The file a miss writes holds exactly the scanner's choice: the longest marker-delimited span
   of the first 10 MiB of the source, ties to the earliest.
   */
  lemma CachedThumbnailIsBestSpan(fs: FileSystem, env: Env, hash: string -> string, path: string,
                                  mkdirOk: bool, write: WriteOutcome, now: int)
    requires ExtractThumbnail(fs, env, hash, path, mkdirOk, write, now).extracted
    requires ExtractThumbnail(fs, env, hash, path, mkdirOk, write, now).outcome.Returned?
    requires ExtractThumbnail(fs, env, hash, path, mkdirOk, write, now).outcome.value.Some?
    ensures var r := ExtractThumbnail(fs, env, hash, path, mkdirOk, write, now);
            var cached := r.outcome.value.value;
            && Content(fs, path).Some?
            && cached in r.fs.files
            && var buf := JpegScan.Window(Content(fs, path).value);
               exists sp :: JpegScan.IsBest(buf, sp) && r.fs.files[cached].content == Some(buf[sp.start..sp.end])
  {
    var fs1 := EnsureCacheDir(fs, env, mkdirOk, now).value;
    assert Content(fs1, path) == Content(fs, path);
    var content := Content(fs, path);
    assert content.Some?;
    JpegScan.ScanWindowSelectsBest(JpegScan.Window(content.value));
  }
}
