/**
 * The end-of-job cleanup: whatever happened during the job, every path on
 * the cleanup list (the narration, the background music, the video and the
 * returned images) is removed if it exists; a failed removal is ignored and
 * the remaining paths are still handled.
 */
module Cleanup {
  import opened PyStr
  import opened Files
  import opened Images

  /**
   * The paths the job hands to the cleanup, in order: the narration (always
   * named), then the music and the video (absent when the job stopped before
   * making them), then the images.
   */
  function CleanupList(voice: Path, music: Option<Path>, video: Option<Path>, images: seq<Path>)
    : (paths: seq<Option<Path>>)
    ensures |paths| == 3 + |images|
    ensures paths[..3] == [Some(voice), music, video]
    ensures forall k :: 0 <= k < |images| ==> paths[3 + k] == Some(images[k])
  {
    [Some(voice), music, video] + seq(|images|, k requires 0 <= k < |images| => Some(images[k]))
  }

  /** The narration, the music and the video when present, and every returned image are on the list. */
  lemma CleanupListHasJobPaths(voice: Path, music: Option<Path>, video: Option<Path>, images: seq<Path>)
    ensures var paths := CleanupList(voice, music, video, images);
            Some(voice) in paths
            && (music.Some? ==> music in paths) && (video.Some? ==> video in paths)
            && forall k :: 0 <= k < |images| ==> Some(images[k]) in paths
  {
    var paths := CleanupList(voice, music, video, images);
    assert paths[0] == Some(voice) && paths[1] == music && paths[2] == video;
    forall k | 0 <= k < |images| ensures Some(images[k]) in paths {
      assert paths[3 + k] == Some(images[k]);
    }
  }

  /** The disk during the cleanup, and the removals attempted so far, in order. */
  datatype Sweep = Sweep(files: map<Path, nat>, attempts: seq<Path>)

  /**
   * One pass of the loop: a listed path that exists is removed, which fails
   * and changes nothing when the file is locked; either way an attempt was made.
   */
  function SweepStep(w: Sweep, entry: Option<Path>, locked: set<Path>): Sweep
  {
    if entry.Some? && entry.value in w.files then
      Sweep(if entry.value in locked then w.files else w.files - {entry.value}, w.attempts + [entry.value])
    else w
  }

  /** The loop after the first `n` entries. */
  function Swept(paths: seq<Option<Path>>, n: nat, files: map<Path, nat>, locked: set<Path>): Sweep
    requires n <= |paths|
  {
    if n == 0 then Sweep(files, [])
    else SweepStep(Swept(paths, n - 1, files, locked), paths[n - 1], locked)
  }

  /**
   * The `finally` block of the job: `attempts` lists the removals tried, in
   * order.
   */
  method Cleanup(fs: FileSystem, paths: seq<Option<Path>>) returns (ghost attempts: seq<Path>)
    requires fs.Valid()
    modifies fs
    ensures fs.Valid() && fs.nextTemp == old(fs.nextTemp)
    ensures Sweep(fs.files, attempts) == Swept(paths, |paths|, old(fs.files), fs.locked)
  {
    attempts := [];
    for i := 0 to |paths|
      invariant fs.Valid() && fs.nextTemp == old(fs.nextTemp)
      invariant Sweep(fs.files, attempts) == Swept(paths, i, old(fs.files), fs.locked)
    {
      var entry := paths[i];
      if entry.Some? && fs.Exists(entry.value) {
        // a removal that raises is ignored: the loop goes on
        var _ := fs.Remove(entry.value);
        attempts := attempts + [entry.value];
      }
    }
  }

  /**
   * After the sweep, a file is on disk exactly when it was before and it was
   * either not listed or could not be removed; the files left keep their sizes.
   */
  lemma {:induction false} SweptFiles(paths: seq<Option<Path>>, n: nat, files: map<Path, nat>, locked: set<Path>)
    requires n <= |paths|
    ensures var w := Swept(paths, n, files, locked);
            (forall p :: p in w.files <==> p in files && (p in locked || Some(p) !in paths[..n]))
            && forall p | p in w.files :: w.files[p] == files[p]
  {
    if n > 0 {
      SweptFiles(paths, n - 1, files, locked);
      PrefixSnoc(paths, n - 1);
    }
  }

  /**
   * A removal is attempted for exactly the listed paths that existed, and for
   * a removable file exactly once, however often it is listed.
   */
  lemma {:induction false} SweptAttempts(paths: seq<Option<Path>>, n: nat, files: map<Path, nat>, locked: set<Path>)
    requires n <= |paths|
    ensures var w := Swept(paths, n, files, locked);
            (forall p :: p in w.attempts <==> p in files && Some(p) in paths[..n])
            && forall p | p !in locked :: multiset(w.attempts)[p] == if p in files && Some(p) in paths[..n] then 1 else 0
  {
    if n > 0 {
      SweptAttempts(paths, n - 1, files, locked);
      SweptFiles(paths, n - 1, files, locked);
      PrefixSnoc(paths, n - 1);
    }
  }

  /**
   * At the end of the job, no path on the cleanup list is left on disk unless
   * it could not be removed; every file not on the list is untouched.
   */
  lemma JobLeavesNoFiles(fs0: map<Path, nat>, locked: set<Path>,
                         voice: Path, music: Option<Path>, video: Option<Path>, images: seq<Path>)
    ensures var paths := CleanupList(voice, music, video, images);
            var w := Swept(paths, |paths|, fs0, locked);
            (voice !in locked ==> voice !in w.files)
            && (music.Some? && music.value !in locked ==> music.value !in w.files)
            && (video.Some? && video.value !in locked ==> video.value !in w.files)
            && (forall k :: 0 <= k < |images| && images[k] !in locked ==> images[k] !in w.files)
            && (forall p :: p in fs0 && Some(p) !in paths ==> p in w.files && w.files[p] == fs0[p])
  {
    var paths := CleanupList(voice, music, video, images);
    CleanupListHasJobPaths(voice, music, video, images);
    SweptFiles(paths, |paths|, fs0, locked);
    assert paths[..|paths|] == paths;
  }

  /** A temporary name not handed out during a scrape that started at `next` and wrote `count` files. */
  predicate OutsideScrape(p: Path, next: nat, count: nat)
  {
    p.Temp? ==> p.id < next || next + count <= p.id
  }

  /**
   * The file of a broken image download survives the cleanup, locked or not:
   * the narration and the music were named before the scrape and the video
   * after it, so none of them has its name, and the scrape did not return it.
   */
  lemma BrokenDownloadSurvivesCleanup(files: map<Path, nat>, next: nat, s: Scan, locked: set<Path>,
                                      voice: Path, music: Option<Path>, video: Option<Path>)
    requires s.leaked.Some?
    requires OutsideScrape(voice, next, |Written(s)|)
    requires music.Some? ==> OutsideScrape(music.value, next, |Written(s)|)
    requires video.Some? ==> OutsideScrape(video.value, next, |Written(s)|)
    ensures var images, disk := TempNames(next, |s.kept|), WriteTemps(files, next, Written(s));
            var paths, p := CleanupList(voice, music, video, images), Temp(next + |s.kept|, ImageSuffix);
            p in disk && Some(p) !in paths && p in Swept(paths, |paths|, disk, locked).files
  {
    var images, disk := TempNames(next, |s.kept|), WriteTemps(files, next, Written(s));
    var paths, p := CleanupList(voice, music, video, images), Temp(next + |s.kept|, ImageSuffix);
    BrokenDownloadLeavesFile(files, next, s);
    assert Some(p) !in paths by {
      assert paths[0] == Some(voice) && paths[1] == music && paths[2] == video;
      forall k | 0 <= k < |paths| ensures paths[k] != Some(p) {
        if k >= 3 {
          assert paths[k] == Some(images[k - 3]);
        }
      }
    }
    SweptFiles(paths, |paths|, disk, locked);
    assert paths[..|paths|] == paths;
  }
}
