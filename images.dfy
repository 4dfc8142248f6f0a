/**
 * The image scraper: the `<img>` tags of the photo search page are examined
 * in document order, each tag's chosen URL is requested, and every status-200
 * answer is written to a fresh `.jpg` temporary file, until enough images are
 * collected. Any exception ends the scrape and keeps what was collected.
 */
module Images {
  import opened PyStr
  import opened Files
  import opened Srcset

  /** Tags examined per image asked for (`limit=num*3`). */
  const TagsPerImage: nat := 3
  const ImageSuffix: string := ".jpg"
  const StatusOk: int := 200

  /**
   * What requesting one image URL did: raised (connection error, timeout), or
   * answered with a status code and a body of `size` bytes, of which all, or
   * only the part received before the stream broke off, reached the file.
   */
  datatype Download = Raises | Responds(status: int, size: nat, complete: bool)

  /** An `<img>` tag with a `srcset` attribute, and what requesting the URL chosen from it did. */
  datatype Tag = Tag(srcset: string, download: Download)

  /** The search results page: its request raised, or it lists its `<img srcset>` tags in document order. */
  datatype ResultsPage = PageFails | Page(tags: seq<Tag>)

  /** A download that ends the scrape by raising: the request itself, or the stream of a status-200 body. */
  predicate Fails(d: Download)
  {
    d.Raises? || (d.status == StatusOk && !d.complete)
  }

  /** A download that yields an image: status 200 with the whole body received. */
  predicate Succeeds(d: Download)
  {
    d.Responds? && d.status == StatusOk && d.complete
  }

  /** The most images one scrape returns: `num`, or one when `num` is 0 (the first image already reaches it). */
  function Cap(num: nat): nat
  {
    if num == 0 then 1 else num
  }

  /**
   * The tags `find_all` hands over: the first `3 * num`, or all of them when
   * `num` is 0, since a limit of 0 means no limit.
   */
  function Examined(tags: seq<Tag>, num: nat): (r: seq<Tag>)
    ensures r <= tags
    ensures num > 0 ==> |r| == if |tags| < TagsPerImage * num then |tags| else TagsPerImage * num
    ensures num == 0 ==> r == tags
  {
    if num == 0 then tags else Take(tags, TagsPerImage * num)
  }

  /** The download outcomes of the given tags, in order. */
  function Outcomes(tags: seq<Tag>): (r: seq<Download>)
    ensures |r| == |tags|
    ensures forall k :: 0 <= k < |tags| ==> r[k] == tags[k].download
  {
    seq(|tags|, k requires 0 <= k < |tags| => tags[k].download)
  }

  /**
   * Where the loop stands: the number of tags examined, the sizes of the
   * images collected so far, the size of a file left behind by a broken
   * download, and whether the loop has ended.
   */
  datatype Scan = Scan(examined: nat, kept: seq<nat>, leaked: Option<nat>, stopped: bool)

  /** One pass of the loop body, for the download outcome of the next tag. */
  function Step(s: Scan, d: Download, num: nat): Scan
  {
    if s.stopped then s
    else
      match d
      case Raises => s.(examined := s.examined + 1, stopped := true)
      case Responds(status, size, complete) =>
        if status != StatusOk then s.(examined := s.examined + 1)
        else if !complete then s.(examined := s.examined + 1, leaked := Some(size), stopped := true)
        else s.(examined := s.examined + 1, kept := s.kept + [size], stopped := |s.kept| + 1 >= num)
  }

  /** The loop after the first `n` outcomes. */
  function Scanned(outcomes: seq<Download>, n: nat, num: nat): (s: Scan)
    requires n <= |outcomes|
    ensures s.examined <= n
  {
    if n == 0 then Scan(0, [], None, false)
    else Step(Scanned(outcomes, n - 1, num), outcomes[n - 1], num)
  }

  /** The whole scrape, from the search page on. */
  function Gather(page: ResultsPage, num: nat): (s: Scan)
    ensures page.Page? ==> s.examined <= |Examined(page.tags, num)|
  {
    match page
    case PageFails => Scan(0, [], None, true)
    case Page(tags) =>
      var outcomes := Outcomes(Examined(tags, num));
      Scanned(outcomes, |outcomes|, num)
  }

  /** Every file the scrape wrote, in the order their names were made. */
  function Written(s: Scan): (w: seq<nat>)
    ensures |w| == |s.kept| + (if s.leaked.Some? then 1 else 0)
    ensures s.kept <= w
  {
    if s.leaked.Some? then s.kept + [s.leaked.value] else s.kept
  }

  /** The temporary names `mktemp` hands out from `next` on. */
  function TempNames(next: nat, count: nat): (r: seq<Path>)
    ensures |r| == count
    ensures forall k :: 0 <= k < count ==> r[k] == Temp(next + k, ImageSuffix)
  {
    seq(count, k requires 0 <= k < count => Temp(next + k, ImageSuffix))
  }

  /** `files` after writing files of the given sizes, in order, under the temporary names from `next` on. */
  function WriteTemps(files: map<Path, nat>, next: nat, sizes: seq<nat>): map<Path, nat>
    decreases |sizes|
  {
    if sizes == [] then files
    else WriteTemps(files, next, sizes[..|sizes| - 1])[Temp(next + |sizes| - 1, ImageSuffix) := sizes[|sizes| - 1]]
  }

  /** Writing one more file adds exactly its name to what was written before. */
  lemma WriteTempsSnoc(files: map<Path, nat>, next: nat, sizes: seq<nat>, size: nat)
    ensures WriteTemps(files, next, sizes + [size])
            == WriteTemps(files, next, sizes)[Temp(next + |sizes|, ImageSuffix) := size]
  {
    assert (sizes + [size])[..|sizes|] == sizes;
  }

  /** The `k`-th file written is on disk under the `k`-th temporary name, with its size. */
  lemma {:induction false} WriteTempsHolds(files: map<Path, nat>, next: nat, sizes: seq<nat>, k: nat)
    requires k < |sizes|
    ensures var r := WriteTemps(files, next, sizes);
            Temp(next + k, ImageSuffix) in r && r[Temp(next + k, ImageSuffix)] == sizes[k]
    decreases |sizes|
  {
    var n := |sizes| - 1;
    if k < n {
      WriteTempsHolds(files, next, sizes[..n], k);
      assert sizes[..n][k] == sizes[k];
    }
  }

  /** A file whose name is not among the temporary names written keeps its presence and size. */
  lemma {:induction false} WriteTempsKeeps(files: map<Path, nat>, next: nat, sizes: seq<nat>, p: Path)
    requires p !in TempNames(next, |sizes|)
    ensures var r := WriteTemps(files, next, sizes);
            (p in r <==> p in files) && (p in files ==> r[p] == files[p])
    decreases |sizes|
  {
    if sizes != [] {
      var n := |sizes| - 1;
      assert TempNames(next, n + 1) == TempNames(next, n) + [Temp(next + n, ImageSuffix)];
      WriteTempsKeeps(files, next, sizes[..n], p);
    }
  }

  /** One more temporary name extends the list of names by exactly that name. */
  lemma TempNamesSnoc(next: nat, count: nat)
    ensures TempNames(next, count + 1) == TempNames(next, count) + [Temp(next + count, ImageSuffix)]
  {
  }

  /**
   * The disk and the returned list agree with the scan `s`: every file the
   * scan wrote is on disk under consecutive temporary names from `next0`
   * on, and `images` names the kept ones.
   */
  ghost predicate Reflects(fs: FileSystem, images: seq<Path>, s: Scan, next0: nat, files0: map<Path, nat>)
    reads fs
  {
    fs.Valid() && images == TempNames(next0, |s.kept|)
    && fs.nextTemp == next0 + |Written(s)| && fs.files == WriteTemps(files0, next0, Written(s))
  }

  /**
   * The body of the loop in `get_images` for one tag (app.py lines 75-87): choose the
   * URL, request it, and for a status-200 answer write the body to a fresh
   * temporary file, keeping it once the body is complete. `stop` says that
   * the loop ends here, by an exception or because `num` images are kept.
   */
  method Visit(fs: FileSystem, images: seq<Path>, tag: Tag, num: nat,
               ghost s: Scan, ghost next0: nat, ghost files0: map<Path, nat>)
    returns (url: string, images': seq<Path>, stop: bool, ghost s': Scan)
    requires !s.stopped && s.leaked.None? && Reflects(fs, images, s, next0, files0)
    modifies fs
    ensures url == ChooseImageUrl(tag.srcset)
    ensures s' == Step(s, tag.download, num) && stop == s'.stopped
    ensures s'.examined == s.examined + 1 && (!stop ==> s'.leaked.None?)
    ensures Reflects(fs, images', s', next0, files0)
  {
    url := ChooseImageUrl(tag.srcset);
    images', stop, s' := images, false, Step(s, tag.download, num);
    var response := tag.download;
    if response.Raises? {
      stop := true;
      return;
    }
    if response.status == StatusOk {
      var path := fs.MakeTemp(ImageSuffix);
      fs.Write(path, response.size);
      WriteTempsSnoc(files0, next0, s.kept, response.size);
      if !response.complete {
        // the stream broke off: the file stays on disk, the exception ends the scrape
        stop := true;
        return;
      }
      TempNamesSnoc(next0, |images|);
      images' := images + [path];
      stop := |images'| >= num;
    }
  }

  /**
   * The loop of `get_images` (app.py lines 74-87) over the tags `find_all` handed
   * over, in order; `visited` lists the tags whose URL was requested.
   */
  method ScanTags(fs: FileSystem, tags: seq<Tag>, num: nat)
    returns (images: seq<Path>, ghost visited: seq<Tag>)
    requires fs.Valid()
    modifies fs
    ensures var s := Scanned(Outcomes(tags), |tags|, num);
            Reflects(fs, images, s, old(fs.nextTemp), old(fs.files)) && visited == tags[..s.examined]
  {
    images, visited := [], [];
    ghost var outcomes := Outcomes(tags);
    ghost var scan := Scanned(outcomes, 0, num);
    var i := 0;
    while i < |tags|
      invariant 0 <= i <= |tags|
      invariant scan == Scanned(outcomes, i, num) && !scan.stopped && scan.leaked.None? && scan.examined == i
      invariant Reflects(fs, images, scan, old(fs.nextTemp), old(fs.files))
      invariant visited == tags[..i]
    {
      assert outcomes[i] == tags[i].download;
      var url, stop;
      url, images, stop, scan := Visit(fs, images, tags[i], num, scan, old(fs.nextTemp), old(fs.files));
      visited := visited + [tags[i]];
      PrefixSnoc(tags, i);
      if stop {
        StoppedScanStays(outcomes, i + 1, |tags|, num);
        return;
      }
      i := i + 1;
    }
  }

  /**
   * `get_images`: the scrape of the search page, writing every status-200
   * download to a fresh temporary file and returning the complete ones, in
   * order, until `num` are collected or an exception ends the scrape.
   * `visited` lists the tags whose URL was requested, in order.
   */
  method GetImages(fs: FileSystem, page: ResultsPage, num: nat)
    returns (images: seq<Path>, ghost visited: seq<Tag>)
    requires fs.Valid()
    modifies fs
    ensures fs.Valid()
    ensures var s := Gather(page, num);
            images == TempNames(old(fs.nextTemp), |s.kept|)
            && fs.nextTemp == old(fs.nextTemp) + |Written(s)|
            && fs.files == WriteTemps(old(fs.files), old(fs.nextTemp), Written(s))
    ensures page.Page? ==> visited == Examined(page.tags, num)[..Gather(page, num).examined]
  {
    images, visited := [], [];
    if page.PageFails? {
      return;
    }
    images, visited := ScanTags(fs, Examined(page.tags, num), num);
  }

  /** Once the loop has ended, the remaining outcomes change nothing. */
  lemma {:induction false} StoppedScanStays(outcomes: seq<Download>, m: nat, n: nat, num: nat)
    requires m <= n <= |outcomes| && Scanned(outcomes, m, num).stopped
    ensures Scanned(outcomes, n, num) == Scanned(outcomes, m, num)
    decreases n
  {
    if m < n {
      StoppedScanStays(outcomes, m, n - 1, num);
    }
  }

  /*
   * A reference for what the scrape keeps, stated without the loop: the
   * complete status-200 downloads before the first exception, capped.
   */

  /** The sizes of the downloads that yield an image, in order. */
  function Completed(outcomes: seq<Download>): (r: seq<nat>)
    ensures |r| <= |outcomes|
  {
    if outcomes == [] then []
    else
      var d := outcomes[|outcomes| - 1];
      Completed(outcomes[..|outcomes| - 1]) + (if Succeeds(d) then [d.size] else [])
  }

  /** The index of the first download that raises, or the length when none does. */
  function FirstFailure(outcomes: seq<Download>): (f: nat)
    ensures f <= |outcomes|
  {
    if outcomes == [] then 0
    else
      var f := FirstFailure(outcomes[..|outcomes| - 1]);
      if f < |outcomes| - 1 then f
      else if Fails(outcomes[|outcomes| - 1]) then |outcomes| - 1
      else |outcomes|
  }

  /** `FirstFailure` finds the first download that raises, and none before it does. */
  lemma {:induction false} FirstFailureIsFirst(outcomes: seq<Download>)
    ensures var f := FirstFailure(outcomes);
            (f < |outcomes| ==> Fails(outcomes[f])) && forall k :: 0 <= k < f ==> !Fails(outcomes[k])
  {
    if outcomes != [] {
      var init := outcomes[..|outcomes| - 1];
      FirstFailureIsFirst(init);
      assert forall k :: 0 <= k < |init| ==> init[k] == outcomes[k];
    }
  }

  /**
   * The loop state `s` after the outcomes `p`, described without the loop: it
   * keeps the first `Cap(num)` images completed before the first exception;
   * it has ended once an exception happened or that many images are kept;
   * and it has left a file behind exactly when the exception was a broken
   * status-200 body that came before the cap was reached.
   */
  ghost predicate MatchesReference(s: Scan, p: seq<Download>, num: nat)
  {
    var f := FirstFailure(p);
    var c := Completed(p[..f]);
    s.kept == Take(c, Cap(num))
    && (s.stopped <==> f < |p| || |c| >= Cap(num))
    && s.leaked == (if f < |p| && |c| < Cap(num) && p[f].Responds? then Some(p[f].size) else None)
  }

  /** One pass of the loop keeps the state described by the reference. */
  lemma ReferenceStep(s: Scan, q: seq<Download>, d: Download, num: nat)
    requires MatchesReference(s, q, num)
    ensures MatchesReference(Step(s, d, num), q + [d], num)
  {
    var p := q + [d];
    assert p[..|p| - 1] == q && p[|p| - 1] == d;
    var fq := FirstFailure(q);
    assert q[..fq] == p[..fq];
    if fq == |q| && !Fails(d) {
      assert FirstFailure(p) == |p| && p[..|p|] == p && q[..fq] == q;
      assert Completed(p) == Completed(q) + (if Succeeds(d) then [d.size] else []);
    }
  }

  /** The loop after `n` outcomes is the state the reference describes. */
  lemma {:induction false} ScanMatchesReference(outcomes: seq<Download>, n: nat, num: nat)
    requires n <= |outcomes|
    ensures MatchesReference(Scanned(outcomes, n, num), outcomes[..n], num)
  {
    if n > 0 {
      ScanMatchesReference(outcomes, n - 1, num);
      ReferenceStep(Scanned(outcomes, n - 1, num), outcomes[..n - 1], outcomes[n - 1], num);
      PrefixSnoc(outcomes, n - 1);
    }
  }

  /**
   * The whole scrape, described without the loop: at most `num` images (one
   * when `num` is 0), the complete status-200 downloads among the examined
   * tags that come before the first exception, in tag order.
   */
  lemma GatherKeepsFirstCompleted(page: ResultsPage, num: nat)
    requires page.Page?
    ensures var o := Outcomes(Examined(page.tags, num));
            var s := Gather(page, num);
            s.kept == Take(Completed(o[..FirstFailure(o)]), Cap(num))
            && |s.kept| <= Cap(num)
  {
    var o := Outcomes(Examined(page.tags, num));
    ScanMatchesReference(o, |o|, num);
    assert o[..|o|] == o;
  }

  /**
   * An exception ends the scrape but keeps the images already collected: when
   * the first exception comes at tag `k` before `num` images are kept, the
   * result holds every image completed before tag `k`.
   */
  lemma ExceptionKeepsEarlierImages(page: ResultsPage, num: nat, k: nat)
    requires page.Page?
    requires var o := Outcomes(Examined(page.tags, num));
             k < |o| && Fails(o[k]) && (forall j :: 0 <= j < k ==> !Fails(o[j]))
             && |Completed(o[..k])| < Cap(num)
    ensures var o := Outcomes(Examined(page.tags, num));
            var s := Gather(page, num);
            s.kept == Completed(o[..k]) && s.stopped
            && (s.leaked.Some? <==> o[k].Responds?)
  {
    var o := Outcomes(Examined(page.tags, num));
    FirstFailureIsFirst(o);
    var f := FirstFailure(o);
    assert f == k;
    ScanMatchesReference(o, |o|, num);
    assert o[..|o|] == o;
  }

  /**
   * A download that breaks off leaves its file on disk, under the name after
   * the kept images', and that file is not among the images returned.
   */
  lemma BrokenDownloadLeavesFile(files: map<Path, nat>, next: nat, s: Scan)
    requires s.leaked.Some?
    ensures var r, p := WriteTemps(files, next, Written(s)), Temp(next + |s.kept|, ImageSuffix);
            p in r && r[p] == s.leaked.value && p !in TempNames(next, |s.kept|)
  {
    WriteTempsHolds(files, next, Written(s), |s.kept|);
  }
}
