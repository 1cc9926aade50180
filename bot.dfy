/**
  The imperative part of the bot: the `Camera` object built from a fetched
  page, the retry loops of `_save_image` and `load_cameras`, the write and
  removal of the image file in `save_and_validate_image`, and the rejection
  sampling of `get_random_valid_camera`.
  Every call into the outside world is an oracle parameter: the response to
  the n-th HTTP attempt, the page fetched for the n-th drawn camera, the index
  `random.choice` draws, and the solid-colour test on the image bytes.
 */
module Bot {
  import opened Wrappers
  import opened PyStr
  import opened CameraFields

  /** The raw bytes of an HTTP body or a file. */
  type Bytes = seq<bv8>

  /** What one `requests.get` gives: a transport exception, or a response. */
  datatype Outcome<B> = Raised | Responded(status: int, body: B)

  predicate IsOk<B>(o: Outcome<B>) {
    o.Responded? && o.status == 200
  }

  /** The first index `k` in `lo..hi` (both included) with `p(k)`, if any. */
  function FirstIn(p: nat -> bool, lo: nat, hi: int): (r: Option<nat>)
    ensures r.Some? ==> lo <= r.value <= hi && p(r.value)
    ensures r.Some? ==> forall k :: lo <= k < r.value ==> !p(k)
    ensures r.None? <==> forall k :: lo <= k <= hi ==> !p(k)
    decreases hi - lo + 1
  {
    if hi < lo then None
    else if p(lo) then Some(lo)
    else FirstIn(p, lo + 1, hi)
  }

  /** Whether attempt `a` ends a retry loop: a 200 always does, and an exception
      does when the loop lets it propagate. */
  function StopsAt<B>(outcome: nat -> Outcome<B>, raiseStops: bool): nat -> bool {
    (a: nat) => IsOk(outcome(a)) || (raiseStops && outcome(a).Raised?)
  }

  /** The attempt that ends a loop over `range(1, retries + 1)`, if one does. */
  function FirstStop<B>(outcome: nat -> Outcome<B>, retries: int, raiseStops: bool): (r: Option<nat>)
    ensures retries <= 0 ==> r.None?
    ensures r.Some? ==> && 1 <= r.value <= retries
                        && (IsOk(outcome(r.value)) || (raiseStops && outcome(r.value).Raised?))
    ensures r.Some? ==> forall a :: 1 <= a < r.value ==>
                          !IsOk(outcome(a)) && (raiseStops ==> outcome(a).Responded?)
  {
    var r := FirstIn(StopsAt(outcome, raiseStops), 1, retries);
    if r.Some? then
      NoStopBefore(outcome, raiseStops, r.value);
      r
    else r
  }

  /** Attempts at which a loop did not stop answered, and not with 200. */
  lemma NoStopBefore<B>(outcome: nat -> Outcome<B>, raiseStops: bool, n: nat)
    requires forall k :: 1 <= k < n ==> !StopsAt(outcome, raiseStops)(k)
    ensures forall a :: 1 <= a < n ==> !IsOk(outcome(a)) && (raiseStops ==> outcome(a).Responded?)
  {
    forall a | 1 <= a < n ensures !IsOk(outcome(a)) && (raiseStops ==> outcome(a).Responded?) {
      assert !StopsAt(outcome, raiseStops)(a);
    }
  }

  /** The loop of `_save_image` succeeds exactly when some attempt within the
      budget answers 200; exceptions do not end it early. */
  lemma SaveStopIff<B>(outcome: nat -> Outcome<B>, retries: int)
    ensures FirstStop(outcome, retries, false).Some?
            <==> exists a :: 1 <= a <= retries && IsOk(outcome(a))
    ensures FirstStop(outcome, retries, false).Some? ==> IsOk(outcome(FirstStop(outcome, retries, false).value))
  {
    var f := FirstStop(outcome, retries, false);
    if f.Some? {
      assert StopsAt(outcome, false)(f.value);
    } else {
      forall a | 1 <= a <= retries ensures !IsOk(outcome(a)) {
        assert !StopsAt(outcome, false)(a);
      }
    }
  }

  /** The loop of `load_cameras` runs out exactly when every attempt is answered,
      and not with 200. */
  lemma LoadStopNoneIff<B>(outcome: nat -> Outcome<B>, retries: int)
    ensures FirstStop(outcome, retries, true).None?
            <==> forall a :: 1 <= a <= retries ==> outcome(a).Responded? && outcome(a).status != 200
  {
    var f := FirstStop(outcome, retries, true);
    if f.Some? {
      assert StopsAt(outcome, true)(f.value);
    } else {
      forall a | 1 <= a <= retries ensures outcome(a).Responded? && outcome(a).status != 200 {
        assert !StopsAt(outcome, true)(a);
      }
    }
  }

  /** An exception, then a 503, then a 200: `_save_image` needs three attempts
      and fails with two, while a loop that lets exceptions through stops at
      the first. */
  lemma RetryExample(body: Bytes)
    ensures var o := (a: nat) => if a == 1 then Raised else if a == 2 then Responded(503, body)
                                 else Responded(200, body);
            && FirstStop(o, 3, false) == Some(3)
            && FirstStop(o, 2, false) == None
            && FirstStop(o, 3, true) == Some(1)
  {
    var o := (a: nat) => if a == 1 then Raised else if a == 2 then Responded(503, body)
                         else Responded(200, body);
    assert o(1) == Raised && o(2) == Responded(503, body) && o(3) == Responded(200, body);
    assert !StopsAt(o, false)(1);
    assert !StopsAt(o, false)(2);
    assert StopsAt(o, false)(3);
    assert StopsAt(o, true)(1);
  }

  /** A camera page as the HTTP client and the HTML parser deliver it: a failed
      fetch, or the body together with what the two XPath queries return on it. */
  datatype PageResponse =
    | FetchFailed
    | Fetched(content: Bytes, imgSrcs: seq<string>, detailTexts: seq<string>)

  /** `page_tree` is built only from a fetched, non-empty body. */
  predicate HasTree(page: PageResponse) {
    page.Fetched? && |page.content| > 0
  }

  /** The files on disk, by path. */
  class FileSystem {
    var files: map<string, Bytes>

    constructor(files: map<string, Bytes>)
      ensures this.files == files
    {
      this.files := files;
    }
  }

  class Camera {
    const url: string
    const id: string
    const pageContent: Option<Bytes>
    const streamUrl: Option<string>
    const details: Option<string>
    const info: Option<Info>

    /** `Camera.__init__`, with `page` the outcome of `_get_camera_page`: the
        stream URL and the details exist only for a non-empty page, and the
        info exactly when the details do. */
    constructor(url: string, page: PageResponse)
      ensures this.url == url && id == CameraId(url)
      ensures pageContent == if page.Fetched? then Some(page.content) else None
      ensures streamUrl == if HasTree(page) then FindCameraUrl(page.imgSrcs) else None
      ensures details == if HasTree(page) then Some(FlattenDetails(page.detailTexts)) else None
      ensures info == if details.Some? then Some(ParseCameraDetails(details.value)) else None
    {
      this.url := url;
      id := CameraId(url);
      var content := if page.Fetched? then Some(page.content) else None;
      pageContent := content;
      var tree := HasTree(page);
      streamUrl := if tree then FindCameraUrl(page.imgSrcs) else None;
      var flat := if tree then Some(FlattenDetails(page.detailTexts)) else None;
      details := flat;
      info := if flat.Some? then Some(ParseCameraDetails(flat.value)) else None;
    }

    /** `_save_image`: try attempts 1..retries; the first 200 writes the body to
        `path` and succeeds; an exception on the last attempt, or running out
        of attempts, fails without touching the disk. */
    method SaveImage(fs: FileSystem, path: string, outcome: nat -> Outcome<Bytes>, retries: int)
      returns (saved: bool, ghost attempts: nat)
      modifies fs
      ensures saved <==> exists a :: 1 <= a <= retries && IsOk(outcome(a))
      ensures saved ==> && FirstStop(outcome, retries, false) == Some(attempts)
                        && IsOk(outcome(attempts))
                        && fs.files == old(fs.files)[path := outcome(attempts).body]
      ensures !saved ==> attempts == (if retries > 0 then retries else 0) && fs.files == old(fs.files)
    {
      SaveStopIff(outcome, retries);
      var attempt := 1;
      attempts := 0;
      while attempt <= retries
        invariant 1 <= attempt <= if retries >= 1 then retries + 1 else 1
        invariant attempts == attempt - 1
        invariant FirstStop(outcome, retries, false) == FirstIn(StopsAt(outcome, false), attempt, retries)
        invariant fs.files == old(fs.files)
        decreases retries - attempt
      {
        attempts := attempt;
        var r := outcome(attempt);
        if r.Raised? {
          if attempt >= retries {
            return false, attempts;
          }
        } else if r.status == 200 {
          fs.files := fs.files[path := r.body];
          return true, attempts;
        }
        attempt := attempt + 1;
      }
      return false, attempts;
    }

    /** `save_and_validate_image`: save, then keep the file only if the image is
        not a single colour; a solid image is deleted again. */
    method SaveAndValidateImage(fs: FileSystem, path: string, outcome: nat -> Outcome<Bytes>, retries: int,
                                isSolidColor: Bytes -> bool)
      returns (ok: bool)
      modifies fs
      ensures var f := FirstStop(outcome, retries, false);
              f.None? ==> !ok && fs.files == old(fs.files)
      ensures var f := FirstStop(outcome, retries, false);
              f.Some? ==> var body := outcome(f.value).body;
                          && ok == !isSolidColor(body)
                          && fs.files == if ok then old(fs.files)[path := body] else old(fs.files) - {path}
    {
      ghost var attempts;
      var saved;
      saved, attempts := SaveImage(fs, path, outcome, retries);
      if saved {
        if !isSolidColor(fs.files[path]) {
          return true;
        } else {
          fs.files := fs.files - {path};
          return false;
        }
      } else {
        return false;
      }
    }
  }

  /** The message `load_cameras` raises `FetchCamerasError` with. */
  const FetchCamerasMessage := "failed to fetch camera links after multiple attempts."

  /** How `load_cameras` ends: the `loc` texts, the custom exception, an
      exception from the HTTP client passed through, or falling off the end of
      the function (which returns `None`). */
  datatype LoadResult =
    | Links(links: seq<string>)
    | FetchCamerasError(message: string)
    | RequestRaised
    | NoneReturned

  /** `load_cameras`, with `outcome(a)` the sitemap response to attempt `a`, its
      body already reduced to the `loc` texts in document order. */
  method LoadCameras(outcome: nat -> Outcome<seq<string>>, retries: int) returns (r: LoadResult)
    ensures r.NoneReturned? <==> retries <= 0
    ensures var f := FirstStop(outcome, retries, true);
            && (r.Links? <==> f.Some? && IsOk(outcome(f.value)))
            && (r.Links? ==> r.links == outcome(f.value).body)
            && (r.RequestRaised? <==> f.Some? && outcome(f.value).Raised?)
    ensures r.FetchCamerasError? <==> retries >= 1 && forall a :: 1 <= a <= retries ==>
                                                        outcome(a).Responded? && outcome(a).status != 200
    ensures r.FetchCamerasError? ==> r.message == FetchCamerasMessage
  {
    LoadStopNoneIff(outcome, retries);
    var attempt := 1;
    while attempt <= retries
      invariant 1 <= attempt && (retries >= 1 ==> attempt <= retries)
      invariant FirstStop(outcome, retries, true) == FirstIn(StopsAt(outcome, true), attempt, retries)
      decreases retries - attempt
    {
      var o := outcome(attempt);
      if o.Raised? {
        return RequestRaised;
      }
      if o.status == 200 {
        return Links(o.body);
      } else if attempt >= retries {
        return FetchCamerasError(FetchCamerasMessage);
      }
      attempt := attempt + 1;
    }
    return NoneReturned;
  }

  /** The acceptance test of `get_random_valid_camera` on the page of a drawn
      camera: page content present and non-empty, a non-empty stream URL, and
      `_url_is_valid`. */
  function Acceptable(page: PageResponse): (ok: bool)
    ensures ok ==> page.Fetched? && |page.content| > 0 && |page.imgSrcs| > 0
    ensures HasTree(page) && |page.imgSrcs| > 0 && !Contains(page.imgSrcs[0], CounterMarker) ==>
              (ok <==> ValidStreamUrl(page.imgSrcs[0]))
  {
    && HasTree(page)
    && var s := FindCameraUrl(page.imgSrcs);
       s.Some? && |s.value| > 0 && ValidStreamUrl(s.value)
  }

  function AcceptableAt(page: nat -> PageResponse): nat -> bool {
    (d: nat) => Acceptable(page(d))
  }

  /** The first draw, among `fuel` draws, whose page is acceptable. */
  function FirstAccepted(page: nat -> PageResponse, fuel: nat): Option<nat> {
    FirstIn(AcceptableAt(page), 0, fuel - 1)
  }

  /** Some draw is accepted exactly when one of the `fuel` pages is acceptable,
      and the one taken is the earliest. */
  lemma FirstAcceptedIff(page: nat -> PageResponse, fuel: nat)
    ensures FirstAccepted(page, fuel).Some? <==> exists d :: 0 <= d < fuel && Acceptable(page(d))
    ensures FirstAccepted(page, fuel).Some? ==>
              var d := FirstAccepted(page, fuel).value;
              d < fuel && Acceptable(page(d)) && forall e :: 0 <= e < d ==> !Acceptable(page(e))
  {
    var f := FirstAccepted(page, fuel);
    if f.Some? {
      assert AcceptableAt(page)(f.value);
      forall e | 0 <= e < f.value ensures !Acceptable(page(e)) {
        assert !AcceptableAt(page)(e);
      }
    } else {
      forall d | 0 <= d < fuel ensures !Acceptable(page(d)) {
        assert !AcceptableAt(page)(d);
      }
    }
  }

  /** What `get_random_valid_camera` guarantees of the camera it returns. */
  predicate Accepted(camera: Camera) {
    && camera.pageContent.Some? && |camera.pageContent.value| > 0
    && camera.streamUrl.Some? && |camera.streamUrl.value| > 0
    && ValidStreamUrl(camera.streamUrl.value)
    && camera.info.Some?
  }

  datatype Selection = Selected(camera: Camera) | PoolEmpty | Exhausted

  /** `get_random_valid_camera`, over `fuel` draws: draw `d` picks
      `cameras[pick(d) % |cameras|]` and fetches `page(d)` for it. An empty pool
      makes `random.choice` raise at once. */
  method GetRandomValidCamera(cameras: seq<string>, pick: nat -> nat, page: nat -> PageResponse, fuel: nat)
    returns (sel: Selection)
    ensures sel.PoolEmpty? <==> |cameras| == 0
    ensures var f := FirstAccepted(page, fuel);
            && (sel.Selected? <==> |cameras| > 0 && f.Some?)
            && (sel.Selected? ==> sel.camera.url == cameras[pick(f.value) % |cameras|] && Accepted(sel.camera))
    ensures var f := FirstAccepted(page, fuel);
            sel.Selected? ==> var p := page(f.value);
                              && sel.camera.pageContent == Some(p.content)
                              && sel.camera.streamUrl == FindCameraUrl(p.imgSrcs)
                              && sel.camera.details == Some(FlattenDetails(p.detailTexts))
                              && sel.camera.info == Some(ParseCameraDetails(FlattenDetails(p.detailTexts)))
  {
    if |cameras| == 0 {
      return PoolEmpty;
    }
    var draw := 0;
    while draw < fuel
      invariant draw <= fuel
      invariant FirstAccepted(page, fuel) == FirstIn(AcceptableAt(page), draw, fuel - 1)
    {
      var camera := new Camera(cameras[pick(draw) % |cameras|], page(draw));
      if || camera.pageContent.None? || |camera.pageContent.value| == 0
         || camera.streamUrl.None? || |camera.streamUrl.value| == 0
         || !ValidStreamUrl(camera.streamUrl.value)
      {
        assert !AcceptableAt(page)(draw);
        draw := draw + 1;
        continue;
      }
      assert AcceptableAt(page)(draw);
      return Selected(camera);
    }
    return Exhausted;
  }
}
