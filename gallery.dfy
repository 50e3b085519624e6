/** The product page's image gallery: every candidate image is probed, each probe reports
    success or failure once, and when the count of reports reaches the number of candidates the
    gallery is shown with the images that loaded, in the order their reports arrived. */
module Gallery {
  import opened Seqs
  import opened Catalog

  /** One probe report: the image it was started for and whether it loaded. */
  datatype Probe = Probe(path: string, loaded: bool)

  /** The paths of the successful reports, in report order. */
  function Loaded(reports: seq<Probe>): (r: seq<string>)
    ensures |r| <= |reports|
    ensures forall x :: x in r <==> exists i :: 0 <= i < |reports| && reports[i].loaded && reports[i].path == x
  {
    if reports == [] then []
    else
      var init := reports[..|reports| - 1];
      var last := reports[|reports| - 1];
      var r := Loaded(init) + (if last.loaded then [last.path] else []);
      assert forall i :: 0 <= i < |init| ==> init[i] == reports[i];
      r
  }

  /** The candidate list: `images` when it is non-empty, else the single `image`, else nothing. */
  function GalleryCandidates(p: Product): (r: seq<string>)
    ensures r == [] <==> p.images == [] && p.image == ""
    ensures forall x :: x in r ==> x in p.images || x == p.image
  {
    if |p.images| > 0 then p.images else if p.image != "" then [p.image] else []
  }

  /** What the page ends up showing. */
  datatype GalleryView = GalleryView(visible: bool, mainImage: Option<string>, thumbnails: seq<string>)

  /** The gallery after `reports` arrived for `candidates`: it is rendered once, at the report
      that brings the count to the number of candidates, with the images that had loaded by then;
      with no candidate or no success it stays hidden. */
  function GalleryAfter(candidates: seq<string>, reports: seq<Probe>): (r: GalleryView)
    ensures r.visible ==> 0 < |candidates| <= |reports|
    ensures r.visible <==> r.mainImage.Some?
    ensures r.visible ==> r.thumbnails != [] && r.mainImage.value == r.thumbnails[0]
    ensures !r.visible ==> r.thumbnails == []
  {
    var n := |candidates|;
    if 0 < n <= |reports| && Loaded(reports[..n]) != [] then
      GalleryView(true, Some(Loaded(reports[..n])[0]), Loaded(reports[..n]))
    else GalleryView(false, None, [])
  }

  /** The state of one gallery check: the counter and list the probe callbacks share, and the
      parts of the page they update. */
  class GalleryCheck {
    const imagesToCheck: seq<string>
    var checkedCount: nat
    var validImages: seq<string>
    var containerVisible: bool
    var mainImageSrc: Option<string>
    var thumbnails: seq<string>
    ghost var reports: seq<Probe>

    ghost predicate Valid()
      reads this
    {
      && checkedCount == |reports|
      && validImages == Loaded(reports)
      && GalleryView(containerVisible, mainImageSrc, thumbnails) == GalleryAfter(imagesToCheck, reports)
    }

    /** Hides the container and clears the thumbnails before any probe starts. */
    constructor (candidates: seq<string>)
      ensures Valid()
      ensures imagesToCheck == candidates && reports == []
    {
      imagesToCheck := candidates;
      checkedCount := 0;
      validImages := [];
      containerVisible := false;
      mainImageSrc := None;
      thumbnails := [];
      reports := [];
    }

    /** The probe callback: count the report, keep the path if it loaded, and render when this
        report is the last one expected. */
    method OnChecked(report: Probe)
      requires Valid()
      modifies this
      ensures Valid()
      ensures reports == old(reports) + [report]
      ensures checkedCount == old(checkedCount) + 1
      ensures validImages == old(validImages) + (if report.loaded then [report.path] else [])
    {
      ghost var before := reports;
      checkedCount := checkedCount + 1;
      if report.loaded {
        validImages := validImages + [report.path];
      }
      reports := reports + [report];
      assert reports[..|reports| - 1] == before;
      if checkedCount == |imagesToCheck| {
        AfterLastReport(imagesToCheck, reports);
        if |validImages| > 0 {
          containerVisible := true;
          mainImageSrc := Some(validImages[0]);
          thumbnails := thumbnails + validImages;
        }
      } else {
        AfterOtherReport(imagesToCheck, before, report);
      }
    }
  }

  /** The whole check for one product: no candidate leaves the gallery hidden; otherwise the
      reports are delivered to the callback one by one. */
  method ResolveGallery(p: Product, reports: seq<Probe>) returns (view: GalleryView)
    ensures view == GalleryAfter(GalleryCandidates(p), reports)
  {
    var imagesToCheck := GalleryCandidates(p);
    if |imagesToCheck| == 0 {
      return GalleryView(false, None, []);
    }
    var check := new GalleryCheck(imagesToCheck);
    var i := 0;
    while i < |reports|
      invariant 0 <= i <= |reports|
      invariant check.Valid()
      invariant check.imagesToCheck == imagesToCheck
      invariant check.reports == reports[..i]
    {
      check.OnChecked(reports[i]);
      assert reports[..i + 1] == reports[..i] + [reports[i]];
      i := i + 1;
    }
    assert reports[..i] == reports;
    view := GalleryView(check.containerVisible, check.mainImageSrc, check.thumbnails);
  }

  /** The report that completes the count renders the images loaded so far, if any. */
  lemma AfterLastReport(candidates: seq<string>, reports: seq<Probe>)
    requires |reports| == |candidates| > 0
    ensures GalleryAfter(candidates, reports) ==
      if Loaded(reports) != [] then GalleryView(true, Some(Loaded(reports)[0]), Loaded(reports))
      else GalleryView(false, None, [])
  {
    assert reports[..|candidates|] == reports;
  }

  /** Any other report leaves the page as it was. */
  lemma AfterOtherReport(candidates: seq<string>, reports: seq<Probe>, report: Probe)
    requires |reports| + 1 != |candidates|
    ensures GalleryAfter(candidates, reports + [report]) == GalleryAfter(candidates, reports)
  {
    if 0 < |candidates| <= |reports| {
      assert (reports + [report])[..|candidates|] == reports[..|candidates|];
    }
  }

  /** When every candidate has reported once, the gallery is shown exactly when some image
      loaded, its main image is the first success reported, and it holds every success. */
  lemma AllReportedShowsAnyLoaded(candidates: seq<string>, reports: seq<Probe>)
    requires |reports| == |candidates| > 0
    ensures GalleryAfter(candidates, reports).visible <==> exists i :: 0 <= i < |reports| && reports[i].loaded
    ensures GalleryAfter(candidates, reports).thumbnails == Loaded(reports)
  {
    assert reports[..|candidates|] == reports;
    if Loaded(reports) != [] {
      assert Loaded(reports)[0] in Loaded(reports);
    }
    if exists i :: 0 <= i < |reports| && reports[i].loaded {
      var i :| 0 <= i < |reports| && reports[i].loaded;
      assert reports[i].path in Loaded(reports);
    }
  }

  /** Before the last report arrives nothing is shown. */
  lemma HiddenUntilAllReported(candidates: seq<string>, reports: seq<Probe>)
    requires |reports| < |candidates|
    ensures !GalleryAfter(candidates, reports).visible
    ensures GalleryAfter(candidates, reports).thumbnails == []
  {
  }

  /** Reports after the last expected one change nothing on the page. */
  lemma LateReportsIgnored(candidates: seq<string>, reports: seq<Probe>, late: seq<Probe>)
    requires |reports| >= |candidates|
    ensures GalleryAfter(candidates, reports + late) == GalleryAfter(candidates, reports)
  {
    assert (reports + late)[..|candidates|] == reports[..|candidates|];
  }

  /** The thumbnails are successful candidates: a probe started for a candidate puts nothing
      else on the page. */
  lemma ThumbnailsAreLoadedCandidates(candidates: seq<string>, reports: seq<Probe>)
    requires forall i :: 0 <= i < |reports| ==> reports[i].path in candidates
    ensures forall x :: x in GalleryAfter(candidates, reports).thumbnails ==>
      x in candidates && exists i :: 0 <= i < |reports| && reports[i].loaded && reports[i].path == x
  {
    var n := |candidates|;
    if 0 < n <= |reports| {
      forall x | x in Loaded(reports[..n])
        ensures x in candidates && exists i :: 0 <= i < |reports| && reports[i].loaded && reports[i].path == x
      {
        var i :| 0 <= i < n && reports[..n][i].loaded && reports[..n][i].path == x;
        assert reports[i] == reports[..n][i];
      }
    }
  }
}
