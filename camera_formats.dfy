/**
 * The camera-format report of DoorOpener's diagnostics page: for every pixel
 * format the device advertises, the list of resolutions its frame-size
 * entries report, each distinct (width, height) pair once, in the order in
 * which it was first reported.
 *
 * The device's answers (GetSupportedFormats, GetSupportedFrameSizes) are the
 * input: a sequence of raw formats, in whatever order the Go map was
 * iterated, each with its frame-size entries.
 */
module CameraFormats {

  /** A `map[string]int{"width": w, "height": h}` record; DeepEqual on two of them is `==`. */
  datatype Resolution = Resolution(width: nat, height: nat)

  /** One frame-size entry as the driver reports it: a smallest and a largest size. */
  datatype FrameSize = FrameSize(minWidth: nat, minHeight: nat, maxWidth: nat, maxHeight: nat)

  /** A pixel format code with its name and the frame-size entries reported for it. */
  datatype RawFormat = RawFormat(code: nat, name: string, frameSizes: seq<FrameSize>)

  /** The report row; `frameSize` holds the pixel-format code, as in the source. */
  datatype CameraFormat = CameraFormat(name: string, frameSize: nat, resolutions: seq<Resolution>)

  function MaxOf(f: FrameSize): Resolution {
    Resolution(f.maxWidth, f.maxHeight)
  }

  function MinOf(f: FrameSize): Resolution {
    Resolution(f.minWidth, f.minHeight)
  }

  predicate NoDuplicates<T(==)>(s: seq<T>) {
    forall i, j :: 0 <= i < j < |s| ==> s[i] != s[j]
  }

  /**
   * Every pair the driver reports for `frameSizes`, in the order the source
   * considers them: each entry's largest size, then its smallest.
   */
  function Reported(frameSizes: seq<FrameSize>): (r: seq<Resolution>)
    ensures |r| == 2 * |frameSizes|
    ensures forall k :: 0 <= k < |frameSizes| ==> r[2 * k] == MaxOf(frameSizes[k]) && r[2 * k + 1] == MinOf(frameSizes[k])
  {
    if frameSizes == [] then []
    else
      var n := |frameSizes| - 1;
      Reported(frameSizes[..n]) + [MaxOf(frameSizes[n]), MinOf(frameSizes[n])]
  }

  /** A pair is reported exactly when it is the largest or smallest size of some entry. */
  lemma ReportedMembers(frameSizes: seq<FrameSize>, x: Resolution)
    ensures x in Reported(frameSizes) <==>
      exists k :: 0 <= k < |frameSizes| && (x == MaxOf(frameSizes[k]) || x == MinOf(frameSizes[k]))
  {
    var r := Reported(frameSizes);
    if x in r {
      var i :| 0 <= i < |r| && r[i] == x;
      var k := i / 2;
      assert i == 2 * k || i == 2 * k + 1;
    }
  }

  function AddIfNew<T(==)>(acc: seq<T>, x: T): seq<T> {
    if x in acc then acc else acc + [x]
  }

  /** `s` with every element after its first occurrence removed. */
  function DedupFirst<T(==)>(s: seq<T>): seq<T> {
    if s == [] then [] else AddIfNew(DedupFirst(s[..|s| - 1]), s[|s| - 1])
  }

  /** Nothing is lost and nothing is invented: the same elements as `s`. */
  lemma {:induction false} DedupFirstMembers<T>(s: seq<T>)
    ensures forall x :: x in DedupFirst(s) <==> x in s
  {
    if s != [] {
      var p := s[..|s| - 1];
      DedupFirstMembers(p);
      assert s == p + [s[|s| - 1]];
    }
  }

  /** No element occurs twice. */
  lemma {:induction false} DedupFirstNoDuplicates<T>(s: seq<T>)
    ensures NoDuplicates(DedupFirst(s))
  {
    if s != [] {
      var p := s[..|s| - 1];
      DedupFirstNoDuplicates(p);
      DedupFirstMembers(p);
    }
  }

  /** The position of the first occurrence of `x` in `s`. */
  function IndexOf<T(==)>(s: seq<T>, x: T): (k: nat)
    requires x in s
    ensures k < |s| && s[k] == x && x !in s[..k]
  {
    if s[0] == x then 0
    else
      var k := 1 + IndexOf(s[1..], x);
      assert s[..k] == [s[0]] + s[1..][..k - 1];
      k
  }

  lemma IndexOfExtend<T>(s: seq<T>, y: T, x: T)
    requires x in s
    ensures IndexOf(s + [y], x) == IndexOf(s, x)
  {
    var t := s + [y];
    var i, j := IndexOf(t, x), IndexOf(s, x);
    assert forall k :: 0 <= k < i ==> t[..i][k] != x;
    assert t[j] == x;
    assert i <= j;
    assert forall k :: 0 <= k < j ==> s[..j][k] != x;
    assert s[i] == x;
  }

  /**
   * The kept elements appear in the order of their first occurrences in `s`:
   * an element kept earlier was first reported earlier.
   */
  lemma {:induction false} DedupFirstOrder<T>(s: seq<T>)
    ensures forall x :: x in DedupFirst(s) ==> x in s
    ensures forall i, j :: 0 <= i < j < |DedupFirst(s)| ==>
      IndexOf(s, DedupFirst(s)[i]) < IndexOf(s, DedupFirst(s)[j])
  {
    DedupFirstMembers(s);
    if s != [] {
      var n := |s| - 1;
      var p, x := s[..n], s[n];
      assert s == p + [x];
      DedupFirstOrder(p);
      DedupFirstMembers(p);
      var d, r := DedupFirst(p), DedupFirst(s);
      assert r == AddIfNew(d, x);
      forall i, j | 0 <= i < j < |r|
        ensures IndexOf(s, r[i]) < IndexOf(s, r[j])
      {
        IndexOfExtend(p, x, r[i]);
        if j < |d| {
          IndexOfExtend(p, x, r[j]);
        } else {
          assert r[j] == x && x !in p;
        }
      }
    }
  }

  /** One more frame-size entry adds its largest size, then its smallest, each unless already present. */
  lemma DedupReportedStep(frameSizes: seq<FrameSize>, i: nat)
    requires i < |frameSizes|
    ensures DedupFirst(Reported(frameSizes[..i + 1])) ==
      AddIfNew(AddIfNew(DedupFirst(Reported(frameSizes[..i])), MaxOf(frameSizes[i])), MinOf(frameSizes[i]))
  {
    var before := Reported(frameSizes[..i]);
    var mx, mn := MaxOf(frameSizes[i]), MinOf(frameSizes[i]);
    assert frameSizes[..i + 1][..i] == frameSizes[..i];
    assert Reported(frameSizes[..i + 1]) == before + [mx, mn];
    assert (before + [mx, mn])[..|before| + 1] == before + [mx];
    assert (before + [mx])[..|before|] == before;
  }

  /**
   * Resolutions of one pixel format, as the inner loop of getCameraFormats
   * builds them: for each frame-size entry, the largest size and then the
   * smallest, each appended unless an equal pair is already present.
   */
  method CollectResolutions(frameSizes: seq<FrameSize>) returns (resolutions: seq<Resolution>)
    ensures resolutions == DedupFirst(Reported(frameSizes))
  {
    resolutions := [];
    for i := 0 to |frameSizes|
      invariant resolutions == DedupFirst(Reported(frameSizes[..i]))
    {
      var tempMaxResolution := MaxOf(frameSizes[i]);
      var tempMinResolution := MinOf(frameSizes[i]);
      var found := AlreadyFoundResolution(resolutions, tempMaxResolution);
      if !found {
        resolutions := resolutions + [tempMaxResolution];
      }
      found := AlreadyFoundResolution(resolutions, tempMinResolution);
      if !found {
        resolutions := resolutions + [tempMinResolution];
      }
      DedupReportedStep(frameSizes, i);
    }
    assert frameSizes[..|frameSizes|] == frameSizes;
  }

  /** Whether an equal (width, height) pair is already in the list. */
  method AlreadyFoundResolution(resolutions: seq<Resolution>, newResolution: Resolution) returns (found: bool)
    ensures found <==> exists i :: 0 <= i < |resolutions| && resolutions[i] == newResolution
  {
    for i := 0 to |resolutions|
      invariant forall j :: 0 <= j < i ==> resolutions[j] != newResolution
    {
      if resolutions[i] == newResolution {
        return true;
      }
    }
    return false;
  }

  /** The report row of one raw format. */
  function FormatOf(raw: RawFormat): CameraFormat {
    CameraFormat(raw.name, raw.code, DedupFirst(Reported(raw.frameSizes)))
  }

  /**
   * getCameraFormats: one row per advertised format, in input order, with its
   * name, its code and its de-duplicated resolutions.
   */
  method GetCameraFormats(rawFormats: seq<RawFormat>) returns (output: seq<CameraFormat>)
    ensures |output| == |rawFormats|
    ensures forall i :: 0 <= i < |rawFormats| ==> output[i] == FormatOf(rawFormats[i])
    ensures forall i :: 0 <= i < |output| ==> NoDuplicates(output[i].resolutions)
    ensures forall i, x :: 0 <= i < |output| ==>
      (x in output[i].resolutions <==> x in Reported(rawFormats[i].frameSizes))
  {
    output := [];
    for f := 0 to |rawFormats|
      invariant |output| == f
      invariant forall i :: 0 <= i < f ==> output[i] == FormatOf(rawFormats[i])
    {
      var tempResolutions := CollectResolutions(rawFormats[f].frameSizes);
      output := output + [CameraFormat(rawFormats[f].name, rawFormats[f].code, tempResolutions)];
    }
    forall i | 0 <= i < |output|
      ensures NoDuplicates(output[i].resolutions)
      ensures forall x :: x in output[i].resolutions <==> x in Reported(rawFormats[i].frameSizes)
    {
      DedupFirstNoDuplicates(Reported(rawFormats[i].frameSizes));
      DedupFirstMembers(Reported(rawFormats[i].frameSizes));
    }
  }
}
