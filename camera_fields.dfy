/**
  The fields a `Camera` derives from its URL and its directory page: the id,
  the stream URL, the validity test on the stream URL, the flattened details
  text and the location fields cut out of it by label.
  The HTML parser is not modelled: a page is given by what its XPath queries
  return (the `img/@src` values and the `camera-details` texts).
 */
module CameraFields {
  import opened Wrappers
  import opened PyStr

  /** `str.isdigit()`, restricted to the ASCII digits. */
  function IsDigit(c: char): (r: bool)
    ensures r <==> c in "0123456789"
  {
    '0' <= c <= '9'
  }

  /** `_get_camera_id`: the digit characters of `url`, in order. */
  function CameraId(url: string): (id: string)
    ensures |id| <= |url|
    ensures forall i :: 0 <= i < |id| ==> IsDigit(id[i])
    ensures id == [] <==> forall i :: 0 <= i < |url| ==> !IsDigit(url[i])
  {
    if url == [] then []
    else
      var rest := CameraId(url[1..]);
      assert forall i :: 1 <= i < |url| ==> url[i] == url[1..][i - 1];
      (if IsDigit(url[0]) then [url[0]] else []) + rest
  }

  /** The id of a concatenation is the concatenation of the ids: together with
      the one-character case this pins `CameraId` down as digit filtering. */
  lemma {:induction false} CameraIdAppend(a: string, b: string)
    ensures CameraId(a + b) == CameraId(a) + CameraId(b)
  {
    if a == [] {
      assert a + b == b;
    } else {
      assert (a + b)[1..] == a[1..] + b;
      CameraIdAppend(a[1..], b);
    }
  }

  /** A string of digits is its own id; in particular the id of an id is itself. */
  lemma {:induction false} CameraIdOfDigits(s: string)
    requires forall i :: 0 <= i < |s| ==> IsDigit(s[i])
    ensures CameraId(s) == s
  {
    if s != [] {
      CameraIdOfDigits(s[1..]);
    }
  }

  lemma CameraIdIdempotent(url: string)
    ensures CameraId(CameraId(url)) == CameraId(url)
  {
    CameraIdOfDigits(CameraId(url));
  }

  /** The cache-busting marker deleted from image sources. */
  const CounterMarker := "?COUNTER"

  /** `_find_camera_url`: the first `img/@src` value with "?COUNTER" deleted,
      or `None` when the page has no image. */
  function FindCameraUrl(imgSrcs: seq<string>): (r: Option<string>)
    ensures r.Some? <==> |imgSrcs| > 0
    ensures r.Some? ==> |r.value| <= |imgSrcs[0]|
    ensures r.Some? && !Contains(imgSrcs[0], CounterMarker) ==> r.value == imgSrcs[0]
  {
    if |imgSrcs| > 0 then
      DropCounterWithoutMarker(imgSrcs[0]);
      Some(Replace(imgSrcs[0], CounterMarker, ""))
    else None
  }

  /** A source without the marker is kept as it is. */
  lemma DropCounterWithoutMarker(src: string)
    ensures !Contains(src, CounterMarker) ==> Replace(src, CounterMarker, "") == src
  {
    if !Contains(src, CounterMarker) {
      ReplaceAbsent(src, CounterMarker, "");
    }
  }

  /** "?COUNTER" cannot start inside the last seven characters before another
      "?COUNTER": in a marker-free prefix followed by the marker, the first
      occurrence is the one right after the prefix. */
  lemma CounterNotStraddling(base: string, tail: string)
    requires !Contains(base, CounterMarker)
    ensures Find(base + CounterMarker + tail, CounterMarker) == |base|
  {
    var s := base + CounterMarker + tail;
    assert s[|base|..|base| + |CounterMarker|] == CounterMarker;
    assert OccursAt(s, CounterMarker, |base|);
    forall j | 0 <= j < |base| ensures !OccursAt(s, CounterMarker, j) {
      if j + |CounterMarker| <= |base| {
        assert s[j..j + |CounterMarker|] == base[j..j + |CounterMarker|];
        assert !OccursAt(base, CounterMarker, j);
      } else {
        var d := |base| - j;
        assert s[|base|] == '?';
        assert s[j..j + |CounterMarker|][d] == '?';
        assert CounterMarker[d] != '?';
      }
    }
    FindAt(s, CounterMarker, |base|);
  }

  /** The deletion step of line 61: the text before the first "?COUNTER" is
      kept, the marker is dropped, and the deletion carries on after it. */
  lemma DropFirstCounter(base: string, tail: string)
    requires !Contains(base, CounterMarker)
    ensures Replace(base + CounterMarker + tail, CounterMarker, "")
            == base + Replace(tail, CounterMarker, "")
  {
    var s := base + CounterMarker + tail;
    CounterNotStraddling(base, tail);
    assert Replace(s, CounterMarker, "")
           == s[..|base|] + "" + Replace(s[|base| + |CounterMarker|..], CounterMarker, "");
    assert s[..|base|] == base;
    assert s[|base| + |CounterMarker|..] == tail;
    assert base + "" == base;
  }

  /** Every source holding the marker has that shape: a marker-free prefix,
      the marker, and the rest. */
  lemma FirstCounterSplit(src: string)
    requires Contains(src, CounterMarker)
    ensures var i := Find(src, CounterMarker);
            && src == src[..i] + CounterMarker + src[i + |CounterMarker|..]
            && !Contains(src[..i], CounterMarker)
  {
    var i := Find(src, CounterMarker);
    var base := src[..i];
    assert src[i..i + |CounterMarker|] == CounterMarker;
    assert src == base + src[i..i + |CounterMarker|] + src[i + |CounterMarker|..];
    forall j | OccursAt(base, CounterMarker, j) ensures false {
      assert base[j..j + |CounterMarker|] == src[j..j + |CounterMarker|];
      assert OccursAt(src, CounterMarker, j);
    }
  }

  /** A first image source of the form prefix, "?COUNTER", rest yields the
      prefix followed by the rest with its own markers deleted; a source
      ending in a single "?COUNTER" yields the source without it. */
  lemma FindCameraUrlDropsCounter(base: string, tail: string, rest: seq<string>)
    requires !Contains(base, CounterMarker)
    ensures FindCameraUrl([base + CounterMarker + tail] + rest)
            == Some(base + Replace(tail, CounterMarker, ""))
    ensures FindCameraUrl([base + CounterMarker] + rest) == Some(base)
  {
    DropFirstCounter(base, tail);
    assert ([base + CounterMarker + tail] + rest)[0] == base + CounterMarker + tail;
    DropFirstCounter(base, "");
    assert base + CounterMarker + "" == base + CounterMarker;
    assert ([base + CounterMarker] + rest)[0] == base + CounterMarker;
    assert Replace("", CounterMarker, "") == "";
    assert base + "" == base;
  }

  /** The directory's placeholder image for a camera without a picture. */
  const NoCameraPath := "/static/no.jpg"

  /** `_url_is_valid`: not the placeholder, no live-stream marker, a JPEG still marker. */
  function ValidStreamUrl(streamUrl: string): (valid: bool)
    ensures valid <==> && streamUrl != NoCameraPath
                       && !IsInfix("?stream", streamUrl)
                       && IsInfix(".jpg", streamUrl)
  {
    ContainsIsInfix(streamUrl, "?stream");
    ContainsIsInfix(streamUrl, ".jpg");
    streamUrl != NoCameraPath && !Contains(streamUrl, "?stream") && Contains(streamUrl, ".jpg")
  }

  /** One `camera-details` text as `_get_camera_details` cleans it: newlines and
      tabs deleted, then surrounding whitespace stripped. */
  function CleanFragment(fragment: string): (r: string)
    ensures r == Strip(RemoveAll(RemoveAll(fragment, '\n'), '\t'))
    ensures NoBreaks(r)
    ensures r == [] || (!IsSpace(r[0]) && !IsSpace(r[|r| - 1]))
  {
    CleanFragmentNoBreaks(fragment);
    ReplaceCharIsRemoval(fragment, '\n');
    ReplaceCharIsRemoval(RemoveAll(fragment, '\n'), '\t');
    Strip(Replace(Replace(fragment, "\n", ""), "\t", ""))
  }

  /** No newline and no tab. */
  predicate NoBreaks(s: string) {
    forall i :: 0 <= i < |s| ==> s[i] != '\n' && s[i] != '\t'
  }

  lemma CleanFragmentNoBreaks(fragment: string)
    ensures NoBreaks(Strip(Replace(Replace(fragment, "\n", ""), "\t", "")))
  {
    var noNewline := Replace(fragment, "\n", "");
    ReplaceCharIsRemoval(fragment, '\n');
    var noTab := Replace(noNewline, "\t", "");
    ReplaceCharIsRemoval(noNewline, '\t');
    RemoveAllKeepsMissing(noNewline, '\t', '\n');
    assert NoBreaks(noTab);
    StripKeeps(noTab);
  }

  lemma StripKeeps(s: string)
    requires NoBreaks(s)
    ensures NoBreaks(Strip(s))
  {
    var r := Strip(s);
    var lo :| OccursAt(s, r, lo);
    forall i | 0 <= i < |r| ensures r[i] == s[lo + i] {
      assert r[i] == s[lo..lo + |r|][i];
    }
  }

  /** `_get_camera_details`: the cleaned texts joined in document order. */
  function FlattenDetails(fragments: seq<string>): (details: string)
    ensures NoBreaks(details)
  {
    if fragments == [] then ""
    else
      var head, rest := CleanFragment(fragments[0]), FlattenDetails(fragments[1..]);
      NoBreaksConcat(head, rest);
      head + rest
  }

  lemma NoBreaksConcat(a: string, b: string)
    requires NoBreaks(a) && NoBreaks(b)
    ensures NoBreaks(a + b)
  {
    assert forall i :: |a| <= i < |a| + |b| ==> (a + b)[i] == b[i - |a|];
  }

  /** Joining is compositional: flattening two runs of texts and concatenating. */
  lemma {:induction false} FlattenDetailsAppend(a: seq<string>, b: seq<string>)
    ensures FlattenDetails(a + b) == FlattenDetails(a) + FlattenDetails(b)
  {
    if a == [] {
      assert a + b == b;
    } else {
      assert (a + b)[0] == a[0] && (a + b)[1..] == a[1..] + b;
      FlattenDetailsAppend(a[1..], b);
      var x, y, z := CleanFragment(a[0]), FlattenDetails(a[1..]), FlattenDetails(b);
      assert x + (y + z) == (x + y) + z;
    }
  }

  /** A single text flattens to its cleaned form; with `FlattenDetailsAppend`
      this fixes the result as the cleaned texts joined in document order. */
  lemma FlattenDetailsSingle(fragment: string)
    ensures FlattenDetails([fragment]) == CleanFragment(fragment)
  {
    assert [fragment][1..] == [];
  }

  /** The camera's location, as the four entries of the `camera_info` dictionary. */
  datatype Info = Info(city: string, region: string, country: string, countryCode: string)

  /** The text between the first `startLabel` and the first `endLabel`, computed
      with `find` and a slice exactly as written: a missing label makes `find`
      return -1, which the slice reads as an index from the end. */
  function Field(details: string, startLabel: string, endLabel: string): (r: string)
    ensures IsInfix(r, details)
  {
    Slice(details, Find(details, startLabel) + |startLabel|, Find(details, endLabel))
  }

  /** `_parse_camera_details`. Whatever the text, every field is a piece of it. */
  function ParseCameraDetails(details: string): (info: Info)
    ensures IsInfix(info.city, details) && IsInfix(info.region, details)
    ensures IsInfix(info.country, details) && IsInfix(info.countryCode, details)
  {
    Info(city := Field(details, "City: ", "Latitude:"),
         region := Field(details, "Region:", "City:"),
         country := Field(details, "Country:", "Country code:"),
         countryCode := Field(details, "Country code:", "Region:"))
  }

  /** The label layout the parser assumes: the first occurrences of the labels
      come in the order Country:, Country code:, Region:, City:, Latitude:, without
      overlapping (the region ends at "City:", the city starts after "City: "). */
  predicate LabelsInOrder(d: string) {
    && 0 <= Find(d, "Country:")
    && Find(d, "Country:") + |"Country:"| <= Find(d, "Country code:")
    && Find(d, "Country code:") + |"Country code:"| <= Find(d, "Region:")
    && Find(d, "Region:") + |"Region:"| <= Find(d, "City:")
    && 0 <= Find(d, "City: ")
    && Find(d, "City: ") + |"City: "| <= Find(d, "Latitude:")
  }

  /** A slice that ends at the first occurrence of a label holds no occurrence of it. */
  lemma PieceBeforeFirst(d: string, lo: int, mark: string)
    requires |mark| > 0 && 0 <= lo <= Find(d, mark)
    ensures !IsInfix(mark, d[lo..Find(d, mark)])
  {
    var hi := Find(d, mark);
    var piece := d[lo..hi];
    forall p | OccursAt(piece, mark, p) ensures false {
      assert piece[p..p + |mark|] == d[lo + p..lo + p + |mark|];
      assert OccursAt(d, mark, lo + p);
    }
  }

  /** A field whose start mark ends before the first occurrence of its end
      mark is the text in between, and holds no occurrence of the end mark. */
  lemma FieldBetween(d: string, startLabel: string, endLabel: string)
    requires |endLabel| > 0
    requires 0 <= Find(d, startLabel) && Find(d, startLabel) + |startLabel| <= Find(d, endLabel)
    ensures Field(d, startLabel, endLabel) == d[Find(d, startLabel) + |startLabel|..Find(d, endLabel)]
    ensures !IsInfix(endLabel, Field(d, startLabel, endLabel))
  {
    PieceBeforeFirst(d, Find(d, startLabel) + |startLabel|, endLabel);
  }

  /** With the labels in the assumed order, each field is exactly the text from
      the end of its start mark to the first occurrence of its end mark, and
      so contains no occurrence of that end mark. */
  lemma ParseInOrder(d: string)
    requires LabelsInOrder(d)
    ensures var info := ParseCameraDetails(d);
            && info.city == d[Find(d, "City: ") + |"City: "|..Find(d, "Latitude:")]
            && info.region == d[Find(d, "Region:") + |"Region:"|..Find(d, "City:")]
            && info.country == d[Find(d, "Country:") + |"Country:"|..Find(d, "Country code:")]
            && info.countryCode == d[Find(d, "Country code:") + |"Country code:"|..Find(d, "Region:")]
    ensures var info := ParseCameraDetails(d);
            && !IsInfix("Latitude:", info.city) && !IsInfix("City:", info.region)
            && !IsInfix("Country code:", info.country) && !IsInfix("Region:", info.countryCode)
  {
    FieldBetween(d, "City: ", "Latitude:");
    FieldBetween(d, "Region:", "City:");
    FieldBetween(d, "Country:", "Country code:");
    FieldBetween(d, "Country code:", "Region:");
  }

  /** An empty details text is still parsed, and every field comes out empty
      (not the "-" that stands for an unknown value). */
  lemma ParseEmptyDetails()
    ensures ParseCameraDetails("") == Info("", "", "", "")
  {
  }

  /** Without a "Latitude:" mark the city slice ends at index -1, so the city
      runs to the end of the text minus its last character. */
  lemma ParseWithoutLatitude(d: string)
    requires !Contains(d, "Latitude:")
    requires 0 <= Find(d, "City: ") && Find(d, "City: ") + |"City: "| <= |d| - 1
    ensures ParseCameraDetails(d).city == d[Find(d, "City: ") + |"City: "|..|d| - 1]
  {
  }
}
