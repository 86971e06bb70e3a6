/** The file-extension dispatch of `importImage` and `exportImage`: the
    codec is chosen by the last three characters of the file name.

    The codecs themselves are other modules (Ppm, Pfm) or library calls
    that are not part of this model; here the outcome of a dispatch is the
    format whose importer or exporter would be called, or the exception.
 */
module ImageIO {
  import opened Wrappers

  /** The codecs the dispatch can select. */
  datatype Format = PfmFormat | PpmFormat | ExrFormat | PngFormat | JpgFormat | TifFormat

  /** `filename.substr(filename.size() - 3, 3)`. With fewer than three
      characters the `size_t` subtraction wraps to a position past the end
      of the name, and `substr` throws `std::out_of_range`. */
  function Extension(name: string): (r: Result<string>)
    ensures r.Ok? <==> |name| >= 3
    ensures r.Fail? ==> r.error == OutOfRange
    ensures r.Ok? ==> |r.value| == 3 && name == name[..|name| - 3] + r.value
  {
    if |name| < 3 then Fail(OutOfRange) else Ok(name[|name| - 3..])
  }

  /** The comparison chain that `importImage` and `exportImage` each
      write out, in the same order. */
  function Chain(ext: string): Result<Format>
  {
    if ext == "PFM" || ext == "pfm" then Ok(PfmFormat)
    else if ext == "PPM" || ext == "ppm" || ext == "PNM" || ext == "pnm" then Ok(PpmFormat)
    else if ext == "EXR" || ext == "exr" then Ok(ExrFormat)
    else if ext == "PNG" || ext == "png" then Ok(PngFormat)
    else if ext == "JPG" || ext == "jpg" || ext == "JPEG" || ext == "jpeg" then Ok(JpgFormat)
    else if ext == "TIF" || ext == "tif" || ext == "TIFF" || ext == "tiff" then Ok(TifFormat)
    else Fail(UnsupportedFormat)
  }

  /** `importImage(filename, result)`: the format whose importer is
      called. */
  function ImportImage(name: string): (r: Result<Format>)
    ensures |name| < 3 ==> r == Fail(OutOfRange)
    ensures r.Fail? ==> r.error == OutOfRange || r.error == UnsupportedFormat
  {
    var ext :- Extension(name);
    Chain(ext)
  }

  /** `exportImage(filename, source)`: the format whose exporter is
      called. */
  function ExportImage(name: string): (r: Result<Format>)
    ensures |name| < 3 ==> r == Fail(OutOfRange)
    ensures r.Fail? ==> r.error == OutOfRange || r.error == UnsupportedFormat
  {
    var ext :- Extension(name);
    Chain(ext)
  }

  /** The extensions that select a codec, as a table: every name here
      has exactly three characters, upper or lower case. */
  const Extensions: map<string, Format> :=
    map["PFM" := PfmFormat, "pfm" := PfmFormat,
        "PPM" := PpmFormat, "ppm" := PpmFormat, "PNM" := PpmFormat, "pnm" := PpmFormat,
        "EXR" := ExrFormat, "exr" := ExrFormat,
        "PNG" := PngFormat, "png" := PngFormat,
        "JPG" := JpgFormat, "jpg" := JpgFormat,
        "TIF" := TifFormat, "tif" := TifFormat]

  /** On a three-character extension the chain is the table: a listed
      extension selects its format, any other throws `unsupportedFormat`. */
  lemma ChainIsTable(ext: string)
    requires |ext| == 3
    ensures Chain(ext) == (if ext in Extensions then Ok(Extensions[ext]) else Fail(UnsupportedFormat))
  {
    assert |"JPEG"| == 4 && |"jpeg"| == 4 && |"TIFF"| == 4 && |"tiff"| == 4;
  }

  /** Import and export dispatch every name the same way; a name of three
      or more characters goes to the format its last three characters name
      in the table, and every other name fails. */
  lemma DispatchByTable(name: string)
    ensures ImportImage(name) == ExportImage(name)
    ensures |name| >= 3 && name[|name| - 3..] in Extensions ==>
              ImportImage(name) == Ok(Extensions[name[|name| - 3..]])
    ensures |name| >= 3 && name[|name| - 3..] !in Extensions ==>
              ImportImage(name) == Fail(UnsupportedFormat)
  {
    if |name| >= 3 {
      ChainIsTable(name[|name| - 3..]);
    }
  }

  /** The four-letter names in the chains are compared with a
      three-character string and never match: a name ending in "jpeg",
      "JPEG", "tiff" or "TIFF" is unsupported. */
  lemma FourLetterExtensionsUnsupported(name: string)
    requires |name| >= 4
    requires var e := name[|name| - 4..]; e == "jpeg" || e == "JPEG" || e == "tiff" || e == "TIFF"
    ensures ImportImage(name) == Fail(UnsupportedFormat)
    ensures ExportImage(name) == Fail(UnsupportedFormat)
  {
    var ext := name[|name| - 3..];
    assert ext == name[|name| - 4..][1..];
    assert ext == "peg" || ext == "PEG" || ext == "iff" || ext == "IFF";
    assert ext !in Extensions;
    DispatchByTable(name);
  }

  /** A ".jpeg" file is refused while the same name with ".jpg" is
      accepted. */
  lemma JpegRefusedJpgAccepted()
    ensures ImportImage("photo.jpeg") == Fail(UnsupportedFormat)
    ensures ImportImage("photo.jpg") == Ok(JpgFormat)
  {
    FourLetterExtensionsUnsupported("photo.jpeg");
    DispatchByTable("photo.jpg");
  }

  /** Case matters: an extension that is neither all upper nor all lower
      case is refused. */
  lemma MixedCaseRefused()
    ensures ExportImage("hdr.Pfm") == Fail(UnsupportedFormat)
    ensures ExportImage("hdr.PFM") == Ok(PfmFormat)
  {
    DispatchByTable("hdr.Pfm");
    DispatchByTable("hdr.PFM");
  }
}
