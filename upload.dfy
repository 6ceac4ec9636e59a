/** The upload gate of Backend/middleware/upload.js: the size-limit
    parser and the four file filters that decide, by MIME type or by name,
    whether an uploaded file is kept. */
module UploadMiddleware {
  import opened JsText
  import opened JsPath

  /* ---------------------------------------------------------------------
     parseSize
     --------------------------------------------------------------------- */

  /** The limit used when the text does not match: 50 MiB. */
  const DefaultMaxFileSize: nat := 50 * 1024 * 1024

  /** A unit the pattern `([BKMGT]?B)$` accepts, letters in either case:
      `B`, or one of `B K M G T` followed by `B`. */
  predicate UnitShape(unit: string) {
    || (|unit| == 1 && UpperChar(unit[0]) == 'B')
    || (|unit| == 2 && UpperChar(unit[0]) in "BKMGT" && UpperChar(unit[1]) == 'B')
  }

  /** `units[unit.toUpperCase()] || 1`: the table has B, KB, MB and GB; any
      other matched unit (`BB`, `TB`) finds no entry and counts as 1. */
  function UnitMultiplier(unit: string): (m: nat)
    ensures m != 1 ==> |unit| == 2 && UpperChar(unit[1]) == 'B' && UpperChar(unit[0]) in "KMG"
  {
    var u := ToUpper(unit);
    if u == "KB" then 1024
    else if u == "MB" then 1024 * 1024
    else if u == "GB" then 1024 * 1024 * 1024
    else 1
  }

  /** The text matches `^(\d+)([BKMGT]?B)$` (case-insensitive), split at
      `k` into the digits and the unit. */
  predicate MatchesAt(sizeStr: string, k: int) {
    0 < k <= |sizeStr| && AllDigits(sizeStr[..k]) && UnitShape(sizeStr[k..])
  }

  /** `parseSize(sizeStr)`: the digits are the longest run of digits at the
      start, because the unit begins with a letter; their value times the
      unit's multiplier, or the default when the pattern does not match. */
  function ParseSize(sizeStr: string): (bytes: nat)
    ensures bytes == DefaultMaxFileSize || MatchesAt(sizeStr, |DigitPrefix(sizeStr)|)
  {
    var value := DigitPrefix(sizeStr);
    var unit := sizeStr[|value|..];
    if |value| == 0 || !UnitShape(unit) then DefaultMaxFileSize
    else DigitsValue(value) * UnitMultiplier(unit)
  }

  /** Wherever the pattern matches, the result is the value of the digit
      group times the multiplier of the unit group. */
  lemma MatchedSize(sizeStr: string, k: int)
    requires MatchesAt(sizeStr, k)
    ensures ParseSize(sizeStr) == DigitsValue(sizeStr[..k]) * UnitMultiplier(sizeStr[k..])
  {
    assert !IsDigit(sizeStr[k..][0]);
    DigitPrefixOfDigits(sizeStr[..k], sizeStr[k..]);
    assert sizeStr[..k] + sizeStr[k..] == sizeStr;
  }

  /** Where the pattern matches nowhere, the result is the 50 MiB default. */
  lemma UnmatchedSize(sizeStr: string)
    requires forall k :: !MatchesAt(sizeStr, k)
    ensures ParseSize(sizeStr) == DefaultMaxFileSize
  {
    assert !MatchesAt(sizeStr, |DigitPrefix(sizeStr)|);
  }

  /** A number written in decimal followed by `B` (either case) is that many
      bytes. */
  lemma SizeInBytes(n: nat, b: char)
    requires UpperChar(b) == 'B'
    ensures ParseSize(NatToString(n) + [b]) == n
  {
    SizeOfNumberAndUnit(n, [b]);
    ByteUnit(b);
  }

  /** A number followed by `KB`, `MB` or `GB`, letters in either case, is
      that number times 1024, 1024² or 1024³; followed by `TB` or `BB` it is
      that number of bytes. */
  lemma SizeWithPrefix(n: nat, p: char, b: char)
    requires UpperChar(p) in "BKMGT" && UpperChar(b) == 'B'
    ensures UpperChar(p) == 'K' ==> ParseSize(NatToString(n) + [p, b]) == n * 1024
    ensures UpperChar(p) == 'M' ==> ParseSize(NatToString(n) + [p, b]) == n * 1024 * 1024
    ensures UpperChar(p) == 'G' ==> ParseSize(NatToString(n) + [p, b]) == n * 1024 * 1024 * 1024
    ensures UpperChar(p) in "BT" ==> ParseSize(NatToString(n) + [p, b]) == n
  {
    SizeOfNumberAndUnit(n, [p, b]);
    PrefixedUnit(p, b);
    var m := UnitMultiplier([p, b]);
    assert ParseSize(NatToString(n) + [p, b]) == n * m;
    if UpperChar(p) == 'M' || UpperChar(p) == 'G' {
      PowersOf1024(n);
    }
  }

  lemma PowersOf1024(n: nat)
    ensures n * 1024 * 1024 == n * (1024 * 1024)
    ensures n * 1024 * 1024 * 1024 == n * (1024 * 1024 * 1024)
  {
  }

  lemma ByteUnit(b: char)
    requires UpperChar(b) == 'B'
    ensures UnitMultiplier([b]) == 1
  {
    assert ToUpper([b]) == "B";
  }

  /** The table is read after upper-casing the unit: `kb`, `Kb`, `kB` and
      `KB` all scale by 1024, and a matched unit without an entry counts
      as 1. */
  lemma PrefixedUnit(p: char, b: char)
    requires UpperChar(p) in "BKMGT" && UpperChar(b) == 'B'
    ensures UpperChar(p) == 'K' ==> UnitMultiplier([p, b]) == 1024
    ensures UpperChar(p) == 'M' ==> UnitMultiplier([p, b]) == 1024 * 1024
    ensures UpperChar(p) == 'G' ==> UnitMultiplier([p, b]) == 1024 * 1024 * 1024
    ensures UpperChar(p) in "BT" ==> UnitMultiplier([p, b]) == 1
  {
    assert ToUpper([p, b]) == [UpperChar(p), 'B'];
  }

  lemma SizeOfNumberAndUnit(n: nat, unit: string)
    requires UnitShape(unit)
    ensures ParseSize(NatToString(n) + unit) == n * UnitMultiplier(unit)
  {
    NatToStringDigits(n);
    var s := NatToString(n) + unit;
    assert s[..|NatToString(n)|] == NatToString(n) && s[|NatToString(n)|..] == unit;
    MatchedSize(s, |NatToString(n)|);
  }

  /** `process.env.FILE_SIZE_LIMIT || '50MB'` through `parseSize`: an unset
      (or empty) setting gives 50 MiB. */
  function MaxFileSize(fileSizeLimit: string): (bytes: nat)
    ensures fileSizeLimit == "" ==> bytes == DefaultMaxFileSize
  {
    var limit := if fileSizeLimit == "" then "50MB" else fileSizeLimit;
    SizeWithPrefix(50, 'M', 'B');
    assert NatToString(50) + ['M', 'B'] == "50MB";
    ParseSize(limit)
  }

  /* ---------------------------------------------------------------------
     File filters
     --------------------------------------------------------------------- */

  /** What a filter sees of an uploaded file. */
  datatype UploadedFile = UploadedFile(mimetype: string, originalName: string)

  /** The error each filter passes to multer when it refuses a file. */
  datatype FilterError = OnlyImages | OnlyPdf | OnlyWord | OnlyPowerpoint

  /** `cb(null, true)` or `cb(new Error(...), false)`. */
  datatype Verdict = Accepted | Rejected(reason: FilterError)

  function Decide(accept: bool, reason: FilterError): (v: Verdict)
    ensures v.Accepted? <==> accept
    ensures v.Rejected? ==> v.reason == reason
  {
    if accept then Accepted else Rejected(reason)
  }

  /** `imageFileFilter`: an image is accepted exactly when its MIME type is
      `image/` followed by anything (the empty subtype included). */
  function ImageFileFilter(file: UploadedFile): (v: Verdict)
    ensures v.Accepted? <==> exists subtype :: file.mimetype == "image/" + subtype
    ensures v.Rejected? ==> v.reason == OnlyImages
  {
    assert StartsWith(file.mimetype, "image/") ==> file.mimetype == "image/" + file.mimetype[6..];
    Decide(StartsWith(file.mimetype, "image/"), OnlyImages)
  }

  /** `pdfFileFilter` of this file: the PDF MIME type, or a lowercased
      name ending in `.pdf`, that is, a name whose last four characters are
      `.pdf` in any mix of case, whatever MIME type it claims. */
  function PdfFileFilter(file: UploadedFile): (v: Verdict)
    ensures v.Accepted? <==>
      || file.mimetype == "application/pdf"
      || (|file.originalName| >= 4 && EqualsIgnoringCase(file.originalName[|file.originalName| - 4..], ".pdf"))
    ensures v.Rejected? ==> v.reason == OnlyPdf
  {
    LoweredEnding(file.originalName);
    Decide(file.mimetype == "application/pdf" || EndsWith(ToLower(file.originalName), ".pdf"), OnlyPdf)
  }

  /** A lowercased name ends with `.pdf` exactly when its last four
      characters are `.pdf` up to case. */
  lemma LoweredEnding(name: string)
    ensures EndsWith(ToLower(name), ".pdf") <==> |name| >= 4 && EqualsIgnoringCase(name[|name| - 4..], ".pdf")
  {
    if |name| >= 4 {
      var tail := name[|name| - 4..];
      assert ToLower(name)[|name| - 4..] == ToLower(tail);
      LowerThenUpper(tail, ".pdf");
    }
  }

  /** For a four-character text, lowering it to `.pdf` and upper-casing it
      to `.PDF` are the same test. */
  lemma LowerThenUpper(t: string, lit: string)
    requires |t| == 4 && lit == ".pdf"
    ensures ToLower(t) == lit <==> ToUpper(t) == ToUpper(lit)
  {
    assert ToUpper(lit) == ".PDF";
    if ToUpper(t) == ".PDF" {
      assert ToLower(t) == [ToLower(t)[0], ToLower(t)[1], ToLower(t)[2], ToLower(t)[3]];
    }
  }

  /** The MIME types `wordFileFilter` allows. */
  const WordTypes: seq<string> := [
    "application/msword",
    "application/vnd.openxmlformats-officedocument.wordprocessingml.document",
    "application/vnd.ms-word",
    "application/octet-stream"]

  const WordExtensions: seq<string> := [".doc", ".docx"]

  /** `wordFileFilter`: an allowed MIME type, or a last extension that is
      `.doc` or `.docx` in any case. */
  function WordFileFilter(file: UploadedFile): (v: Verdict)
    ensures v.Accepted? <==> file.mimetype in WordTypes || ToLower(ExtName(file.originalName)) in WordExtensions
    ensures v.Rejected? ==> v.reason == OnlyWord
  {
    Decide(file.mimetype in WordTypes || ToLower(ExtName(file.originalName)) in WordExtensions, OnlyWord)
  }

  /** The MIME types `powerpointFileFilter` allows. */
  const PowerpointTypes: seq<string> := [
    "application/vnd.ms-powerpoint",
    "application/vnd.openxmlformats-officedocument.presentationml.presentation",
    "application/vnd.openxmlformats-officedocument.presentationml.slideshow",
    "application/octet-stream"]

  const PowerpointExtensions: seq<string> := [".ppt", ".pptx"]

  /** `powerpointFileFilter`: an allowed MIME type, or a last extension
      that is `.ppt` or `.pptx` in any case. */
  function PowerpointFileFilter(file: UploadedFile): (v: Verdict)
    ensures v.Accepted? <==> file.mimetype in PowerpointTypes || ToLower(ExtName(file.originalName)) in PowerpointExtensions
    ensures v.Rejected? ==> v.reason == OnlyPowerpoint
  {
    Decide(file.mimetype in PowerpointTypes || ToLower(ExtName(file.originalName)) in PowerpointExtensions, OnlyPowerpoint)
  }

  /** For a plain name `stem + ext`, the Word filter looks only at the last
      extension `ext`: `report.doc.exe` is judged by `.exe`. */
  lemma WordFilterJudgesLastExtension(file: UploadedFile, stem: string, ext: string)
    requires file.originalName == stem + ext
    requires |stem| > 0 && '/' !in stem
    requires |ext| > 1 && ext[0] == '.' && '.' !in ext[1..] && '/' !in ext
    ensures WordFileFilter(file).Accepted? <==> file.mimetype in WordTypes || ToLower(ext) in WordExtensions
  {
    ExtNameOfStemAndExtension(stem, ext);
  }

  /** Same for the PowerPoint filter. */
  lemma PowerpointFilterJudgesLastExtension(file: UploadedFile, stem: string, ext: string)
    requires file.originalName == stem + ext
    requires |stem| > 0 && '/' !in stem
    requires |ext| > 1 && ext[0] == '.' && '.' !in ext[1..] && '/' !in ext
    ensures PowerpointFileFilter(file).Accepted? <==> file.mimetype in PowerpointTypes || ToLower(ext) in PowerpointExtensions
  {
    ExtNameOfStemAndExtension(stem, ext);
  }

  /** A slide show saved as `.ppsx` has no allowed extension: it passes only
      through its MIME type, `application/octet-stream` included. */
  lemma SlideShowOnlyByType(file: UploadedFile, stem: string, ext: string)
    requires file.originalName == stem + ext
    requires |stem| > 0 && '/' !in stem
    requires |ext| == 5 && ext[0] == '.' && '.' !in ext[1..] && '/' !in ext && ToLower(ext) == ".ppsx"
    ensures PowerpointFileFilter(file).Accepted? <==> file.mimetype in PowerpointTypes
    ensures file.mimetype == "application/octet-stream" ==> PowerpointFileFilter(file).Accepted?
  {
    PowerpointFilterJudgesLastExtension(file, stem, ext);
    assert |ToLower(ext)| == 5;
  }
}
