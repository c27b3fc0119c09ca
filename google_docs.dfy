/**
 * The URL logic of `GoogleDocsProcessor`: recognising a Google Docs, Sheets or Slides URL,
 * reading the document id out of it, and building the export URL of a document from two
 * fixed tables.
 */
module GoogleDocs {
  import opened Wrappers
  import opened Text

  /** `supported_export_formats`: the export formats offered for each document type. */
  const SupportedExportFormats: map<string, seq<string>> := map[
    "docs" := ["pdf", "docx", "txt"],
    "sheets" := ["pdf", "xlsx", "csv"],
    "slides" := ["pdf", "pptx"]
  ]

  /** `base_urls` of `get_export_url`. */
  const BaseUrls: map<string, string> := map[
    "docs" := "https://docs.google.com/document/d/",
    "sheets" := "https://docs.google.com/spreadsheets/d/",
    "slides" := "https://docs.google.com/presentation/d/"
  ]

  /** `export_endpoints` of `get_export_url`. */
  const ExportEndpoints: map<string, map<string, string>> := map[
    "docs" := map[
      "pdf" := "/export?format=pdf",
      "docx" := "/export?format=docx",
      "txt" := "/export?format=txt"
    ],
    "sheets" := map[
      "pdf" := "/export?format=pdf",
      "xlsx" := "/export?format=xlsx",
      "csv" := "/export?format=csv"
    ],
    "slides" := map[
      "pdf" := "/export?format=pdf",
      "pptx" := "/export?format=pptx"
    ]
  ]

  /**
   * `validate_google_doc_url`: the document type an `https://` URL points to, if any. The host
   * paths are tried in the order documents, spreadsheets, presentations, anywhere in the URL.
   */
  function ValidateGoogleDocUrl(url: string): (r: Option<string>)
    ensures r.Some? ==> StartsWith(url, "https://") && r.value in BaseUrls
    ensures StartsWith(url, "https://") && Contains(url, "docs.google.com/document/") ==> r == Some("docs")
    ensures (StartsWith(url, "https://") && !Contains(url, "docs.google.com/document/")
             && Contains(url, "docs.google.com/spreadsheets/")) ==> r == Some("sheets")
    ensures (StartsWith(url, "https://") && !Contains(url, "docs.google.com/document/")
             && !Contains(url, "docs.google.com/spreadsheets/")
             && Contains(url, "docs.google.com/presentation/")) ==> r == Some("slides")
    ensures r.None? ==> (!StartsWith(url, "https://")
                         || (!Contains(url, "docs.google.com/document/")
                             && !Contains(url, "docs.google.com/spreadsheets/")
                             && !Contains(url, "docs.google.com/presentation/")))
  {
    if !StartsWith(url, "https://") then None
    else if Contains(url, "docs.google.com/document/") then Some("docs")
    else if Contains(url, "docs.google.com/spreadsheets/") then Some("sheets")
    else if Contains(url, "docs.google.com/presentation/") then Some("slides")
    else None
  }

  /** `url.split(marker)[1].split('/')[0]`, guarded by `len(parts) > 1`. */
  function IdAfter(url: string, marker: string): Option<string>
    requires marker != []
  {
    var parts := SplitOn(url, marker);
    if |parts| > 1 then Some(SplitOn(parts[1], "/")[0]) else None
  }

  /** `extract_doc_id_from_url`. */
  function ExtractDocIdFromUrl(url: string): (r: Option<string>)
    ensures r.Some? ==> '/' !in r.value
  {
    var r :=
      if Contains(url, "/document/d/") then IdAfter(url, "/document/d/")
      else if Contains(url, "/spreadsheets/d/") then IdAfter(url, "/spreadsheets/d/")
      else if Contains(url, "/presentation/d/") then IdAfter(url, "/presentation/d/")
      else None;
    if r.Some? then
      ContainsChar(r.value, '/');
      r
    else r
  }

  /**
   * `get_export_url`: the export URL, or the `ValueError` message. It succeeds exactly for the
   * pairs `supported_export_formats` lists, and the URL is then the type's base URL, the id,
   * and `/export?format=` with the format. The format defaults to `pdf`.
   */
  function GetExportUrl(docId: string, docType: string, formatType: string := "pdf"): (r: Result<string, string>)
    ensures r.Success? <==> docType in SupportedExportFormats && formatType in SupportedExportFormats[docType]
    ensures r.Success? ==> r.value == BaseUrls[docType] + docId + "/export?format=" + formatType
    ensures r.Failure? ==> r.error == "Unsupported doc_type: " + docType + " or format: " + formatType
  {
    if docType !in BaseUrls || formatType !in ExportEndpoints[docType] then
      Failure("Unsupported doc_type: " + docType + " or format: " + formatType)
    else
      Success(BaseUrls[docType] + docId + ExportEndpoints[docType][formatType])
  }

  /* ---------------------------------------------------------------------------------------- */
  /* Properties                                                                                */

  /** A one-character string occurs in `s` exactly when that character does. */
  lemma ContainsChar(s: string, c: char)
    ensures Contains(s, [c]) <==> c in s
  {
    forall i | 0 <= i < |s|
      ensures OccursAt(s, [c], i) <==> s[i] == c
    {
      assert s[i..i + 1] == [s[i]];
    }
  }

  /* ---------------------------------------------------------------------------------------- */
  /* Reading the id back                                                                       */

  /** The text of `s` before its first `/`: the whole of `s` when it has none. */
  function FirstSegment(s: string): (r: string)
    ensures |r| <= |s| && '/' !in r && r == s[..|r|]
    ensures |r| == |s| || s[|r|] == '/'
  {
    if s == [] || s[0] == '/' then []
    else
      var t := FirstSegment(s[1..]);
      assert s[..|t| + 1] == [s[0]] + s[1..][..|t|];
      [s[0]] + t
  }

  /** A slash-free prefix followed by a `/` or by nothing is the first segment. */
  lemma {:induction false} FirstSegmentUnique(s: string, r: string)
    requires '/' !in r && |r| <= |s| && r == s[..|r|]
    requires |r| == |s| || s[|r|] == '/'
    ensures FirstSegment(s) == r
  {
    if r != [] {
      assert s[0] == r[0];
      assert r[1..] == s[1..][..|r| - 1];
      FirstSegmentUnique(s[1..], r[1..]);
    }
  }

  /**
   * `IdAfter(url, marker)` for a marker that starts with `/` and first occurs at `i`: the
   * text after that occurrence, up to the next `/`.
   */
  lemma IdAfterFirstMarker(url: string, marker: string, i: nat)
    requires marker != [] && marker[0] == '/' && IndexOf(url, marker) == Some(i)
    ensures IdAfter(url, marker) == Some(FirstSegment(url[i + |marker|..]))
  {
    var rest := url[i + |marker|..];
    var p1 := SplitOn(rest, marker)[0];
    var r := SplitOn(p1, "/")[0];
    assert IdAfter(url, marker) == Some(r) by {
      SplitSecondPart(url, marker, i);
    }
    FirstPartEndsAtSlash(rest, marker);
    FirstPartEndsAtSlash(p1, "/");
    FirstPartSlashFree(p1);
    SegmentOfSegment(rest, p1, r);
    FirstSegmentUnique(rest, r);
  }

  /** The first part of a split on `/` holds no `/`. */
  lemma FirstPartSlashFree(s: string)
    ensures '/' !in SplitOn(s, "/")[0]
  {
    ContainsChar(SplitOn(s, "/")[0], '/');
  }

  /** A prefix of a prefix, each ending at a `/` or at the end, ends at a `/` or at the end. */
  lemma SegmentOfSegment(s: string, p: string, r: string)
    requires |p| <= |s| && p == s[..|p|] && (|p| == |s| || s[|p|] == '/')
    requires |r| <= |p| && r == p[..|r|] && (|r| == |p| || p[|r|] == '/')
    ensures r == s[..|r|] && (|r| == |s| || s[|r|] == '/')
  {
  }

  /** The first part of a split on a separator that starts with `/` ends at a `/` or at the end. */
  lemma FirstPartEndsAtSlash(s: string, sep: string)
    requires sep != [] && sep[0] == '/'
    ensures var p := SplitOn(s, sep)[0];
      |p| <= |s| && p == s[..|p|] && (|p| == |s| || s[|p|] == '/')
  {
    var p := SplitOn(s, sep)[0];
    SplitFirstPart(s, sep);
    if |p| < |s| {
      assert s[|p|..|p| + |sep|][0] == sep[0];
    }
  }

  /**
   * `extract_doc_id_from_url`: the text after the first `/document/d/` (failing that, the first
   * `/spreadsheets/d/`, failing that, the first `/presentation/d/`) up to the next `/`, and
   * nothing when none of the three occurs.
   */
  lemma ExtractDocIdSpec(url: string)
    ensures var r := ExtractDocIdFromUrl(url);
      && (Contains(url, "/document/d/") ==>
            r == Some(FirstSegment(url[IndexOf(url, "/document/d/").value + 12..])))
      && (!Contains(url, "/document/d/") && Contains(url, "/spreadsheets/d/") ==>
            r == Some(FirstSegment(url[IndexOf(url, "/spreadsheets/d/").value + 16..])))
      && (!Contains(url, "/document/d/") && !Contains(url, "/spreadsheets/d/") && Contains(url, "/presentation/d/") ==>
            r == Some(FirstSegment(url[IndexOf(url, "/presentation/d/").value + 16..])))
      && (!Contains(url, "/document/d/") && !Contains(url, "/spreadsheets/d/") && !Contains(url, "/presentation/d/") ==>
            r == None)
  {
    if Contains(url, "/document/d/") {
      IdAfterFirstMarker(url, "/document/d/", IndexOf(url, "/document/d/").value);
    } else if Contains(url, "/spreadsheets/d/") {
      IdAfterFirstMarker(url, "/spreadsheets/d/", IndexOf(url, "/spreadsheets/d/").value);
    } else if Contains(url, "/presentation/d/") {
      IdAfterFirstMarker(url, "/presentation/d/", IndexOf(url, "/presentation/d/").value);
    }
  }

  /* ---------------------------------------------------------------------------------------- */
  /* Round trip                                                                                */

  /** The `/` characters of `s` are exactly at the positions in `at`. */
  predicate SlashesExactly(s: string, at: set<int>) {
    forall k :: 0 <= k < |s| ==> (s[k] == '/' <==> k in at)
  }

  /** The positions of the `/` characters in a base URL. */
  function BaseSlashes(docType: string): set<int> {
    if docType == "docs" then {6, 7, 23, 32, 34} else {6, 7, 23, 36, 38}
  }

  /** An occurrence of `m` at `p` puts `m[k]` at `p + k`. */
  lemma CharOf(s: string, m: string, p: int, k: nat)
    requires k < |m|
    ensures OccursAt(s, m, p) ==> s[p + k] == m[k]
  {
    if OccursAt(s, m, p) {
      assert s[p..p + |m|][k] == s[p + k];
    }
  }

  /** The `/` characters of each base URL. */
  lemma BaseUrlSlashes(docType: string)
    requires docType in BaseUrls
    ensures SlashesExactly(BaseUrls[docType], BaseSlashes(docType))
    ensures forall x :: x in BaseSlashes(docType) ==> 0 <= x < |BaseUrls[docType]|
  {
    if docType == "docs" {
      DocsBaseSlashes();
    } else if docType == "sheets" {
      SheetsBaseSlashes();
    } else {
      SlidesBaseSlashes();
    }
  }

  lemma DocsBaseSlashes()
    ensures SlashesExactly("https://docs.google.com/document/d/", {6, 7, 23, 32, 34})
  {
  }

  lemma SheetsBaseSlashes()
    ensures SlashesExactly("https://docs.google.com/spreadsheets/d/", {6, 7, 23, 36, 38})
  {
  }

  lemma SlidesBaseSlashes()
    ensures SlashesExactly("https://docs.google.com/presentation/d/", {6, 7, 23, 36, 38})
  {
  }

  /** Each base URL is an `https://` URL. */
  lemma BaseUrlScheme(docType: string)
    requires docType in BaseUrls
    ensures StartsWith(BaseUrls[docType], "https://")
  {
    var b := BaseUrls[docType];
    assert b == "https://" + b[8..];
  }

  /** Gluing a text without `/` and a text whose only `/` is in front onto a URL adds one `/`. */
  lemma ConcatSlashes(b: string, docId: string, e: string, at: set<int>)
    requires SlashesExactly(b, at) && forall x :: x in at ==> 0 <= x < |b|
    requires '/' !in docId && SlashesExactly(e, {0})
    requires StartsWith(b, "https://")
    ensures var url := b + docId + e;
      && url[..|b|] == b && url[|b|..] == docId + e
      && StartsWith(url, "https://")
      && SlashesExactly(url, at + {|b| + |docId|})
  {
    var url := b + docId + e;
    assert url[..|b|] == b && url[|b|..] == docId + e;
    assert url[..8] == b[..8];
    forall k | 0 <= k < |url|
      ensures url[k] == '/' <==> k in at + {|b| + |docId|}
    {
      if k < |b| {
        assert url[k] == b[k];
      } else if k < |b| + |docId| {
        assert url[k] == docId[k - |b|];
      } else {
        assert url[k] == e[k - |b| - |docId|];
      }
    }
  }

  /** Each endpoint has a single `/`, in front. */
  lemma EndpointSlashes(docType: string, formatType: string)
    requires docType in ExportEndpoints && formatType in ExportEndpoints[docType]
    ensures |ExportEndpoints[docType][formatType]| > 0
    ensures SlashesExactly(ExportEndpoints[docType][formatType], {0})
  {
    var e := ExportEndpoints[docType][formatType];
    assert e == "/export?format=" + formatType;
    assert '/' !in formatType by {
      if docType == "docs" {
      } else if docType == "sheets" {
      } else {
      }
    }
  }

  /**
   * What the recognisers look at in a document URL made of a base URL, an id without `/` and
   * a suffix whose only `/` is its first character: its scheme, the host and path that precede
   * the id, and where its `/` characters are.
   */
  lemma DocUrlFacts(docId: string, docType: string, suffix: string)
    requires docType in BaseUrls && '/' !in docId && suffix != [] && SlashesExactly(suffix, {0})
    ensures var b := BaseUrls[docType];
      var url := b + docId + suffix;
      && url[..|b|] == b && url[|b|..] == docId + suffix
      && StartsWith(url, "https://")
      && SlashesExactly(url, BaseSlashes(docType) + {|b| + |docId|})
  {
    BaseUrlSlashes(docType);
    BaseUrlScheme(docType);
    ConcatSlashes(BaseUrls[docType], docId, suffix, BaseSlashes(docType));
  }

  /** The same facts for an export URL. */
  lemma ExportUrlFacts(docId: string, docType: string, formatType: string)
    requires '/' !in docId && GetExportUrl(docId, docType, formatType).Success?
    ensures var url := GetExportUrl(docId, docType, formatType).value;
      var b := BaseUrls[docType];
      && url == b + docId + ExportEndpoints[docType][formatType]
      && url[..|b|] == b && url[|b|..] == docId + ExportEndpoints[docType][formatType]
      && StartsWith(url, "https://")
      && SlashesExactly(url, BaseSlashes(docType) + {|b| + |docId|})
  {
    var e := ExportEndpoints[docType][formatType];
    assert GetExportUrl(docId, docType, formatType).value == BaseUrls[docType] + docId + e;
    EndpointSlashes(docType, formatType);
    DocUrlFacts(docId, docType, e);
  }

  /** A URL with the `/` characters of a spreadsheet or presentation URL holds no `docs.google.com/document/`. */
  lemma NoDocumentHost(url: string, x: int)
    requires SlashesExactly(url, {6, 7, 23, 36, 38, x}) && x >= 39
    requires |url| > 23 && url[21] == 'o' && url[23] == '/'
    ensures !Contains(url, "docs.google.com/document/")
  {
    var m := "docs.google.com/document/";
    forall p | 0 <= p
      ensures !OccursAt(url, m, p)
    {
      CharOf(url, m, p, 0);
      CharOf(url, m, p, 15);
      CharOf(url, m, p, 24);
    }
  }

  /** ... nor `docs.google.com/spreadsheets/` when a `p` follows its third `/`. */
  lemma NoSpreadsheetHost(url: string, x: int)
    requires SlashesExactly(url, {6, 7, 23, 36, 38, x}) && x >= 39
    requires |url| > 24 && url[21] == 'o' && url[23] == '/' && url[24] == 'p'
    ensures !Contains(url, "docs.google.com/spreadsheets/")
  {
    var m := "docs.google.com/spreadsheets/";
    forall p | 0 <= p
      ensures !OccursAt(url, m, p)
    {
      CharOf(url, m, p, 0);
      CharOf(url, m, p, 15);
      CharOf(url, m, p, 16);
      CharOf(url, m, p, 28);
    }
  }

  /** ... nor `/document/d/`. */
  lemma NoDocumentPath(url: string, x: int)
    requires SlashesExactly(url, {6, 7, 23, 36, 38, x}) && x >= 39
    ensures !Contains(url, "/document/d/")
  {
    var m := "/document/d/";
    forall p | 0 <= p
      ensures !OccursAt(url, m, p)
    {
      CharOf(url, m, p, 0);
      CharOf(url, m, p, 9);
      CharOf(url, m, p, 11);
    }
  }

  /** ... nor `/spreadsheets/d/` when a `p` follows its third `/`. */
  lemma NoSpreadsheetPath(url: string, x: int)
    requires SlashesExactly(url, {6, 7, 23, 36, 38, x}) && x >= 39
    requires |url| > 24 && url[24] == 'p'
    ensures !Contains(url, "/spreadsheets/d/")
  {
    var m := "/spreadsheets/d/";
    forall p | 0 <= p
      ensures !OccursAt(url, m, p)
    {
      CharOf(url, m, p, 0);
      CharOf(url, m, p, 1);
      CharOf(url, m, p, 13);
      CharOf(url, m, p, 15);
    }
  }

  /** In a URL with the `/` characters of a document URL, `/document/d/` at 23 is the first one. */
  lemma DocumentPathFirst(url: string, x: int)
    requires SlashesExactly(url, {6, 7, 23, 32, 34, x}) && x >= 35
    requires OccursAt(url, "/document/d/", 23)
    ensures IndexOf(url, "/document/d/") == Some(23)
  {
    var m := "/document/d/";
    forall p | 0 <= p < 23
      ensures !OccursAt(url, m, p)
    {
      CharOf(url, m, p, 0);
      CharOf(url, m, p, 9);
    }
  }

  /** In a URL with the `/` characters of a spreadsheet or presentation URL, its path marker at 23 is the first one. */
  lemma SheetPathFirst(url: string, m: string, x: int)
    requires m == "/spreadsheets/d/" || m == "/presentation/d/"
    requires SlashesExactly(url, {6, 7, 23, 36, 38, x}) && x >= 39
    requires OccursAt(url, m, 23)
    ensures IndexOf(url, m) == Some(23)
  {
    forall p | 0 <= p < 23
      ensures !OccursAt(url, m, p)
    {
      CharOf(url, m, p, 0);
      CharOf(url, m, p, 13);
    }
  }

  /** A piece of a literal occurs where it was put. */
  lemma OccursInPrefix(url: string, b: string, pre: string, m: string, post: string)
    requires b == pre + m + post && |b| <= |url| && url[..|b|] == b
    ensures OccursAt(url, m, |pre|)
  {
    assert url[|pre|..|pre| + |m|] == b[|pre|..|pre| + |m|];
  }

  /** The base URL of documents: scheme, host with path, and `d/`. */
  lemma DocsUrlHost()
    ensures "https://docs.google.com/document/d/" == "https://" + "docs.google.com/document/" + "d/"
  {
  }

  /** The base URL of documents: host, then its `/document/d/` path. */
  lemma DocsUrlPath()
    ensures "https://docs.google.com/document/d/" == "https://docs.google.com" + "/document/d/" + ""
  {
  }

  /** The base URL of spreadsheets: scheme, host with path, and `d/`. */
  lemma SheetsUrlHost()
    ensures "https://docs.google.com/spreadsheets/d/" == "https://" + "docs.google.com/spreadsheets/" + "d/"
  {
  }

  /** The base URL of spreadsheets: host, then its `/spreadsheets/d/` path. */
  lemma SheetsUrlPath()
    ensures "https://docs.google.com/spreadsheets/d/" == "https://docs.google.com" + "/spreadsheets/d/" + ""
    ensures "https://docs.google.com/spreadsheets/d/"[21] == 'o' && "https://docs.google.com/spreadsheets/d/"[23] == '/'
  {
  }

  /** The base URL of presentations: scheme, host with path, and `d/`. */
  lemma SlidesUrlHost()
    ensures "https://docs.google.com/presentation/d/" == "https://" + "docs.google.com/presentation/" + "d/"
  {
  }

  /** The base URL of presentations: host, then its `/presentation/d/` path. */
  lemma SlidesUrlPath()
    ensures "https://docs.google.com/presentation/d/" == "https://docs.google.com" + "/presentation/d/" + ""
    ensures "https://docs.google.com/presentation/d/"[21] == 'o' && "https://docs.google.com/presentation/d/"[23] == '/' && "https://docs.google.com/presentation/d/"[24] == 'p'
  {
  }

  /**
   * `validate_google_doc_url` recognises a document URL of each type, such as
   * `<base URL><id>/edit`, as that type.
   */
  lemma RecogniseDocUrl(docId: string, docType: string, suffix: string)
    requires docType in BaseUrls && '/' !in docId && suffix != [] && SlashesExactly(suffix, {0})
    ensures ValidateGoogleDocUrl(BaseUrls[docType] + docId + suffix) == Some(docType)
  {
    var b := BaseUrls[docType];
    var url := b + docId + suffix;
    var x := |b| + |docId|;
    DocUrlFacts(docId, docType, suffix);
    if docType == "docs" {
      DocsUrlHost();
      OccursInPrefix(url, b, "https://", "docs.google.com/document/", "d/");
    } else if docType == "sheets" {
      SheetsUrlPath();
      assert url[21] == b[21] && url[23] == b[23];
      NoDocumentHost(url, x);
      SheetsUrlHost();
      OccursInPrefix(url, b, "https://", "docs.google.com/spreadsheets/", "d/");
    } else {
      SlidesUrlPath();
      assert url[21] == b[21] && url[23] == b[23] && url[24] == b[24];
      NoDocumentHost(url, x);
      NoSpreadsheetHost(url, x);
      SlidesUrlHost();
      OccursInPrefix(url, b, "https://", "docs.google.com/presentation/", "d/");
    }
  }

  /** `extract_doc_id_from_url` reads the id back out of such a document URL. */
  lemma ReadBackDocUrl(docId: string, docType: string, suffix: string)
    requires docType in BaseUrls && '/' !in docId && suffix != [] && SlashesExactly(suffix, {0})
    ensures ExtractDocIdFromUrl(BaseUrls[docType] + docId + suffix) == Some(docId)
  {
    var url := BaseUrls[docType] + docId + suffix;
    DocUrlFacts(docId, docType, suffix);
    assert suffix[0] == '/';
    if docType == "docs" {
      ExtractDocsUrl(url, docId, suffix);
    } else if docType == "sheets" {
      ExtractSheetsUrl(url, docId, suffix);
    } else {
      ExtractSlidesUrl(url, docId, suffix);
    }
  }

  /** The `/edit` URL of a document is recognised as its type, and its id is read back. */
  lemma EditUrl(docId: string, docType: string)
    requires docType in BaseUrls && '/' !in docId
    ensures ValidateGoogleDocUrl(BaseUrls[docType] + docId + "/edit") == Some(docType)
    ensures ExtractDocIdFromUrl(BaseUrls[docType] + docId + "/edit") == Some(docId)
  {
    assert SlashesExactly("/edit", {0});
    RecogniseDocUrl(docId, docType, "/edit");
    ReadBackDocUrl(docId, docType, "/edit");
  }

  /** `validate_google_doc_url` recognises the export URL of each type as that type. */
  lemma ValidateExportUrl(docId: string, docType: string, formatType: string)
    requires '/' !in docId && GetExportUrl(docId, docType, formatType).Success?
    ensures ValidateGoogleDocUrl(GetExportUrl(docId, docType, formatType).value) == Some(docType)
  {
    EndpointSlashes(docType, formatType);
    ExportUrlFacts(docId, docType, formatType);
    RecogniseDocUrl(docId, docType, ExportEndpoints[docType][formatType]);
  }

  /** `extract_doc_id_from_url` reads back the id of an export URL, when the id holds no `/`. */
  lemma ExtractExportUrl(docId: string, docType: string, formatType: string)
    requires '/' !in docId && GetExportUrl(docId, docType, formatType).Success?
    ensures ExtractDocIdFromUrl(GetExportUrl(docId, docType, formatType).value) == Some(docId)
  {
    EndpointSlashes(docType, formatType);
    ExportUrlFacts(docId, docType, formatType);
    ReadBackDocUrl(docId, docType, ExportEndpoints[docType][formatType]);
  }

  lemma ExtractDocsUrl(url: string, docId: string, e: string)
    requires var b := BaseUrls["docs"];
      && |b| <= |url| && url[..|b|] == b && url[|b|..] == docId + e
      && SlashesExactly(url, {6, 7, 23, 32, 34} + {|b| + |docId|})
    requires '/' !in docId && e != [] && e[0] == '/'
    ensures ExtractDocIdFromUrl(url) == Some(docId)
  {
    var b := BaseUrls["docs"];
    DocsUrlPath();
    OccursInPrefix(url, b, "https://docs.google.com", "/document/d/", "");
    DocumentPathFirst(url, |b| + |docId|);
    IdAfterMarkerAt23(url, "/document/d/", docId, e);
  }

  lemma ExtractSheetsUrl(url: string, docId: string, e: string)
    requires var b := BaseUrls["sheets"];
      && |b| <= |url| && url[..|b|] == b && url[|b|..] == docId + e
      && SlashesExactly(url, {6, 7, 23, 36, 38} + {|b| + |docId|})
    requires '/' !in docId && e != [] && e[0] == '/'
    ensures ExtractDocIdFromUrl(url) == Some(docId)
  {
    var b := BaseUrls["sheets"];
    var x := |b| + |docId|;
    NoDocumentPath(url, x);
    SheetsUrlPath();
    OccursInPrefix(url, b, "https://docs.google.com", "/spreadsheets/d/", "");
    SheetPathFirst(url, "/spreadsheets/d/", x);
    IdAfterMarkerAt23(url, "/spreadsheets/d/", docId, e);
  }

  lemma ExtractSlidesUrl(url: string, docId: string, e: string)
    requires var b := BaseUrls["slides"];
      && |b| <= |url| && url[..|b|] == b && url[|b|..] == docId + e
      && SlashesExactly(url, {6, 7, 23, 36, 38} + {|b| + |docId|})
    requires '/' !in docId && e != [] && e[0] == '/'
    ensures ExtractDocIdFromUrl(url) == Some(docId)
  {
    var b := BaseUrls["slides"];
    var x := |b| + |docId|;
    NoDocumentPath(url, x);
    SlidesUrlPath();
    assert url[24] == b[24];
    NoSpreadsheetPath(url, x);
    OccursInPrefix(url, b, "https://docs.google.com", "/presentation/d/", "");
    SheetPathFirst(url, "/presentation/d/", x);
    IdAfterMarkerAt23(url, "/presentation/d/", docId, e);
  }

  /** When the path marker first occurs at 23 and is followed by the id and a `/`, the id is read back. */
  lemma IdAfterMarkerAt23(url: string, marker: string, docId: string, e: string)
    requires marker != [] && marker[0] == '/' && IndexOf(url, marker) == Some(23)
    requires 23 + |marker| <= |url| && url[23 + |marker|..] == docId + e
    requires '/' !in docId && e != [] && e[0] == '/'
    ensures IdAfter(url, marker) == Some(docId)
  {
    IdAfterFirstMarker(url, marker, 23);
    var rest := docId + e;
    assert rest[|docId|] == '/' && rest[..|docId|] == docId;
    FirstSegmentUnique(rest, docId);
  }
}
