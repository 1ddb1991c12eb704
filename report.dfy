/**
 * The row building of `list_and_manage_links`: the extracted lists become the
 * rows of the links report, one block per list, each row with five cells.
 */
module Report {
  import opened Results
  import opened Strings
  import opened Sequences
  import opened Extraction

  /** Status labels, page placeholder and modified flag, as the report writes them. */
  const EXTERNAL_STATUS := "Külső hivatkozás"
  const INTERNAL_STATUS := "Belső hivatkozás"
  const BOOKMARK_STATUS := "Könyvjelző"
  const NO_PAGE := "N/A"
  const NOT_MODIFIED := "NEM"

  /** A report row: name, destination, status, page number and the "was it modified?" flag. */
  datatype Row = Row(name: string, target: string, status: string, page: string, modified: string)

  /** The status of an external relationship's row: external exactly when the target starts with "http". */
  function LinkStatus(target: string): (status: string)
    ensures status == EXTERNAL_STATUS <==> |target| >= 4 && target[..4] == "http"
    ensures status != EXTERNAL_STATUS ==> status == INTERNAL_STATUS
  {
    StartsWithIsPrefix(target, "http");
    if StartsWith(target, "http") then EXTERNAL_STATUS else INTERNAL_STATUS
  }

  /** The three status labels are different strings. */
  lemma StatusesDistinct()
    ensures EXTERNAL_STATUS != INTERNAL_STATUS && EXTERNAL_STATUS != BOOKMARK_STATUS && INTERNAL_STATUS != BOOKMARK_STATUS
  {
    assert EXTERNAL_STATUS[0] != INTERNAL_STATUS[0];
    assert EXTERNAL_STATUS[1] != BOOKMARK_STATUS[1];
    assert INTERNAL_STATUS[0] != BOOKMARK_STATUS[0];
  }

  /** The row of an external relationship: its Id, its Target and the status from the target. */
  function ExternalRow(link: ExternalLink): Row
  {
    Row(link.id, link.target, LinkStatus(link.target), NO_PAGE, NOT_MODIFIED)
  }

  /** The row of an internal anchor: the anchor, "#" + anchor, internal. */
  function AnchorRow(anchor: string): Row
  {
    Row(anchor, "#" + anchor, INTERNAL_STATUS, NO_PAGE, NOT_MODIFIED)
  }

  /** The row of a bookmark: the name, "#" + name, bookmark. */
  function BookmarkRow(name: string): Row
  {
    Row(name, "#" + name, BOOKMARK_STATUS, NO_PAGE, NOT_MODIFIED)
  }

  /**
   * `rows` is the report for the three lists: the external links' rows, then
   * the internal anchors' rows, then the bookmarks' rows, each block in the
   * order of its list.
   */
  ghost predicate IsReport(hyperlinks: seq<ExternalLink>, internalLinks: seq<string>, bookmarks: seq<string>, rows: seq<Row>)
  {
    var h, n := |hyperlinks|, |hyperlinks| + |internalLinks|;
    && |rows| == n + |bookmarks|
    && (forall j :: 0 <= j < h ==> rows[j] == ExternalRow(hyperlinks[j]))
    && (forall j :: 0 <= j < |internalLinks| ==> rows[h + j] == AnchorRow(internalLinks[j]))
    && (forall j :: 0 <= j < |bookmarks| ==> rows[n + j] == BookmarkRow(bookmarks[j]))
  }

  /** The three loops that fill `links_array`. */
  method BuildRows(hyperlinks: seq<ExternalLink>, internalLinks: seq<string>, bookmarks: seq<string>)
    returns (rows: seq<Row>)
    ensures IsReport(hyperlinks, internalLinks, bookmarks, rows)
  {
    rows := [];
    for i := 0 to |hyperlinks|
      invariant |rows| == i
      invariant forall j :: 0 <= j < i ==> rows[j] == ExternalRow(hyperlinks[j])
    {
      var link := hyperlinks[i];
      var status := if StartsWith(link.target, "http") then EXTERNAL_STATUS else INTERNAL_STATUS;
      rows := rows + [Row(link.id, link.target, status, NO_PAGE, NOT_MODIFIED)];
    }
    var h := |hyperlinks|;
    for i := 0 to |internalLinks|
      invariant |rows| == h + i
      invariant forall j :: 0 <= j < h ==> rows[j] == ExternalRow(hyperlinks[j])
      invariant forall j :: 0 <= j < i ==> rows[h + j] == AnchorRow(internalLinks[j])
    {
      var anchor := internalLinks[i];
      rows := rows + [Row(anchor, "#" + anchor, INTERNAL_STATUS, NO_PAGE, NOT_MODIFIED)];
    }
    var n := |hyperlinks| + |internalLinks|;
    for i := 0 to |bookmarks|
      invariant |rows| == n + i
      invariant forall j :: 0 <= j < h ==> rows[j] == ExternalRow(hyperlinks[j])
      invariant forall j :: 0 <= j < |internalLinks| ==> rows[h + j] == AnchorRow(internalLinks[j])
      invariant forall j :: 0 <= j < i ==> rows[n + j] == BookmarkRow(bookmarks[j])
    {
      var name := bookmarks[i];
      rows := rows + [Row(name, "#" + name, BOOKMARK_STATUS, NO_PAGE, NOT_MODIFIED)];
    }
  }

  /** Every row of a report has five cells with page "N/A" and flag "NEM". */
  lemma ReportPlaceholders(hyperlinks: seq<ExternalLink>, internalLinks: seq<string>, bookmarks: seq<string>, rows: seq<Row>)
    requires IsReport(hyperlinks, internalLinks, bookmarks, rows)
    ensures forall j :: 0 <= j < |rows| ==> rows[j].page == NO_PAGE && rows[j].modified == NOT_MODIFIED
  {
    var h, n := |hyperlinks|, |hyperlinks| + |internalLinks|;
    forall j | 0 <= j < |rows| ensures rows[j].page == NO_PAGE && rows[j].modified == NOT_MODIFIED {
      if j < h {
        assert rows[j] == ExternalRow(hyperlinks[j]);
      } else if j < n {
        assert rows[j] == AnchorRow(internalLinks[j - h]);
      } else {
        assert rows[j] == BookmarkRow(bookmarks[j - n]);
      }
    }
  }

  /** The report is fully determined by the three lists. */
  lemma IsReportUnique(hyperlinks: seq<ExternalLink>, internalLinks: seq<string>, bookmarks: seq<string>, rows1: seq<Row>, rows2: seq<Row>)
    requires IsReport(hyperlinks, internalLinks, bookmarks, rows1)
    requires IsReport(hyperlinks, internalLinks, bookmarks, rows2)
    ensures rows1 == rows2
  {
    var h, n := |hyperlinks|, |hyperlinks| + |internalLinks|;
    forall j | 0 <= j < |rows1| ensures rows1[j] == rows2[j] {
      if j < h {
        assert rows1[j] == ExternalRow(hyperlinks[j]) == rows2[j];
      } else if j < n {
        assert rows1[j] == AnchorRow(internalLinks[j - h]) == rows2[j];
      } else {
        assert rows1[j] == BookmarkRow(bookmarks[j - n]) == rows2[j];
      }
    }
  }

  /** The name a row contributes when it is a bookmark row. */
  function BookmarkRowName(row: Row): Option<string>
  {
    if row.status == BOOKMARK_STATUS then Some(row.name) else None
  }

  /** The bookmark list is recovered from a report as the names of its bookmark rows, in order. */
  lemma {:induction false} BookmarksFromReport(hyperlinks: seq<ExternalLink>, internalLinks: seq<string>, bookmarks: seq<string>, rows: seq<Row>)
    requires IsReport(hyperlinks, internalLinks, bookmarks, rows)
    ensures FilterMap(rows, BookmarkRowName) == bookmarks
  {
    var n := |hyperlinks| + |internalLinks|;
    var links, marks := rows[..n], rows[n..];
    assert rows == links + marks;
    FilterMapAppend(links, marks, BookmarkRowName);
    StatusesDistinct();
    forall k | 0 <= k < |links| ensures BookmarkRowName(links[k]).None? {
      if k < |hyperlinks| {
        assert links[k] == ExternalRow(hyperlinks[k]);
      } else {
        assert links[k] == AnchorRow(internalLinks[k - |hyperlinks|]);
      }
    }
    FilterMapNone(links, BookmarkRowName);
    forall k | 0 <= k < |marks| ensures BookmarkRowName(marks[k]) == Some(bookmarks[k]) {
      assert marks[k] == rows[n + k];
    }
    FilterMapAll(marks, BookmarkRowName, bookmarks);
  }

  /**
   * A row is labelled external exactly when it is in the external-link block
   * and its link's target begins with "http"; no anchor or bookmark row is.
   */
  lemma {:induction false} ExternalStatusExactly(hyperlinks: seq<ExternalLink>, internalLinks: seq<string>, bookmarks: seq<string>, rows: seq<Row>)
    requires IsReport(hyperlinks, internalLinks, bookmarks, rows)
    ensures forall j :: 0 <= j < |rows| ==> (rows[j].status == EXTERNAL_STATUS <==> j < |hyperlinks| && StartsWith(hyperlinks[j].target, "http"))
  {
    StatusesDistinct();
    forall j | 0 <= j < |rows| ensures rows[j].status == EXTERNAL_STATUS <==> j < |hyperlinks| && StartsWith(hyperlinks[j].target, "http") {
      if j < |hyperlinks| {
        assert rows[j] == ExternalRow(hyperlinks[j]);
        StartsWithIsPrefix(hyperlinks[j].target, "http");
      } else if j < |hyperlinks| + |internalLinks| {
        assert rows[j] == AnchorRow(internalLinks[j - |hyperlinks|]);
      } else {
        assert rows[j] == BookmarkRow(bookmarks[j - |hyperlinks| - |internalLinks|]);
      }
    }
  }

  /** The prefix test is case-sensitive and accepts "https". */
  lemma LinkStatusExamples()
    ensures LinkStatus("https://example.com") == EXTERNAL_STATUS
    ensures LinkStatus("HTTP://EXAMPLE.COM") == INTERNAL_STATUS
    ensures LinkStatus("htt") == INTERNAL_STATUS
    ensures LinkStatus("file:///c:/doc.docx") == INTERNAL_STATUS
  {
  }

  /**
   * `list_and_manage_links` between the dialogs: extract the lists, then
   * build the rows; a `KeyError` in extraction ends it with no report.
   */
  method ListLinks(relsPart: Option<seq<Relationship>>, documentPart: Option<seq<Element>>)
    returns (r: Result<seq<Row>, MissingAttribute>)
    ensures var rels, elems := relsPart.GetOr([]), documentPart.GetOr([]);
      && (r.Ok? <==> ExternalsComplete(rels))
      && (r.Ok? ==> IsReport(FilterMap(rels, ExternalOf), FilterMap(elems, AnchorOf), FilterMap(elems, BookmarkOf), r.value))
      && (r.Err? ==> exists k :: IsFirstFault(rels, k) && r.error == MissingKey(rels[k]))
  {
    var extracted := ExtractHyperlinksAndBookmarks(relsPart, documentPart);
    if extracted.Err? {
      return Err(extracted.error);
    }
    var rows := BuildRows(extracted.value.hyperlinks, extracted.value.internalLinks, extracted.value.bookmarks);
    return Ok(rows);
  }
}
