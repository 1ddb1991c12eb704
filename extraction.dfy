/**
 * The filtering loops of `extract_hyperlinks_and_bookmarks`. The archive and
 * XML parsing are replaced by their results: the children of the
 * relationships part's root, and the elements of the main document part in
 * the order the XML tree is walked. A part missing from the archive is `None`.
 */
module Extraction {
  import opened Results
  import opened Strings
  import opened Sequences

  /** A relationship element; each of its attributes may be absent. */
  datatype Relationship = Relationship(id: Option<string>, target: Option<string>, targetMode: Option<string>)

  /** An element of the main document part, reduced to what the loop looks at. */
  datatype Element =
    | Hyperlink(anchor: Option<string>)     // `w:hyperlink` and its `w:anchor` attribute
    | BookmarkStart(name: Option<string>)  // `w:bookmarkStart` and its `w:name` attribute
    | OtherElement                          // any other tag

  /** An external hyperlink as extracted: the relationship's Id and Target. */
  datatype ExternalLink = ExternalLink(id: string, target: string)

  /** The attribute whose lookup raises `KeyError` on an external relationship. */
  datatype MissingAttribute = MissingId | MissingTarget

  /** The three lists the extraction returns. */
  datatype Extracted = Extracted(hyperlinks: seq<ExternalLink>, internalLinks: seq<string>, bookmarks: seq<string>)

  /** The marker searched for in a relationship's TargetMode. */
  const EXTERNAL_MODE := "External"

  /** The relationship is taken as a hyperlink: its TargetMode, read as `""` when absent, contains "External". */
  predicate IsExternal(rel: Relationship)
  {
    Contains(rel.targetMode.GetOr(""), EXTERNAL_MODE)
  }

  /** Both attributes the loop reads from a kept relationship are present. */
  predicate HasIdAndTarget(rel: Relationship)
  {
    rel.id.Some? && rel.target.Some?
  }

  /** Every external relationship can be read without a `KeyError`. */
  ghost predicate ExternalsComplete(rels: seq<Relationship>)
  {
    forall k :: 0 <= k < |rels| && IsExternal(rels[k]) ==> HasIdAndTarget(rels[k])
  }

  /** Position `k` holds the first external relationship lacking Id or Target. */
  ghost predicate IsFirstFault(rels: seq<Relationship>, k: int)
  {
    && 0 <= k < |rels|
    && IsExternal(rels[k]) && !HasIdAndTarget(rels[k])
    && ExternalsComplete(rels[..k])
  }

  /** The key whose lookup fails first: Id is read before Target. */
  function MissingKey(rel: Relationship): (m: MissingAttribute)
    requires !HasIdAndTarget(rel)
    ensures m == MissingId <==> rel.id.None?
    ensures m == MissingTarget ==> rel.target.None?
  {
    if rel.id.None? then MissingId else MissingTarget
  }

  /** The pair a relationship contributes, if it is kept. */
  function ExternalOf(rel: Relationship): Option<ExternalLink>
  {
    if IsExternal(rel) && HasIdAndTarget(rel) then Some(ExternalLink(rel.id.value, rel.target.value)) else None
  }

  /** The anchor a document element contributes: that of a hyperlink, when present and non-empty. */
  function AnchorOf(e: Element): Option<string>
  {
    if e.Hyperlink? && e.anchor.Some? && e.anchor.value != "" then Some(e.anchor.value) else None
  }

  /** The name a document element contributes: that of a bookmark start, when present and non-empty. */
  function BookmarkOf(e: Element): Option<string>
  {
    if e.BookmarkStart? && e.name.Some? && e.name.value != "" then Some(e.name.value) else None
  }

  /**
   * The relationships loop: keeps the Id and Target of every external
   * relationship, in order, or stops at the first external one whose Id or
   * Target is missing.
   */
  method ExternalLinks(rels: seq<Relationship>) returns (r: Result<seq<ExternalLink>, MissingAttribute>)
    ensures r.Ok? <==> ExternalsComplete(rels)
    ensures r.Ok? ==> r.value == FilterMap(rels, ExternalOf)
    ensures r.Err? ==> exists k :: IsFirstFault(rels, k) && r.error == MissingKey(rels[k])
  {
    var hyperlinks := [];
    for i := 0 to |rels|
      invariant hyperlinks == FilterMap(rels[..i], ExternalOf)
      invariant ExternalsComplete(rels[..i])
    {
      var rel := rels[i];
      assert rels[..i + 1][..i] == rels[..i];
      if Contains(rel.targetMode.GetOr(""), EXTERNAL_MODE) {
        if rel.id.None? {
          assert IsFirstFault(rels, i);
          return Err(MissingId);
        }
        if rel.target.None? {
          assert IsFirstFault(rels, i);
          return Err(MissingTarget);
        }
        hyperlinks := hyperlinks + [ExternalLink(rel.id.value, rel.target.value)];
      }
    }
    assert rels[..|rels|] == rels;
    return Ok(hyperlinks);
  }

  /** The document loop: one pass collecting hyperlink anchors and bookmark names, each in document order. */
  method ScanDocument(elems: seq<Element>) returns (internalLinks: seq<string>, bookmarks: seq<string>)
    ensures internalLinks == FilterMap(elems, AnchorOf)
    ensures bookmarks == FilterMap(elems, BookmarkOf)
    ensures forall a :: a in internalLinks <==> a != "" && Hyperlink(Some(a)) in elems
    ensures forall b :: b in bookmarks <==> b != "" && BookmarkStart(Some(b)) in elems
  {
    internalLinks, bookmarks := [], [];
    for i := 0 to |elems|
      invariant internalLinks == FilterMap(elems[..i], AnchorOf)
      invariant bookmarks == FilterMap(elems[..i], BookmarkOf)
    {
      assert elems[..i + 1][..i] == elems[..i];
      match elems[i]
      case Hyperlink(anchor) =>
        if anchor.Some? && anchor.value != "" {
          internalLinks := internalLinks + [anchor.value];
        }
      case BookmarkStart(name) =>
        if name.Some? && name.value != "" {
          bookmarks := bookmarks + [name.value];
        }
      case OtherElement =>
    }
    assert elems[..|elems|] == elems;
    forall a ensures a in internalLinks <==> a != "" && Hyperlink(Some(a)) in elems {
      FilterMapMembership(elems, AnchorOf, a);
      if a != "" && Hyperlink(Some(a)) in elems {
        var k :| 0 <= k < |elems| && elems[k] == Hyperlink(Some(a));
        assert AnchorOf(elems[k]) == Some(a);
      }
    }
    forall b ensures b in bookmarks <==> b != "" && BookmarkStart(Some(b)) in elems {
      FilterMapMembership(elems, BookmarkOf, b);
      if b != "" && BookmarkStart(Some(b)) in elems {
        var k :| 0 <= k < |elems| && elems[k] == BookmarkStart(Some(b));
        assert BookmarkOf(elems[k]) == Some(b);
      }
    }
  }

  /**
   * `extract_hyperlinks_and_bookmarks` on the parts' contents. A missing part
   * gives empty lists; a `KeyError` in the relationships loop aborts the whole
   * extraction before the document is scanned.
   */
  method ExtractHyperlinksAndBookmarks(relsPart: Option<seq<Relationship>>, documentPart: Option<seq<Element>>)
    returns (r: Result<Extracted, MissingAttribute>)
    ensures var rels, elems := relsPart.GetOr([]), documentPart.GetOr([]);
      && (r.Ok? <==> ExternalsComplete(rels))
      && (r.Ok? ==> r.value == Extracted(FilterMap(rels, ExternalOf), FilterMap(elems, AnchorOf), FilterMap(elems, BookmarkOf)))
      && (r.Err? ==> exists k :: IsFirstFault(rels, k) && r.error == MissingKey(rels[k]))
  {
    var hyperlinks: seq<ExternalLink> := [];
    if relsPart.Some? {
      var links := ExternalLinks(relsPart.value);
      if links.Err? {
        return Err(links.error);
      }
      hyperlinks := links.value;
    }
    var internalLinks: seq<string> := [];
    var bookmarks: seq<string> := [];
    if documentPart.Some? {
      internalLinks, bookmarks := ScanDocument(documentPart.value);
    }
    return Ok(Extracted(hyperlinks, internalLinks, bookmarks));
  }

  /** No element contributes to both lists, so together they are no longer than the document. */
  lemma {:induction false} ScanDocumentLength(elems: seq<Element>)
    ensures forall e :: AnchorOf(e).None? || BookmarkOf(e).None?
    ensures |FilterMap(elems, AnchorOf)| + |FilterMap(elems, BookmarkOf)| <= |elems|
  {
    if |elems| > 0 {
      ScanDocumentLength(elems[..|elems| - 1]);
    }
  }

  /** The external test is a substring search: it also accepts TargetModes that merely contain "External". */
  lemma ExternalModeExamples()
    ensures IsExternal(Relationship(Some("rId1"), Some("http://x"), Some("External")))
    ensures IsExternal(Relationship(Some("rId1"), Some("http://x"), Some("NotExternal")))
    ensures !IsExternal(Relationship(Some("rId2"), Some("styles.xml"), None))
    ensures !IsExternal(Relationship(Some("rId3"), Some("x"), Some("external")))
  {
    ContainsIsFactor("NotExternal", EXTERNAL_MODE);
    assert OccursAt("NotExternal", EXTERNAL_MODE, 3);
    ContainsIsFactor("external", EXTERNAL_MODE);
    assert !OccursAt("external", EXTERNAL_MODE, 0);
  }
}
