/** The attachment registries of a document and their lookups by linkup id
    (`getAttachedLinks`, `getAttachedFiles`). */
module Attachments {
  import opened Wrappers

  /** A link or file attachment: the linkup id that content nodes refer to,
      and what the attachment carries (a link target or a file reference; not
      interpreted here). */
  datatype Attachment = Attachment(linkupId: string, payload: string)

  /** What a lookup returns: the whole registry, the one attachment found, or
      the empty array PHP returns when nothing matches. */
  datatype Lookup = Whole(entries: seq<Attachment>) | Found(entry: Attachment) | NotFound

  /** The two registries a document keeps (`_linkAttachments` and
      `_fileAttachments`). */
  datatype Registries = Registries(linkAttachments: seq<Attachment>, fileAttachments: seq<Attachment>)

  /** A `null` or empty id asks for the whole registry. */
  predicate MeansWhole(id: Option<string>) {
    id.None? || id.value == ""
  }

  /** The position of the last attachment with linkup id `id`, if any. */
  function LastMatch(registry: seq<Attachment>, id: string): (r: Option<nat>)
    ensures r.Some? ==> && r.value < |registry|
                        && registry[r.value].linkupId == id
                        && forall j :: r.value < j < |registry| ==> registry[j].linkupId != id
    ensures r.None? ==> forall j :: 0 <= j < |registry| ==> registry[j].linkupId != id
  {
    if |registry| == 0 then None
    else if registry[|registry| - 1].linkupId == id then Some(|registry| - 1)
    else LastMatch(registry[..|registry| - 1], id)
  }

  /** The lookup result for a match position. */
  function FoundAt(registry: seq<Attachment>, at: Option<nat>): Lookup
    requires at.Some? ==> at.value < |registry|
  {
    match at
    case None => NotFound
    case Some(i) => Found(registry[i])
  }

  /** What a lookup by a real id can return: nothing exactly when no
      attachment carries the id, and otherwise an attachment of the registry
      that carries it; never the whole registry. */
  lemma LookupById(registry: seq<Attachment>, id: string)
    ensures var r := FoundAt(registry, LastMatch(registry, id));
            && !r.Whole?
            && (r.NotFound? <==> forall j :: 0 <= j < |registry| ==> registry[j].linkupId != id)
            && (r.Found? ==> r.entry in registry && r.entry.linkupId == id)
  {
  }

  /** The loop both lookups share: every matching attachment overwrites the
      result, so the last match wins. */
  method ScanLast(registry: seq<Attachment>, id: string) returns (ret: Lookup)
    ensures ret == FoundAt(registry, LastMatch(registry, id))
  {
    ret := NotFound;
    for i := 0 to |registry|
      invariant ret == FoundAt(registry, LastMatch(registry[..i], id))
    {
      assert registry[..i + 1][..i] == registry[..i];
      if registry[i].linkupId == id {
        ret := Found(registry[i]);
      }
    }
    assert registry[..|registry|] == registry;
  }

  /** `getAttachedLinks`: the whole link registry for a `null` or empty id,
      otherwise the last link whose linkup id is `linkupId`, or nothing. The
      file registry plays no part. */
  method GetAttachedLinks(doc: Registries, linkupId: Option<string>) returns (r: Lookup)
    ensures MeansWhole(linkupId) ==> r == Whole(doc.linkAttachments)
    ensures !MeansWhole(linkupId) ==>
              r == FoundAt(doc.linkAttachments, LastMatch(doc.linkAttachments, linkupId.value))
  {
    if MeansWhole(linkupId) {
      r := Whole(doc.linkAttachments);
    } else {
      r := ScanLast(doc.linkAttachments, linkupId.value);
    }
  }

  /** `getAttachedFiles`: the same lookup over the file registry; the link
      registry plays no part. */
  method GetAttachedFiles(doc: Registries, imageLinkupId: Option<string>) returns (r: Lookup)
    ensures MeansWhole(imageLinkupId) ==> r == Whole(doc.fileAttachments)
    ensures !MeansWhole(imageLinkupId) ==>
              r == FoundAt(doc.fileAttachments, LastMatch(doc.fileAttachments, imageLinkupId.value))
  {
    if MeansWhole(imageLinkupId) {
      r := Whole(doc.fileAttachments);
    } else {
      r := ScanLast(doc.fileAttachments, imageLinkupId.value);
    }
  }
}
