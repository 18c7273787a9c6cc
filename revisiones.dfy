/**
 * Review ids of the results container (mymail/revisiones.py): a stored review
 * is addressed by the composite id "pk|id", built when reviews are listed and
 * split again when one is fetched or saved.
 */
module Revisiones {
  import opened Wrappers
  import opened Text

  /** `_split_key`: the partition key and item id of a composite review id. */
  function SplitKey(blobName: string): (r: Result<(string, string), string>)
    ensures r.Err? <==> IsBlank(blobName)
    ensures r.Ok? ==> IsTrimmed(r.value.0) && IsTrimmed(r.value.1) && r.value.1 != ""
    ensures r.Ok? && r.value.0 != "" ==> '|' !in r.value.0 && '|' in Strip(blobName)
    ensures r.Ok? && r.value.0 == "" ==> r.value.1 == Strip(blobName)
    ensures '|' !in blobName && !IsBlank(blobName) ==> r == Ok(("", Strip(blobName)))
  {
    var name := Strip(blobName);
    if name == [] then Err("Falta id de revisión")
    else if '|' in name then
      var (pk, id) := SplitFirst(name, '|');
      if Strip(pk) != [] && Strip(id) != [] then
        assert '|' !in Strip(pk) by {
          assert Strip(pk) == TrimStart(pk)[..|Strip(pk)|];
        }
        Ok((Strip(pk), Strip(id)))
      else Ok(("", name))
    else Ok(("", name))
  }

  /**
   * `_split_key` on any name holding a `|`: it splits at the first `|` and
   * strips both sides; when either side is blank the whole stripped name is
   * the id.
   */
  lemma SplitKeyParts(blobName: string, before: string, after: string)
    requires Strip(blobName) == before + "|" + after && '|' !in before
    ensures SplitKey(blobName) ==
      if Strip(before) != "" && Strip(after) != "" then Ok((Strip(before), Strip(after)))
      else Ok(("", Strip(blobName)))
  {
    assert before + "|" + after == before + ['|'] + after;
    SplitFirstJoined(before, '|', after);
  }

  /** The composite id given to a listed review: "pk|id" when both parts are present, else the id alone. */
  function BlobName(pk: string, id: string): (r: string)
    ensures pk != "" && id != "" ==> r == pk + "|" + id
    ensures pk == "" || id == "" ==> r == id
  {
    if pk != "" && id != "" then pk + "|" + id else id
  }

  /** `list_revisions` names each row from its stripped `pk` and `id` fields. */
  function ListedBlobName(rawPk: string, rawId: string): string
  {
    BlobName(Strip(rawPk), Strip(rawId))
  }

  /** `get_revision` names the fetched row the same way, falling back to the requested name. */
  function FetchedBlobName(rawPk: string, rawId: string, requested: string): (r: string)
    ensures Strip(rawPk) != "" && Strip(rawId) != "" ==> r == ListedBlobName(rawPk, rawId)
    ensures (Strip(rawPk) == "" || Strip(rawId) == "") && requested != "" ==> r == requested
  {
    var pk, id := Strip(rawPk), Strip(rawId);
    if pk != "" && id != "" then BlobName(pk, id) else if requested != "" then requested else id
  }

  /** Splitting a composite id built from a trimmed key gives the key back. */
  lemma SplitKeyBlobName(pk: string, id: string)
    requires pk != "" && id != "" && IsTrimmed(pk) && IsTrimmed(id) && '|' !in pk
    ensures SplitKey(BlobName(pk, id)) == Ok((pk, id))
  {
    var s := pk + "|" + id;
    assert IsTrimmed(s) by {
      assert s[0] == pk[0];
      assert s[|s| - 1] == id[|id| - 1];
    }
    StripTrimmed(s);
    assert !IsBlank(s) by { assert !IsSpace(s[0]); }
    SplitFirstJoined(pk, '|', id);
    assert pk + "|" + id == pk + ['|'] + id;
    StripTrimmed(pk);
    StripTrimmed(id);
  }

  /** Every review listed with both key parts can be fetched back by its name. */
  lemma ListedNameRoundTrip(rawPk: string, rawId: string)
    requires Strip(rawPk) != "" && Strip(rawId) != "" && '|' !in Strip(rawPk)
    ensures SplitKey(ListedBlobName(rawPk, rawId)) == Ok((Strip(rawPk), Strip(rawId)))
  {
    SplitKeyBlobName(Strip(rawPk), Strip(rawId));
  }

  /** How `get_revision` looks a review up: a point read when the name carries a partition key, else a query by id. */
  datatype Lookup = PointRead(pk: string, id: string) | QueryById(id: string)

  function RevisionLookup(blobName: string): (r: Result<Lookup, string>)
    ensures r.Err? <==> IsBlank(blobName)
    ensures r.Ok? && r.value.PointRead? ==> r.value.pk != "" && r.value.id != ""
    ensures '|' !in blobName && !IsBlank(blobName) ==> r == Ok(QueryById(Strip(blobName)))
  {
    match SplitKey(blobName)
    case Err(e) => Err(e)
    case Ok((pk, id)) => if pk != "" then Ok(PointRead(pk, id)) else Ok(QueryById(id))
  }

  /**
   * `save_revision`'s guard: the (pk, id) the review is written under, or the
   * error raised before the store is touched when the name carries no partition key.
   */
  function SaveTarget(blobName: string): (r: Result<(string, string), string>)
    ensures r.Ok? ==> r.value.0 != "" && r.value.1 != "" && '|' !in r.value.0
    ensures '|' !in blobName ==> r.Err?
  {
    match SplitKey(blobName)
    case Err(e) => Err(e)
    case Ok((pk, id)) =>
      if pk == "" then Err("Falta partition key en el id (esperado: '<pk>|<id>').") else Ok((pk, id))
  }

  /** A review saved under the name it was listed with is written back to the row it came from. */
  lemma SaveListedRevision(rawPk: string, rawId: string)
    requires Strip(rawPk) != "" && Strip(rawId) != "" && '|' !in Strip(rawPk)
    ensures SaveTarget(ListedBlobName(rawPk, rawId)) == Ok((Strip(rawPk), Strip(rawId)))
  {
    ListedNameRoundTrip(rawPk, rawId);
  }

  /** `list_revisions` clamps the requested page size to at least one row. */
  function ListLimit(limit: int): (r: int)
    ensures r >= 1
    ensures r == limit || (limit < 1 && r == 1)
  {
    Max(1, limit)
  }
}
