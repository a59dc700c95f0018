/**
  Response documents. A stored document is a map from field names to values;
  before a handler returns one it is normalised: the store's `_id` field
  becomes an `id` field holding the identifier's text, and every datetime
  value is replaced by its ISO 8601 text.
*/
module Documents {
  import opened Wrappers
  import opened ObjectIds

  datatype Value =
    | Text(s: string)
    | ObjectIdValue(oid: nat)
    | DateTime(instant: nat)
      /** `isoformat()` of the datetime at `instant`; the text itself is not modelled. */
    | IsoText(instant: nat)
    | Bool(b: bool)
    | Null
    | TextList(items: seq<string>)

  type Document = map<string, Value>

  /** The value a normalised document holds in place of `v`. */
  function Serialized(v: Value): (r: Value)
    ensures !r.DateTime?
    ensures v.DateTime? ==> r == IsoText(v.instant)
    ensures !v.DateTime? ==> r == v
  {
    if v.DateTime? then IsoText(v.instant) else v
  }

  /**
    `to_str_id`: an absent or empty document is returned as it is; otherwise a
    copy is made, `_id` is removed and its text stored under `id`, and then
    every field holding a datetime is rewritten to its ISO 8601 text.
  */
  method ToStrId(doc: Option<Document>) returns (r: Option<Document>)
    requires doc.Some? && "_id" in doc.value ==> doc.value["_id"].ObjectIdValue?
    ensures r.Some? <==> doc.Some?
    ensures doc.Some? ==> var d, n := doc.value, r.value;
      && "_id" !in n
      && n.Keys == (if "_id" in d then d.Keys - {"_id"} + {"id"} else d.Keys)
      && ("_id" in d ==> n["id"] == Text(EncodeId(d["_id"].oid)))
      && (forall k :: k in d && k != "_id" && !(k == "id" && "_id" in d) ==> n[k] == Serialized(d[k]))
      && (forall k :: k in n ==> !n[k].DateTime?)
  {
    if doc.None? || doc.value == map[] {
      return doc;
    }
    var d := doc.value;
    if "_id" in d {
      var oid := d["_id"].oid;
      d := (d - {"_id"})["id" := Text(EncodeId(oid))];
    }
    ghost var renamed := d;
    var pending := d.Keys;
    while pending != {}
      invariant pending <= renamed.Keys
      invariant d.Keys == renamed.Keys
      invariant forall k :: k in d ==> d[k] == if k in pending then renamed[k] else Serialized(renamed[k])
      decreases pending
    {
      var k :| k in pending;
      if d[k].DateTime? {
        d := d[k := IsoText(d[k].instant)];
      }
      pending := pending - {k};
    }
    r := Some(d);
  }
}
