/** The torrent records of the search API, as received and after `search`
    has turned their numeric fields into integers. */
module Records {
  import opened Wrappers
  import opened Numbers

  /** A JSON value in a numeric slot: the API may send a number or a string. */
  datatype JsonValue = JInt(i: int) | JText(text: string)

  /** A record as the search API sends it. `others` holds the remaining keys
      (`leechers`, `num_files`, `category`, `imdb`, ...), which the pipeline
      never reads but which take part in record equality. */
  datatype RawRecord = RawRecord(
    id: string, name: string, username: string, status: string,
    size: JsonValue, added: JsonValue, seeders: JsonValue,
    infoHash: string, others: map<string, string>)

  /** A record after `search` has coerced it; `code` is the HTTP status
      `check_urls` writes, absent until then. */
  datatype Record = Record(
    id: string, name: string, username: string, status: string,
    size: int, added: int, seeders: int,
    infoHash: string, others: map<string, string>, code: Option<int>)

  /** `int(v)` for a value of a numeric slot; `None` is the ValueError. */
  function ToInt(v: JsonValue): (r: Option<int>)
    ensures v.JInt? ==> r == Some(v.i)
  {
    match v
    case JInt(i) => Some(i)
    case JText(t) => ParseInt(t)
  }

  /** The three `int(...)` assignments of `search` on one record: it fails
      when any of them fails, and otherwise changes nothing else. */
  function Coerce(raw: RawRecord): (r: Option<Record>)
    ensures r.Some? <==> ToInt(raw.added).Some? && ToInt(raw.seeders).Some? && ToInt(raw.size).Some?
    ensures r.Some? ==>
              && r.value.id == raw.id && r.value.name == raw.name
              && r.value.username == raw.username && r.value.status == raw.status
              && r.value.infoHash == raw.infoHash && r.value.others == raw.others
              && Some(r.value.added) == ToInt(raw.added)
              && Some(r.value.seeders) == ToInt(raw.seeders)
              && Some(r.value.size) == ToInt(raw.size)
              && r.value.code.None?
  {
    match (ToInt(raw.added), ToInt(raw.seeders), ToInt(raw.size))
    case (Some(added), Some(seeders), Some(size)) =>
      Some(Record(raw.id, raw.name, raw.username, raw.status, size, added, seeders,
                  raw.infoHash, raw.others, None))
    case _ => None
  }

  /** The record as the API would send it, numbers written as decimal text. */
  function AsReceived(rec: Record): RawRecord
  {
    RawRecord(rec.id, rec.name, rec.username, rec.status,
              JText(IntToString(rec.size)), JText(IntToString(rec.added)),
              JText(IntToString(rec.seeders)), rec.infoHash, rec.others)
  }

  /** Coercion recovers a record from its received form, as long as its
      numbers are within `int()`'s digit limit. */
  lemma CoerceAsReceived(rec: Record)
    requires WithinDigitLimit(rec.size) && WithinDigitLimit(rec.added) && WithinDigitLimit(rec.seeders)
    ensures Coerce(AsReceived(rec)) == Some(rec.(code := None))
  {
    ParseIntRoundTrip(rec.size);
    ParseIntRoundTrip(rec.added);
    ParseIntRoundTrip(rec.seeders);
  }
}
