/** `check_urls` and the `working_list` filter of `search`: every record gets
    the status of its torrent page, and the records whose page answered 404
    (or could not be fetched at all) are dropped. */
module Liveness {
  import opened Wrappers
  import opened Seqs
  import opened Records

  /** One result of `asyncio.gather(..., return_exceptions=True)`: a result
      with a `status` attribute (a response, or an exception that carries a
      status, such as aiohttp's `ClientResponseError` family), or one
      without (any other exception the request raised). */
  datatype Probe = Responded(status: int) | NoStatus

  const NotFound := 404

  /** `responses[idx].status if hasattr(responses[idx], "status") else 404` */
  function CodeOf(p: Probe): int
  {
    match p
    case Responded(status) => status
    case NoStatus => NotFound
  }

  /** The torrent page `check_urls` requests for a record. */
  function TorrentUrl(endpoint: string, id: string): string
  {
    endpoint + "/torrent/" + id
  }

  /** The list after `check_urls`: record `i` carries the code of probe `i`. */
  function Annotate(items: seq<Record>, probes: seq<Probe>): (r: seq<Record>)
    requires |items| == |probes|
    ensures |r| == |items|
  {
    seq(|items|, i requires 0 <= i < |items| => items[i].(code := Some(CodeOf(probes[i]))))
  }

  predicate Alive(r: Record) { r.code != Some(NotFound) }

  /** `[item for item in unique_list if item["code"] != 404]` */
  function Working(items: seq<Record>): (r: seq<Record>)
    ensures forall x :: x in r <==> x in items && x.code != Some(NotFound)
  {
    Filter(items, Alive)
  }

  /** Annotation goes by index, whatever order the responses arrived in:
      record `i` gets the status of result `i`, or 404 when that result has
      no status, and keeps every other field. */
  lemma AnnotateByIndex(items: seq<Record>, probes: seq<Probe>, i: nat)
    requires |items| == |probes| && i < |items|
    ensures Annotate(items, probes)[i].code == Some(if probes[i].NoStatus? then 404 else probes[i].status)
    ensures Annotate(items, probes)[i].(code := items[i].code) == items[i]
  {
  }

  /** An annotated record is kept exactly when its probe did not give 404;
      a server error such as 500 is kept. */
  lemma WorkingKeeps(items: seq<Record>, probes: seq<Probe>, i: nat)
    requires |items| == |probes| && i < |items|
    ensures Annotate(items, probes)[i] in Working(Annotate(items, probes)) <==> CodeOf(probes[i]) != 404
    ensures probes[i] == Responded(500) ==> Annotate(items, probes)[i] in Working(Annotate(items, probes))
  {
    var a := Annotate(items, probes);
    assert a[i] in a;
  }

  /** `working_list` holds no record whose code is 404, and it is the whole
      of `unique_list` exactly when no record there has code 404. */
  lemma {:induction false} WorkingDropsDead(items: seq<Record>)
    ensures forall r :: r in Working(items) ==> r.code != Some(404)
    ensures Working(items) == items <==> forall r :: r in items ==> r.code != Some(404)
  {
    if forall r :: r in items ==> r.code != Some(404) {
      FilterAll(items, Alive);
    } else {
      var r :| r in items && r.code == Some(404);
      assert r !in Working(items);
    }
  }

  /** `working_list` keeps the order of `unique_list`: filtering a list cut in
      two gives the kept records of the first part followed by those of the
      second. */
  lemma WorkingConcat(a: seq<Record>, b: seq<Record>)
    ensures Working(a + b) == Working(a) + Working(b)
  {
    FilterConcat(a, b, Alive);
  }

  /** `check_urls`: one request per record, then `item["code"] = ...` on each
      record of the list, in place. */
  method CheckUrls(endpoint: string, items: array<Record>, probes: seq<Probe>) returns (urls: seq<string>)
    requires items.Length == |probes|
    modifies items
    ensures |urls| == items.Length
    ensures forall i :: 0 <= i < |urls| ==> urls[i] == TorrentUrl(endpoint, old(items[i]).id)
    ensures items[..] == Annotate(old(items[..]), probes)
  {
    urls := seq(items.Length, i requires 0 <= i < items.Length reads items => TorrentUrl(endpoint, items[i].id));
    for idx := 0 to items.Length
      invariant forall i :: 0 <= i < idx ==> items[i] == old(items[i]).(code := Some(CodeOf(probes[i])))
      invariant forall i :: idx <= i < items.Length ==> items[i] == old(items[i])
    {
      items[idx] := items[idx].(code := Some(CodeOf(probes[idx])));
    }
  }
}
