/** The link part of `_print_results`: every record gets its site URL and
    magnet link; the first `MAX_RESULTS_WITH_LINKS` records also get the lines
    of their description that mention `http`, each under a tag numbered by a
    running counter. The detail API's answers are inputs. */
module Links {
  import opened Wrappers
  import opened Seqs
  import opened Strings
  import opened Records
  import Liveness

  /** `MAX_RESULTS_WITH_LINKS` */
  const MaxResultsWithLinks: nat := 100

  /** What the detail API gave for a record: a JSON object with a `descr`,
      one without it, or a request or decoding that raised. */
  datatype Detail = WithDescr(descr: string) | WithoutDescr | FetchFailed

  /** `info_data.get("descr", "")` */
  function Description(d: Detail): string
    requires !d.FetchFailed?
  {
    if d.WithDescr? then d.descr else ""
  }

  /** `"http" in line` */
  predicate HasHttp(line: string)
  {
    Contains(line, "http")
  }

  /** The lines of a description that are shown as relevant links. */
  function RelevantLinks(descr: string): seq<string>
  {
    Filter(SplitLines(descr), HasHttp)
  }

  function Magnet(infoHash: string): string
  {
    "magnet:?xt=urn:btih:" + infoHash
  }

  /** What is shown for one record: its site URL, its magnet link and, when
      the description was fetched, the relevant links. */
  datatype Entry = Entry(url: string, magnet: string, links: Option<seq<string>>)

  /** The relevant links shown for record `idx`, if any. */
  function LinksFor(idx: nat, d: Detail): (r: Option<seq<string>>)
    ensures r.Some? <==> idx < MaxResultsWithLinks && !d.FetchFailed?
  {
    if idx < MaxResultsWithLinks && !d.FetchFailed? then Some(RelevantLinks(Description(d))) else None
  }

  function EntryFor(endpoint: string, idx: nat, item: Record, d: Detail): Entry
  {
    Entry(Liveness.TorrentUrl(endpoint, item.id), Magnet(item.infoHash), LinksFor(idx, d))
  }

  /** The records shown so far, and the index whose detail request raised,
      which ends `_print_results`. */
  datatype Listing = Listing(entries: seq<Entry>, failedAt: Option<nat>)

  /** The listing after the first `n` records. */
  function Shown(endpoint: string, results: seq<Record>, details: seq<Detail>, n: nat): (r: Listing)
    requires n <= |results| == |details|
    ensures |r.entries| <= n
  {
    if n == 0 then Listing([], None)
    else
      var prev := Shown(endpoint, results, details, n - 1);
      var idx := n - 1;
      if prev.failedAt.Some? then prev
      else
        Listing(prev.entries + [EntryFor(endpoint, idx, results[idx], details[idx])],
                if idx < MaxResultsWithLinks && details[idx].FetchFailed? then Some(idx) else None)
  }

  /** Number of links over the entries: the tags used. */
  function LinkCount(entries: seq<Entry>): nat
  {
    if entries == [] then 0
    else
      var last := entries[|entries| - 1];
      LinkCount(entries[..|entries| - 1]) + LinksShown(last)
  }

  /** Entry `i` shows record `i`; records from index 100 on get no links. */
  lemma {:induction false} ShownEntries(endpoint: string, results: seq<Record>, details: seq<Detail>, n: nat, i: nat)
    requires n <= |results| == |details|
    requires i < |Shown(endpoint, results, details, n).entries|
    ensures Shown(endpoint, results, details, n).entries[i] == EntryFor(endpoint, i, results[i], details[i])
  {
    var prev := Shown(endpoint, results, details, n - 1);
    if prev.failedAt.Some? || i < |prev.entries| {
      ShownEntries(endpoint, results, details, n - 1, i);
    } else {
      ShownLength(endpoint, results, details, n - 1);
      ShownStep(endpoint, results, details, n - 1);
    }
  }

  /** Without a failure every record is listed and no record below the cap
      had its detail request raise; a failure at `k` lists the records up to
      and including `k`, and `k` is the first record, below the cap, whose
      detail request raised. */
  lemma {:induction false} ShownLength(endpoint: string, results: seq<Record>, details: seq<Detail>, n: nat)
    requires n <= |results| == |details|
    ensures var r := Shown(endpoint, results, details, n);
            && (r.failedAt.None? ==>
                  && |r.entries| == n
                  && forall j :: 0 <= j < n && j < MaxResultsWithLinks ==> !details[j].FetchFailed?)
            && (r.failedAt.Some? ==>
                  var k := r.failedAt.value;
                  && k < n && |r.entries| == k + 1
                  && k < MaxResultsWithLinks && details[k].FetchFailed?
                  && forall j :: 0 <= j < k ==> !details[j].FetchFailed?)
  {
    if n > 0 {
      ShownLength(endpoint, results, details, n - 1);
    }
  }

  /** The listing stops at the first record below the cap whose detail
      request raised. */
  lemma {:induction false} ShownFirstFailure(endpoint: string, results: seq<Record>, details: seq<Detail>, n: nat)
    requires n <= |results| == |details|
    ensures var r := Shown(endpoint, results, details, n);
            r.failedAt.None? <==> forall k :: 0 <= k < n && k < MaxResultsWithLinks ==> !details[k].FetchFailed?
  {
    if n > 0 {
      ShownFirstFailure(endpoint, results, details, n - 1);
      ShownLength(endpoint, results, details, n - 1);
    }
  }

  /** The links of a description are exactly its lines that mention `http`,
      in order; each is a single line; a missing description gives none. */
  lemma RelevantLinksProperties(descr: string)
    ensures forall line :: line in RelevantLinks(descr) <==> line in SplitLines(descr) && HasHttp(line)
    ensures forall line :: line in RelevantLinks(descr) ==> '\n' !in line && '\r' !in line
    ensures RelevantLinks(Description(WithoutDescr)) == []
  {
    SplitLinesNoBreaks(descr);
  }

  function LinksShown(e: Entry): nat
  {
    if e.links.Some? then |e.links.value| else 0
  }

  lemma LinkCountAppend(entries: seq<Entry>, e: Entry)
    ensures LinkCount(entries + [e]) == LinkCount(entries) + LinksShown(e)
  {
    assert (entries + [e])[..|entries|] == entries;
  }

  /** The inner loop of `_print_results` over `description.splitlines()`:
      each line that mentions `http` is shown under tag `counter`, which then
      moves on by one. */
  method ExtractLinks(lines: seq<string>, start: nat) returns (links: seq<string>, counter: nat)
    ensures links == Filter(lines, HasHttp)
    ensures counter == start + |links|
  {
    links := [];
    counter := start;
    for j := 0 to |lines|
      invariant links == Filter(lines[..j], HasHttp)
      invariant counter == start + |links|
    {
      FilterPrefixStep(lines, j, HasHttp);
      if HasHttp(lines[j]) {
        links := links + [lines[j]];
        counter := counter + 1;
      }
    }
    assert lines[..|lines|] == lines;
  }

  /** One pass of the loop of `_print_results`: what is shown for record
      `idx`, the tag counter afterwards, and whether its detail request
      raised. */
  method ShowRecord(endpoint: string, idx: nat, item: Record, d: Detail, start: nat)
      returns (entry: Entry, counter: nat, raised: bool)
    ensures entry == EntryFor(endpoint, idx, item, d)
    ensures raised <==> idx < MaxResultsWithLinks && d.FetchFailed?
    ensures counter == start + LinksShown(entry)
  {
    var url := Liveness.TorrentUrl(endpoint, item.id);
    var magnet := Magnet(item.infoHash);
    counter := start;
    raised := false;
    if idx < MaxResultsWithLinks {
      if d.FetchFailed? {
        return Entry(url, magnet, None), counter, true;
      }
      var links;
      links, counter := ExtractLinks(SplitLines(Description(d)), counter);
      entry := Entry(url, magnet, Some(links));
    } else {
      entry := Entry(url, magnet, None);
    }
  }

  /** `_print_results`: the entries it shows, the final value of the tag
      counter, and the index at which a detail request raised. */
  method PrintResults(endpoint: string, results: seq<Record>, details: seq<Detail>)
      returns (entries: seq<Entry>, counter: nat, failedAt: Option<nat>)
    requires |results| == |details|
    ensures Listing(entries, failedAt) == Shown(endpoint, results, details, |results|)
    ensures counter == LinkCount(entries)
  {
    entries := [];
    counter := 0;
    failedAt := None;
    for idx := 0 to |results|
      invariant Shown(endpoint, results, details, idx) == Listing(entries, None)
      invariant counter == LinkCount(entries)
    {
      var entry, raised;
      entry, counter, raised := ShowRecord(endpoint, idx, results[idx], details[idx], counter);
      ShownStep(endpoint, results, details, idx);
      LinkCountAppend(entries, entry);
      entries := entries + [entry];
      if raised {
        failedAt := Some(idx);
        ShownStaysFailed(endpoint, results, details, idx + 1);
        return;
      }
    }
  }

  lemma ShownStep(endpoint: string, results: seq<Record>, details: seq<Detail>, idx: nat)
    requires idx < |results| == |details|
    requires Shown(endpoint, results, details, idx).failedAt.None?
    ensures Shown(endpoint, results, details, idx + 1) ==
              Listing(Shown(endpoint, results, details, idx).entries + [EntryFor(endpoint, idx, results[idx], details[idx])],
                      if idx < MaxResultsWithLinks && details[idx].FetchFailed? then Some(idx) else None)
  {
  }

  /** Once a failure is recorded, the listing no longer changes. */
  lemma {:induction false} ShownStaysFailed(endpoint: string, results: seq<Record>, details: seq<Detail>, n: nat)
    requires 0 < n <= |results| == |details|
    requires Shown(endpoint, results, details, n).failedAt.Some?
    ensures Shown(endpoint, results, details, |results|) == Shown(endpoint, results, details, n)
    decreases |results| - n
  {
    if n < |results| {
      ShownStaysFailed(endpoint, results, details, n + 1);
    }
  }
}
