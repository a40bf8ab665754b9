/** The aggregation part of `search`: per search term and per user, keep the
    records uploaded by that user; drop the empty groups and chain the rest;
    coerce the numeric fields; deduplicate, keeping first occurrences. */
module Aggregation {
  import opened Wrappers
  import opened Seqs
  import opened Records

  /** `[item for item in data if item["username"] == user]` */
  function MatchUser(data: seq<RawRecord>, user: string): (r: seq<RawRecord>)
    ensures forall x :: x in r <==> x in data && x.username == user
  {
    Filter(data, (x: RawRecord) => x.username == user)
  }

  /** The groups the inner loop appends for one search term, one per user. */
  function TermGroups(usernames: seq<string>, data: seq<RawRecord>): (r: seq<seq<RawRecord>>)
    ensures |r| == |usernames|
  {
    seq(|usernames|, i requires 0 <= i < |usernames| => MatchUser(data, usernames[i]))
  }

  /** `combined_data_list` after the loop over the given result pages, one
      page per search term. */
  function Combined(usernames: seq<string>, pages: seq<seq<RawRecord>>): (r: seq<seq<RawRecord>>)
    ensures |r| == |usernames| * |pages|
  {
    if pages == [] then []
    else Combined(usernames, pages[..|pages| - 1]) + TermGroups(usernames, pages[|pages| - 1])
  }

  /** `list(chain(*[x for x in combined_data_list if x]))` */
  function DictList(usernames: seq<string>, pages: seq<seq<RawRecord>>): seq<RawRecord>
  {
    Flatten(Filter(Combined(usernames, pages), NonEmpty))
  }

  /** The loop of `int(...)` assignments over `dict_list`: either every record
      is coerced, or `Err(k)` names the first record whose conversion raises. */
  function CoerceAll(s: seq<RawRecord>): Result<seq<Record>, nat>
  {
    MapAll(s, Coerce)
  }

  /** `search` raises at the first record whose conversion fails, and only
      when one fails. */
  lemma CoerceAllFirstFailure(s: seq<RawRecord>)
    ensures CoerceAll(s).Ok? <==> AllSome(s, Coerce)
    ensures CoerceAll(s).Err? ==>
              && Coerce(s[CoerceAll(s).error]).None?
              && forall i :: 0 <= i < CoerceAll(s).error ==> Coerce(s[i]).Some?
  {
    MapAllOk(s, Coerce);
    MapAllErr(s, Coerce);
  }

  /** `unique_list` once the numeric fields are integers, or the index of the
      record at which `search` raises. */
  function Aggregate(usernames: seq<string>, pages: seq<seq<RawRecord>>): Result<seq<Record>, nat>
  {
    match CoerceAll(DictList(usernames, pages))
    case Err(k) => Err(k)
    case Ok(coerced) => Ok(Dedup(coerced))
  }

  /** A record is in `dict_list` exactly when some result page holds it and
      its uploader is one of the users. */
  lemma {:induction false} DictListMembers(usernames: seq<string>, pages: seq<seq<RawRecord>>, x: RawRecord)
    ensures x in DictList(usernames, pages) <==>
            x.username in usernames && InSome(x, pages)
  {
    var all := Combined(usernames, pages);
    FlattenDropsEmpty(all);
    assert DictList(usernames, pages) == Flatten(all);
    CombinedMembers(usernames, pages, x);
  }

  /** Group `t * |usernames| + u` of `combined_data_list` holds the records
      of term `t` uploaded by user `u`. */
  lemma {:induction false} CombinedIndex(usernames: seq<string>, pages: seq<seq<RawRecord>>, t: nat, u: nat)
    requires t < |pages| && u < |usernames|
    ensures t * |usernames| + u < |Combined(usernames, pages)|
    ensures Combined(usernames, pages)[t * |usernames| + u] == MatchUser(pages[t], usernames[u])
  {
    var n := |pages| - 1;
    var m := |usernames|;
    var front := Combined(usernames, pages[..n]);
    assert |front| == m * n;
    if t < n {
      CombinedIndex(usernames, pages[..n], t, u);
      assert (t + 1) * m <= n * m by { MulMono(t + 1, n, m); }
      assert pages[..n][t] == pages[t];
    } else {
      assert t * m + u == |front| + u;
    }
  }

  /** Position `g` of a row-major `k` by `m` layout is row `t`, column `u`. */
  lemma RowColumn(g: nat, m: nat, k: nat) returns (t: nat, u: nat)
    requires g < m * k
    ensures t < k && u < m && g == t * m + u
  {
    t, u := g / m, g % m;
    if t >= k {
      MulMono(k, t, m);
    }
  }

  lemma MulMono(a: nat, b: nat, m: nat)
    requires a <= b
    ensures a * m <= b * m
  {
  }

  lemma CombinedMembers(usernames: seq<string>, pages: seq<seq<RawRecord>>, x: RawRecord)
    ensures InSome(x, Combined(usernames, pages)) <==> x.username in usernames && InSome(x, pages)
  {
    var all := Combined(usernames, pages);
    var m := |usernames|;
    if exists g :: 0 <= g < |all| && x in all[g] {
      var g :| 0 <= g < |all| && x in all[g];
      var t, u := RowColumn(g, m, |pages|);
      CombinedIndex(usernames, pages, t, u);
    }
    if x.username in usernames && exists t :: 0 <= t < |pages| && x in pages[t] {
      var t :| 0 <= t < |pages| && x in pages[t];
      var u :| 0 <= u < m && usernames[u] == x.username;
      CombinedIndex(usernames, pages, t, u);
    }
  }

  /** Every record of `unique_list` was uploaded by one of the users, no two
      are equal, none carries a status code yet, and every coerced record of
      `dict_list` is among them. */
  lemma AggregateProperties(usernames: seq<string>, pages: seq<seq<RawRecord>>)
    ensures Aggregate(usernames, pages).Ok? ==>
              var unique := Aggregate(usernames, pages).value;
              && NoDup(unique)
              && (forall r :: r in unique ==> r.username in usernames && r.code.None?)
              && (forall r :: r in CoerceAll(DictList(usernames, pages)).value <==> r in unique)
  {
    var dict := DictList(usernames, pages);
    if CoerceAll(dict).Ok? {
      MapAllValues(dict, Coerce);
      var coerced := CoerceAll(dict).value;
      forall r | r in coerced ensures r.username in usernames && r.code.None? {
        var i :| 0 <= i < |coerced| && coerced[i] == r;
        DictListMembers(usernames, pages, dict[i]);
      }
    }
  }

  /** `unique_list` lists records in the order of their first occurrence in
      `dict_list` (term by term, user by user within a term). */
  lemma AggregateOrder(usernames: seq<string>, pages: seq<seq<RawRecord>>)
    ensures Aggregate(usernames, pages).Ok? ==>
              var coerced := CoerceAll(DictList(usernames, pages)).value;
              var unique := Aggregate(usernames, pages).value;
              forall i, j :: 0 <= i < j < |unique| ==>
                FirstIndex(coerced, unique[i]) < FirstIndex(coerced, unique[j])
  {
    var dict := DictList(usernames, pages);
    if CoerceAll(dict).Ok? {
      DedupOrder(CoerceAll(dict).value);
    }
  }

  /** The `int(...)` loop of `search`: `Err(k)` is the index at which the
      conversion raises. */
  method CoerceFields(items: seq<RawRecord>) returns (r: Result<seq<Record>, nat>)
    ensures r == CoerceAll(items)
  {
    var done: seq<Record> := [];
    var i := 0;
    while i < |items|
      invariant 0 <= i <= |items|
      invariant CoerceAll(items[..i]) == Ok(done)
    {
      assert items[..i + 1][..i] == items[..i];
      match Coerce(items[i])
      case None =>
        assert CoerceAll(items[..i + 1]) == Err(i);
        MapAllPrefixErr(items, i + 1, Coerce);
        return Err(i);
      case Some(rec) =>
        done := done + [rec];
      i := i + 1;
    }
    assert items[..i] == items;
    return Ok(done);
  }

  /** `[unique_list.append(item) for item in dict_list if item not in unique_list]` */
  method Deduplicate(items: seq<Record>) returns (unique: seq<Record>)
    ensures unique == Dedup(items)
  {
    unique := [];
    var i := 0;
    while i < |items|
      invariant 0 <= i <= |items|
      invariant unique == Dedup(items[..i])
    {
      assert items[..i + 1][..i] == items[..i];
      if items[i] !in unique {
        unique := unique + [items[i]];
      }
      i := i + 1;
    }
    assert items[..i] == items;
  }
}
