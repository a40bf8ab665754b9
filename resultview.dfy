/** `sorter` and `refine`: the orderings offered under the results, and the
    case-insensitive title filter. Both build new lists and leave their
    input as it was. */
module ResultView {
  import opened Wrappers
  import opened Seqs
  import opened Strings
  import opened Records

  /** The record fields `sorter` orders by. */
  datatype SortKey = Added | Seeders | Size

  function KeyOf(r: Record, key: SortKey): int
  {
    match key
    case Added => r.added
    case Seeders => r.seeders
    case Size => r.size
  }

  /** `a` must come strictly before `b`: a smaller key, or with
      `reverse=True` a larger one. */
  predicate Precedes(a: Record, b: Record, key: SortKey, reverse: bool)
  {
    if reverse then KeyOf(a, key) > KeyOf(b, key) else KeyOf(a, key) < KeyOf(b, key)
  }

  predicate SortedBy(s: seq<Record>, key: SortKey, reverse: bool)
  {
    forall i, j :: 0 <= i < j < |s| ==> !Precedes(s[j], s[i], key, reverse)
  }

  /** Puts `x`, which came before every record of `t` in the input, in front
      of the first record it does not have to follow. */
  function Insert(x: Record, t: seq<Record>, key: SortKey, reverse: bool): (r: seq<Record>)
    ensures |r| == |t| + 1
  {
    if t == [] || !Precedes(t[0], x, key, reverse) then [x] + t
    else [t[0]] + Insert(x, t[1..], key, reverse)
  }

  /** `sorted(item_list, key=..., reverse=...)`: a stable sort. */
  function Sort(s: seq<Record>, key: SortKey, reverse: bool): (r: seq<Record>)
    ensures |r| == |s|
  {
    if s == [] then [] else Insert(s[0], Sort(s[1..], key, reverse), key, reverse)
  }

  lemma {:induction false} InsertPermutes(x: Record, t: seq<Record>, key: SortKey, reverse: bool)
    ensures multiset(Insert(x, t, key, reverse)) == multiset(t) + multiset{x}
  {
    if t != [] && Precedes(t[0], x, key, reverse) {
      InsertPermutes(x, t[1..], key, reverse);
      assert t == [t[0]] + t[1..];
    }
  }

  lemma {:induction false} InsertSorted(x: Record, t: seq<Record>, key: SortKey, reverse: bool)
    requires SortedBy(t, key, reverse)
    ensures SortedBy(Insert(x, t, key, reverse), key, reverse)
  {
    if t != [] && Precedes(t[0], x, key, reverse) {
      var rest := Insert(x, t[1..], key, reverse);
      InsertSorted(x, t[1..], key, reverse);
      InsertPermutes(x, t[1..], key, reverse);
      forall y | y in rest ensures !Precedes(y, t[0], key, reverse) {
        assert y in multiset(rest);
      }
    }
  }

  /** The sort orders the records by the key and is a permutation of them. */
  lemma {:induction false} SortPermutes(s: seq<Record>, key: SortKey, reverse: bool)
    ensures SortedBy(Sort(s, key, reverse), key, reverse)
    ensures multiset(Sort(s, key, reverse)) == multiset(s)
  {
    if s != [] {
      SortPermutes(s[1..], key, reverse);
      InsertSorted(s[0], Sort(s[1..], key, reverse), key, reverse);
      InsertPermutes(s[0], Sort(s[1..], key, reverse), key, reverse);
      assert s == [s[0]] + s[1..];
    }
  }

  /** `[x]` when the key of `x` is `k`, else nothing. */
  function Keep(x: Record, key: SortKey, k: int): seq<Record>
  {
    if KeyOf(x, key) == k then [x] else []
  }

  /** The records of `s` whose key is `k`, in order. */
  function WithKey(s: seq<Record>, key: SortKey, k: int): (r: seq<Record>)
    ensures |r| <= |s|
  {
    if s == [] then [] else Keep(s[0], key, k) + WithKey(s[1..], key, k)
  }

  lemma {:induction false} InsertWithKey(x: Record, t: seq<Record>, key: SortKey, reverse: bool, k: int)
    ensures WithKey(Insert(x, t, key, reverse), key, k) == Keep(x, key, k) + WithKey(t, key, k)
  {
    if t == [] || !Precedes(t[0], x, key, reverse) {
      var r := [x] + t;
      assert r[0] == x && r[1..] == t;
    } else {
      var rest := Insert(x, t[1..], key, reverse);
      InsertWithKey(x, t[1..], key, reverse, k);
      var r := [t[0]] + rest;
      assert r[0] == t[0] && r[1..] == rest;
      assert WithKey(r, key, k) == Keep(t[0], key, k) + (Keep(x, key, k) + WithKey(t[1..], key, k));
      assert Keep(t[0], key, k) == [] || Keep(x, key, k) == [];
    }
  }

  /** Stability: records with equal keys keep their input order. */
  lemma {:induction false} SortStable(s: seq<Record>, key: SortKey, reverse: bool, k: int)
    ensures WithKey(Sort(s, key, reverse), key, k) == WithKey(s, key, k)
  {
    if s != [] {
      SortStable(s[1..], key, reverse, k);
      InsertWithKey(s[0], Sort(s[1..], key, reverse), key, reverse, k);
    }
  }

  function Swap(s: seq<Record>, i: nat, j: nat): (r: seq<Record>)
    requires i < |s| && j < |s|
    ensures |r| == |s|
  {
    s[i := s[j]][j := s[i]]
  }

  lemma SwapPermutes(s: seq<Record>, i: nat, j: nat)
    requires i < |s| && j < |s|
    ensures multiset(Swap(s, i, j)) == multiset(s)
  {
  }

  /** The draws `random.shuffle` makes: at position `i` it picks an index up to
      `i`; `draws[0]` is never used. */
  predicate ValidDraws(draws: seq<nat>, n: nat)
  {
    |draws| == n && forall i :: 0 <= i < n ==> draws[i] <= i
  }

  /** The Fisher-Yates passes of `random.shuffle` from position `i` down to 1. */
  function ShuffleDown(s: seq<Record>, i: nat, draws: seq<nat>): (r: seq<Record>)
    requires i < |s| && ValidDraws(draws, |s|)
    ensures |r| == |s|
    decreases i
  {
    if i == 0 then s else ShuffleDown(Swap(s, i, draws[i]), i - 1, draws)
  }

  /** `sorted_list = item_list.copy(); random.shuffle(sorted_list)`, with the
      random choices given as `draws`. */
  function Shuffle(s: seq<Record>, draws: seq<nat>): seq<Record>
    requires ValidDraws(draws, |s|)
  {
    if s == [] then [] else ShuffleDown(s, |s| - 1, draws)
  }

  lemma {:induction false} ShuffleDownPermutes(s: seq<Record>, i: nat, draws: seq<nat>)
    requires i < |s| && ValidDraws(draws, |s|)
    ensures multiset(ShuffleDown(s, i, draws)) == multiset(s)
    decreases i
  {
    if i > 0 {
      SwapPermutes(s, i, draws[i]);
      ShuffleDownPermutes(Swap(s, i, draws[i]), i - 1, draws);
    }
  }

  /** Whatever the draws, the shuffle is a permutation. */
  lemma ShufflePermutes(s: seq<Record>, draws: seq<nat>)
    requires ValidDraws(draws, |s|)
    ensures |Shuffle(s, draws)| == |s|
    ensures multiset(Shuffle(s, draws)) == multiset(s)
  {
    if s != [] {
      ShuffleDownPermutes(s, |s| - 1, draws);
    }
  }

  lemma {:induction false} ShuffleDownStays(s: seq<Record>, i: nat, draws: seq<nat>)
    requires i < |s| && ValidDraws(draws, |s|)
    requires forall k :: 0 < k <= i ==> draws[k] == k
    ensures ShuffleDown(s, i, draws) == s
    decreases i
  {
    if i > 0 {
      assert Swap(s, i, i) == s by {
        assert s[i := s[i]] == s;
      }
      ShuffleDownStays(s, i - 1, draws);
    }
  }

  /** When every draw picks its own position, nothing moves. */
  lemma ShuffleIdentity(s: seq<Record>, draws: seq<nat>)
    requires ValidDraws(draws, |s|)
    requires forall k :: 0 <= k < |s| ==> draws[k] == k
    ensures Shuffle(s, draws) == s
  {
    if s != [] {
      ShuffleDownStays(s, |s| - 1, draws);
    }
  }

  /** The sort behind each button: newest, oldest, most seeded, largest,
      smallest. */
  function Ordering(value: string): Option<(SortKey, bool)>
  {
    if value == "n" then Some((Added, true))
    else if value == "o" then Some((Added, false))
    else if value == "s" then Some((Seeders, true))
    else if value == "l" then Some((Size, true))
    else if value == "sm" then Some((Size, false))
    else None
  }

  /** The list `sorter` hands to `printer` for the button `value`. */
  function Sorter(items: seq<Record>, value: string, draws: seq<nat>): (r: seq<Record>)
    requires value == "r" ==> ValidDraws(draws, |items|)
  {
    match Ordering(value)
    case Some((key, reverse)) => Sort(items, key, reverse)
    case None => if value == "r" then Shuffle(items, draws) else items
  }

  /** Every choice of `sorter` gives a permutation of its input; a sorting
      button orders it by its key, and records with equal keys keep their
      order; an unknown value gives the input back. */
  lemma SorterProperties(items: seq<Record>, value: string, draws: seq<nat>, k: int)
    requires value == "r" ==> ValidDraws(draws, |items|)
    ensures var r := Sorter(items, value, draws);
            && |r| == |items| && multiset(r) == multiset(items)
            && (Ordering(value).Some? ==>
                  var (key, reverse) := Ordering(value).value;
                  SortedBy(r, key, reverse) && WithKey(r, key, k) == WithKey(items, key, k))
            && (Ordering(value).None? && value != "r" ==> r == items)
  {
    match Ordering(value)
    case Some((key, reverse)) =>
      SortPermutes(items, key, reverse);
      SortStable(items, key, reverse, k);
    case None =>
      if value == "r" {
        ShufflePermutes(items, draws);
      }
  }

  /** The buttons: "n" newest first, "o" oldest first, "s" most seeders
      first, "l" largest first, "sm" smallest first, "r" shuffled. */
  lemma OrderingButtons()
    ensures Ordering("n") == Some((Added, true)) && Ordering("o") == Some((Added, false))
    ensures Ordering("s") == Some((Seeders, true))
    ensures Ordering("l") == Some((Size, true)) && Ordering("sm") == Some((Size, false))
    ensures Ordering("r").None? && Ordering("x").None?
  {
  }

  /** Newest first: the `added` values do not increase along the list. */
  lemma NewestFirst(items: seq<Record>)
    ensures var r := Sorter(items, "n", []);
            forall i, j :: 0 <= i < j < |r| ==> r[i].added >= r[j].added
  {
    OrderingButtons();
    SortPermutes(items, Added, true);
  }

  /** `query.lower() in name.lower()` */
  predicate Mentions(name: string, query: string)
  {
    Contains(Lower(name), Lower(query))
  }

  /** The records whose title contains the query, ignoring case. */
  function TitleHas(query: string): Record -> bool
  {
    (r: Record) => Mentions(r.name, query)
  }

  /** The records whose title is one of `names`. */
  function NamedIn(names: seq<string>): Record -> bool
  {
    (r: Record) => r.name in names
  }

  function NameHas(query: string): string -> bool
  {
    (n: string) => Mentions(n, query)
  }

  /** `refine` once the dialog has returned: nothing for a cancelled or empty
      query; otherwise the records whose title is among the matching titles. */
  function Refine(results: seq<Record>, query: Option<string>): (r: Option<seq<Record>>)
    ensures r.Some? <==> query.Some? && query.value != ""
  {
    if query.None? || query.value == "" then None
    else
      var names := seq(|results|, i requires 0 <= i < |results| => results[i].name);
      var collected := Filter(names, NameHas(query.value));
      Some(Filter(results, NamedIn(collected)))
  }

  /** Going through the title list is the same as asking each record
      directly: the refined list is the in-order subsequence of the results
      whose title contains the query, ignoring case. */
  lemma RefineMatches(results: seq<Record>, query: string)
    requires query != ""
    ensures Refine(results, Some(query)) == Some(Filter(results, TitleHas(query)))
  {
    var names := seq(|results|, i requires 0 <= i < |results| => results[i].name);
    var collected := Filter(names, NameHas(query));
    forall x | x in results ensures NamedIn(collected)(x) == TitleHas(query)(x) {
      var i :| 0 <= i < |results| && results[i] == x;
      assert x.name in names by { assert names[i] == x.name; }
      assert x.name in collected <==> NameHas(query)(x.name);
    }
    FilterCongruent(results, NamedIn(collected), TitleHas(query));
  }
}
