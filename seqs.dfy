/** Sequence helpers shared by the pipeline: comprehension filters,
    `itertools.chain`, and the first-occurrence deduplication of `search`. */
module Seqs {
  import opened Wrappers

  /** `[x for x in s if p(x)]` */
  function Filter<T(!new)>(s: seq<T>, p: T -> bool): (r: seq<T>)
    ensures |r| <= |s|
    ensures forall x :: x in r <==> x in s && p(x)
  {
    if s == [] then [] else (if p(s[0]) then [s[0]] else []) + Filter(s[1..], p)
  }

  lemma {:induction false} FilterConcat<T(!new)>(a: seq<T>, b: seq<T>, p: T -> bool)
    ensures Filter(a + b, p) == Filter(a, p) + Filter(b, p)
  {
    if a == [] {
      assert a + b == b;
    } else {
      assert (a + b)[1..] == a[1..] + b;
      FilterConcat(a[1..], b, p);
    }
  }

  /** Filtering one more element of a prefix. */
  lemma FilterPrefixStep<T(!new)>(s: seq<T>, j: nat, p: T -> bool)
    requires j < |s|
    ensures Filter(s[..j + 1], p) == Filter(s[..j], p) + (if p(s[j]) then [s[j]] else [])
  {
    assert s[..j + 1] == s[..j] + [s[j]];
    FilterConcat(s[..j], [s[j]], p);
  }

  /** Two predicates that agree on every element select the same subsequence. */
  lemma {:induction false} FilterCongruent<T(!new)>(s: seq<T>, p: T -> bool, q: T -> bool)
    requires forall x :: x in s ==> p(x) == q(x)
    ensures Filter(s, p) == Filter(s, q)
  {
    if s != [] {
      FilterCongruent(s[1..], p, q);
    }
  }

  /** A filter that keeps everything is the identity. */
  lemma {:induction false} FilterAll<T(!new)>(s: seq<T>, p: T -> bool)
    requires forall x :: x in s ==> p(x)
    ensures Filter(s, p) == s
  {
    if s != [] {
      FilterAll(s[1..], p);
    }
  }

  /** `x` occurs in one of the sequences of `ss`. */
  predicate InSome<T(==)>(x: T, ss: seq<seq<T>>)
  {
    exists i :: 0 <= i < |ss| && x in ss[i]
  }

  /** `list(chain(*ss))` */
  function Flatten<T(!new)>(ss: seq<seq<T>>): (r: seq<T>)
    ensures forall x :: x in r <==> InSome(x, ss)
  {
    if ss == [] then []
    else
      ss[0] + Flatten(ss[1..])
  }

  lemma {:induction false} FlattenConcat<T(!new)>(a: seq<seq<T>>, b: seq<seq<T>>)
    ensures Flatten(a + b) == Flatten(a) + Flatten(b)
  {
    if a == [] {
      assert a + b == b;
    } else {
      assert (a + b)[1..] == a[1..] + b;
      FlattenConcat(a[1..], b);
    }
  }

  predicate NonEmpty<T>(g: seq<T>) { g != [] }

  /** Dropping the empty groups before flattening changes nothing. */
  lemma {:induction false} FlattenDropsEmpty<T(!new)>(ss: seq<seq<T>>)
    ensures Flatten(Filter(ss, NonEmpty)) == Flatten(ss)
  {
    if ss != [] {
      var p := NonEmpty;
      FlattenDropsEmpty(ss[1..]);
      assert ss == [ss[0]] + ss[1..];
      FilterConcat([ss[0]], ss[1..], p);
      FlattenConcat(Filter([ss[0]], p), Filter(ss[1..], p));
      if ss[0] == [] {
        assert Filter([ss[0]], p) == [];
      } else {
        assert Filter([ss[0]], p) == [ss[0]];
      }
    }
  }

  predicate NoDup<T(==)>(s: seq<T>)
  {
    forall i, j :: 0 <= i < j < |s| ==> s[i] != s[j]
  }

  /** The position of the first occurrence of `x` in `s`. */
  function FirstIndex<T(==)>(s: seq<T>, x: T): (i: nat)
    requires x in s
    ensures i < |s| && s[i] == x && x !in s[..i]
  {
    if s[0] == x then 0 else 1 + FirstIndex(s[1..], x)
  }

  /** `unique = []; [unique.append(x) for x in s if x not in unique]`, stated on
      prefixes: the last element is appended unless already kept. */
  function Dedup<T(==,!new)>(s: seq<T>): (r: seq<T>)
    ensures NoDup(r)
    ensures forall x :: x in r <==> x in s
    ensures |r| <= |s|
  {
    if s == [] then []
    else
      var d := Dedup(s[..|s| - 1]);
      assert forall x :: x in s <==> x in s[..|s| - 1] || x == s[|s| - 1] by {
        assert s == s[..|s| - 1] + [s[|s| - 1]];
      }
      if s[|s| - 1] in d then d else d + [s[|s| - 1]]
  }

  /** The first occurrence of an element in a prefix is its first occurrence in the whole. */
  lemma {:induction false} FirstIndexPrefix<T>(s: seq<T>, n: nat, x: T)
    requires n <= |s| && x in s[..n]
    ensures FirstIndex(s, x) == FirstIndex(s[..n], x)
  {
    var i := FirstIndex(s[..n], x);
    var k := FirstIndex(s, x);
    assert s[..n][..i] == s[..i];
  }

  /** Deduplication keeps elements in the order of their first occurrences. */
  lemma {:induction false} DedupOrder<T(!new)>(s: seq<T>)
    ensures forall i, j :: 0 <= i < j < |Dedup(s)| ==>
              FirstIndex(s, Dedup(s)[i]) < FirstIndex(s, Dedup(s)[j])
  {
    if s != [] {
      var n := |s| - 1;
      var p := s[..n];
      var d := Dedup(p);
      DedupOrder(p);
      forall x | x in d ensures FirstIndex(s, x) == FirstIndex(p, x) && FirstIndex(p, x) < n {
        FirstIndexPrefix(s, n, x);
      }
      if s[n] !in d {
        assert s[n] !in p;
        assert s[..n] == p;
      }
    }
  }

  /** Applies `f` to each element in order; `Err(k)` names the first element
      on which it fails. */
  function MapAll<T, U>(s: seq<T>, f: T -> Option<U>): (r: Result<seq<U>, nat>)
    ensures r.Ok? ==> |r.value| == |s|
    ensures r.Err? ==> r.error < |s|
  {
    if s == [] then Ok([])
    else
      match MapAll(s[..|s| - 1], f)
      case Err(k) => Err(k)
      case Ok(done) =>
        match f(s[|s| - 1])
        case None => Err(|s| - 1)
        case Some(y) => Ok(done + [y])
  }

  predicate AllSome<T, U>(s: seq<T>, f: T -> Option<U>)
  {
    forall i :: 0 <= i < |s| ==> f(s[i]).Some?
  }

  /** `MapAll` succeeds exactly when `f` succeeds on every element. */
  lemma {:induction false} MapAllOk<T, U>(s: seq<T>, f: T -> Option<U>)
    ensures MapAll(s, f).Ok? <==> AllSome(s, f)
  {
    if s != [] {
      var n := |s| - 1;
      var front := s[..n];
      MapAllOk(front, f);
      if AllSome(s, f) {
        forall i | 0 <= i < n ensures f(front[i]).Some? {
          assert front[i] == s[i];
        }
      }
      if AllSome(front, f) && f(s[n]).Some? {
        forall i | 0 <= i < |s| ensures f(s[i]).Some? {
          if i < n {
            assert front[i] == s[i];
          }
        }
      }
    }
  }

  /** A successful `MapAll` holds the result of `f` on each element, position
      by position. */
  lemma {:induction false} MapAllValues<T, U>(s: seq<T>, f: T -> Option<U>)
    requires MapAll(s, f).Ok?
    ensures forall i :: 0 <= i < |s| ==> f(s[i]) == Some(MapAll(s, f).value[i])
  {
    if s != [] {
      var n := |s| - 1;
      var front := s[..n];
      MapAllValues(front, f);
      forall i | 0 <= i < |s| ensures f(s[i]) == Some(MapAll(s, f).value[i]) {
        if i < n {
          assert front[i] == s[i];
        }
      }
    }
  }

  /** When `MapAll` fails at `k`, `f` fails on element `k` and succeeds on
      every earlier one. */
  lemma {:induction false} MapAllErr<T, U>(s: seq<T>, f: T -> Option<U>)
    ensures MapAll(s, f).Err? ==>
              && f(s[MapAll(s, f).error]).None?
              && forall i :: 0 <= i < MapAll(s, f).error ==> f(s[i]).Some?
  {
    if s != [] {
      var n := |s| - 1;
      var front := s[..n];
      MapAllErr(front, f);
      MapAllOk(front, f);
      if MapAll(front, f).Err? {
        assert forall i :: 0 <= i <= MapAll(front, f).error ==> front[i] == s[i];
      } else {
        assert forall i :: 0 <= i < n ==> front[i] == s[i];
      }
    }
  }

  /** A failure in a prefix is the failure of the whole. */
  lemma {:induction false} MapAllPrefixErr<T, U>(s: seq<T>, n: nat, f: T -> Option<U>)
    requires n <= |s| && MapAll(s[..n], f).Err?
    ensures MapAll(s, f) == MapAll(s[..n], f)
    decreases |s| - n
  {
    if n < |s| {
      assert s[..n + 1][..n] == s[..n];
      MapAllPrefixErr(s, n + 1, f);
    } else {
      assert s[..n] == s;
    }
  }
}
