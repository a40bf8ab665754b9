/** `search`: the loop over the search terms, the aggregation of the result
    pages, and the bounded retry of `check_urls`, with the progress bar it
    drives. The search API's answers and the outcomes of the `check_urls`
    attempts are inputs. */
module Session {
  import opened Wrappers
  import opened Seqs
  import opened Records
  import opened Aggregation
  import opened Liveness

  /** One run of `asyncio.run(self.check_urls(unique_list))`: it raised, or
      `gather` produced one probe per record. */
  datatype Attempt = AttemptRaised | Gathered(probes: seq<Probe>)

  /** What `search` ends with: it raised while converting record `index` of
      `dict_list`; or the working records were shown after `failures` failed
      attempts; or every attempt failed and all records were shown unchecked. */
  datatype Outcome =
    | BadNumber(index: nat)
    | Validated(working: seq<Record>, failures: nat)
    | Unvalidated(all: seq<Record>)

  /** `if counter > 3` ends the retries: at most four attempts. */
  const MaxRetries: nat := 3

  /** Every attempt that got through `gather` has one probe per record. */
  predicate Aligned(attempts: seq<Attempt>, n: nat)
  {
    forall k :: 0 <= k < |attempts| && attempts[k].Gathered? ==> |attempts[k].probes| == n
  }

  /** The retry loop from attempt `counter` on. */
  function Retry(unique: seq<Record>, attempts: seq<Attempt>, counter: nat): (r: Outcome)
    requires counter <= MaxRetries < |attempts| && Aligned(attempts, |unique|)
    ensures r.Validated? ==> counter <= r.failures <= MaxRetries
    ensures r.Unvalidated? ==> r.all == unique
    ensures !r.BadNumber?
    decreases MaxRetries - counter
  {
    match attempts[counter]
    case Gathered(probes) => Validated(Working(Annotate(unique, probes)), counter)
    case AttemptRaised =>
      if counter + 1 > MaxRetries then Unvalidated(unique)
      else Retry(unique, attempts, counter + 1)
  }

  /** The attempts fit the records `search` would check. */
  predicate Fits(usernames: seq<string>, pages: seq<seq<RawRecord>>, attempts: seq<Attempt>)
  {
    MaxRetries < |attempts| &&
    (Aggregate(usernames, pages).Ok? ==> Aligned(attempts, |Aggregate(usernames, pages).value|))
  }

  /** The outcome of `search` for the given result pages and attempts. */
  function SearchOutcome(usernames: seq<string>, pages: seq<seq<RawRecord>>, attempts: seq<Attempt>): Outcome
    requires Fits(usernames, pages, attempts)
  {
    match Aggregate(usernames, pages)
    case Err(k) => BadNumber(k)
    case Ok(unique) => Retry(unique, attempts, 0)
  }

  /** `current_step / total_steps` */
  function Fraction(step: nat, total: nat): (f: real)
    requires 0 < total
    ensures 0.0 <= f && (step <= total ==> f <= 1.0)
  {
    step as real / total as real
  }

  function Fractions(steps: seq<nat>, total: nat): (r: seq<real>)
    requires 0 < total
    ensures |r| == |steps|
  {
    seq(|steps|, i requires 0 <= i < |steps| => Fraction(steps[i], total))
  }

  /** The steps reached after each search term: 0, 1, ..., `terms`. */
  function Upto(terms: nat): (r: seq<nat>)
    ensures |r| == terms + 1
  {
    seq(terms + 1, i requires 0 <= i <= terms => i)
  }

  /** The steps the retry loop shows, starting from `step`: the same step
      after each failed attempt, then one more on success, or the whole of
      `total` when every attempt failed. */
  function Repeat(step: nat, n: nat): (r: seq<nat>)
    ensures |r| == n
  {
    seq(n, _ => step)
  }

  function RetrySteps(step: nat, total: nat, outcome: Outcome): seq<nat>
  {
    match outcome
    case BadNumber(_) => []
    case Validated(_, failures) => Repeat(step, failures) + [step + 1]
    case Unvalidated(_) => Repeat(step, MaxRetries) + [total]
  }

  /** Every step `search` shows on the progress bar: one per search term, one
      for the aggregation, then those of the retry loop. The bar shows
      `Fractions(Steps(...), terms + 3)`. */
  function Steps(terms: nat, outcome: Outcome): seq<nat>
  {
    if outcome.BadNumber? then Upto(terms)
    else Upto(terms) + [terms + 1] + RetrySteps(terms + 1, terms + 3, outcome)
  }

  function Progress(terms: nat, outcome: Outcome): seq<real>
  {
    Fractions(Steps(terms, outcome), terms + 3)
  }

  /** A check that succeeds is used at once: the first attempt that gets
      through `gather` decides the outcome. */
  lemma {:induction false} FirstSuccessWins(unique: seq<Record>, attempts: seq<Attempt>, counter: nat, k: nat)
    requires counter <= k <= MaxRetries < |attempts| && Aligned(attempts, |unique|)
    requires attempts[k].Gathered?
    requires forall j :: counter <= j < k ==> attempts[j].AttemptRaised?
    ensures Retry(unique, attempts, counter) == Validated(Working(Annotate(unique, attempts[k].probes)), k)
    decreases k - counter
  {
    if counter < k {
      FirstSuccessWins(unique, attempts, counter + 1, k);
    }
  }

  /** Four failed attempts fall back to the unchecked records. */
  lemma {:induction false} AllFailed(unique: seq<Record>, attempts: seq<Attempt>, counter: nat)
    requires counter <= MaxRetries < |attempts| && Aligned(attempts, |unique|)
    requires forall j :: counter <= j <= MaxRetries ==> attempts[j].AttemptRaised?
    ensures Retry(unique, attempts, counter) == Unvalidated(unique)
    decreases MaxRetries - counter
  {
    if counter < MaxRetries {
      AllFailed(unique, attempts, counter + 1);
    }
  }

  /** Only the first four attempts matter: `check_urls` runs at most four
      times. */
  lemma {:induction false} AtMostFourAttempts(unique: seq<Record>, a: seq<Attempt>, b: seq<Attempt>, counter: nat)
    requires counter <= MaxRetries < |a| && MaxRetries < |b|
    requires Aligned(a, |unique|) && Aligned(b, |unique|)
    requires a[..MaxRetries + 1] == b[..MaxRetries + 1]
    ensures Retry(unique, a, counter) == Retry(unique, b, counter)
    decreases MaxRetries - counter
  {
    assert a[counter] == a[..MaxRetries + 1][counter];
    if counter < MaxRetries {
      AtMostFourAttempts(unique, a, b, counter + 1);
    }
  }

  lemma FractionMono(i: nat, j: nat, total: nat)
    requires 0 < total && i <= j
    ensures Fraction(i, total) <= Fraction(j, total)
    ensures i < j ==> Fraction(i, total) < Fraction(j, total)
  {
    var t := total as real;
    assert j as real / t - i as real / t == (j - i) as real / t;
  }

  lemma FractionsConcat(a: seq<nat>, b: seq<nat>, total: nat)
    requires 0 < total
    ensures Fractions(a + b, total) == Fractions(a, total) + Fractions(b, total)
  {
  }

  predicate Sorted(p: seq<nat>)
  {
    forall i, j :: 0 <= i < j < |p| ==> p[i] <= p[j]
  }

  predicate Monotone(p: seq<real>)
  {
    forall i, j :: 0 <= i < j < |p| ==> p[i] <= p[j]
  }

  /** The steps start at 0, never decrease, never pass the total, and reach
      it exactly when every attempt failed. */
  lemma StepsShape(terms: nat, outcome: Outcome)
    requires outcome.Validated? ==> outcome.failures <= MaxRetries
    ensures var s := Steps(terms, outcome);
            && s != [] && s[0] == 0 && Sorted(s)
            && (forall i :: 0 <= i < |s| ==> s[i] <= terms + 3)
            && (s[|s| - 1] == terms + 3 <==> outcome.Unvalidated?)
  {
    var s := Steps(terms, outcome);
    assert Upto(terms)[0] == 0;
    assert forall i :: 0 <= i < |s| ==> (i <= terms ==> s[i] == i) && (terms < i < |s| - 1 ==> s[i] == terms + 1);
  }

  lemma FractionsMonotone(s: seq<nat>, total: nat)
    requires 0 < total && Sorted(s)
    ensures Monotone(Fractions(s, total))
  {
    var p := Fractions(s, total);
    forall i, j | 0 <= i < j < |p| ensures p[i] <= p[j] {
      FractionMono(s[i], s[j], total);
    }
  }

  /** The progress bar starts at 0, never moves back, never passes 1, and
      ends at 1 exactly when the records were shown unchecked. */
  lemma ProgressShape(terms: nat, outcome: Outcome)
    requires outcome.Validated? ==> outcome.failures <= MaxRetries
    ensures var p := Progress(terms, outcome);
            && p != [] && p[0] == 0.0
            && Monotone(p)
            && (forall i :: 0 <= i < |p| ==> 0.0 <= p[i] <= 1.0)
            && (p[|p| - 1] == 1.0 <==> outcome.Unvalidated?)
  {
    StepsShape(terms, outcome);
    FractionsShape(Steps(terms, outcome), terms + 3);
  }

  /** Fractions of sorted steps from 0 to the total. */
  lemma FractionsShape(s: seq<nat>, total: nat)
    requires 0 < total && s != [] && s[0] == 0 && Sorted(s)
    requires forall i :: 0 <= i < |s| ==> s[i] <= total
    ensures var p := Fractions(s, total);
            && p[0] == 0.0 && Monotone(p)
            && (forall i :: 0 <= i < |p| ==> 0.0 <= p[i] <= 1.0)
            && (p[|p| - 1] == 1.0 <==> s[|s| - 1] == total)
  {
    FractionsMonotone(s, total);
    FractionsBounded(s, total);
    var last := s[|s| - 1];
    assert Fractions(s, total)[|s| - 1] == Fraction(last, total);
    FractionMono(last, total, total);
    assert Fraction(total, total) == 1.0;
  }

  lemma FractionsBounded(s: seq<nat>, total: nat)
    requires 0 < total && forall i :: 0 <= i < |s| ==> s[i] <= total
    ensures forall i :: 0 <= i < |s| ==> 0.0 <= Fractions(s, total)[i] <= 1.0
  {
    forall i | 0 <= i < |s| ensures 0.0 <= Fractions(s, total)[i] <= 1.0 {
      assert Fractions(s, total)[i] == Fraction(s[i], total);
    }
  }

  /** The loop over the search terms: the groups of every term and the
      progress after each. */
  method CollectTerms(usernames: seq<string>, pages: seq<seq<RawRecord>>)
      returns (combined: seq<seq<RawRecord>>, progress: seq<real>)
    ensures combined == Combined(usernames, pages)
    ensures progress == Fractions(Upto(|pages|), |pages| + 3)
  {
    var total := |pages| + 3;
    progress := [Fraction(0, total)];
    combined := [];
    for t := 0 to |pages|
      invariant combined == Combined(usernames, pages[..t])
      invariant progress == Fractions(Upto(t), total)
    {
      var data := pages[t];
      var groups := TermGroups(usernames, data);
      for u := 0 to |usernames|
        invariant combined == Combined(usernames, pages[..t]) + groups[..u]
      {
        combined := combined + [MatchUser(data, usernames[u])];
        assert groups[..u + 1] == groups[..u] + [groups[u]];
      }
      assert groups[..|usernames|] == groups;
      assert pages[..t + 1][..t] == pages[..t];
      assert Upto(t + 1) == Upto(t) + [t + 1];
      FractionsConcat(Upto(t), [t + 1], total);
      progress := progress + [Fraction(t + 1, total)];
    }
    assert pages[..|pages|] == pages;
  }

  /** The retry loop of `search`, from `step`: the outcome and the values it
      gives the progress bar. */
  method CheckWithRetries(endpoint: string, unique: seq<Record>, attempts: seq<Attempt>, step: nat, total: nat)
      returns (outcome: Outcome, progress: seq<real>)
    requires MaxRetries < |attempts| && Aligned(attempts, |unique|) && 0 < total
    ensures outcome == Retry(unique, attempts, 0)
    ensures progress == Fractions(RetrySteps(step, total, outcome), total)
  {
    var counter: nat := 0;
    progress := [];
    while true
      invariant counter <= MaxRetries
      invariant Retry(unique, attempts, counter) == Retry(unique, attempts, 0)
      invariant progress == Fractions(Repeat(step, counter), total)
      decreases MaxRetries - counter
    {
      ghost var repeated := Repeat(step, counter);
      match attempts[counter]
      case Gathered(probes) =>
        var items := new Record[|unique|](i requires 0 <= i < |unique| => unique[i]);
        assert items[..] == unique;
        var urls := CheckUrls(endpoint, items, probes);
        outcome := Validated(Working(items[..]), counter);
        FractionsConcat(repeated, [step + 1], total);
        progress := progress + [Fraction(step + 1, total)];
        return;
      case AttemptRaised =>
        counter := counter + 1;
        if counter > MaxRetries {
          outcome := Unvalidated(unique);
          FractionsConcat(repeated, [total], total);
          assert Fraction(total, total) == 1.0;
          progress := progress + [1.0];
          return;
        }
        assert Repeat(step, counter) == repeated + [step];
        FractionsConcat(repeated, [step], total);
        progress := progress + [Fraction(step, total)];
    }
  }

  /** `search` run against the given search API pages (one per search term)
      and `check_urls` attempts; `progress` lists the values given to the
      progress bar. */
  method Search(endpoint: string, usernames: seq<string>, pages: seq<seq<RawRecord>>, attempts: seq<Attempt>)
      returns (outcome: Outcome, progress: seq<real>)
    requires Fits(usernames, pages, attempts)
    ensures outcome == SearchOutcome(usernames, pages, attempts)
    ensures progress == Progress(|pages|, outcome)
  {
    var total := |pages| + 3;
    var combined, perTerm := CollectTerms(usernames, pages);
    var dictList := Flatten(Filter(combined, NonEmpty));
    assert dictList == DictList(usernames, pages);
    var coerced := CoerceFields(dictList);
    if coerced.Err? {
      outcome := BadNumber(coerced.error);
      progress := perTerm;
      return;
    }
    var unique := Deduplicate(coerced.value);
    assert Aggregate(usernames, pages) == Ok(unique);
    var step := |pages| + 1;
    var retried;
    outcome, retried := CheckWithRetries(endpoint, unique, attempts, step, total);
    ProgressAfterRetries(|pages|, outcome);
    progress := perTerm + [Fraction(step, total)] + retried;
  }

  lemma ProgressAfterRetries(terms: nat, outcome: Outcome)
    requires !outcome.BadNumber?
    ensures Progress(terms, outcome) ==
              Fractions(Upto(terms), terms + 3) + [Fraction(terms + 1, terms + 3)]
              + Fractions(RetrySteps(terms + 1, terms + 3, outcome), terms + 3)
  {
    var total := terms + 3;
    FractionsConcat(Upto(terms), [terms + 1], total);
    FractionsConcat(Upto(terms) + [terms + 1], RetrySteps(terms + 1, total, outcome), total);
  }
}
