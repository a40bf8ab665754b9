/** `_process_input`: a comma-separated field of the search form becomes the
    collection of distinct, trimmed, non-empty entries. */
module InputParsing {
  import opened Strings
  import opened Seqs

  predicate Blank(s: string) { Strip(s) == [] }

  predicate NotBlank(s: string) { !Blank(s) }

  /** The pieces between commas, stripped, blank ones dropped. */
  function Entries(input: string): (r: seq<string>)
  {
    var pieces := Split(input, ',');
    var kept := Filter(pieces, NotBlank);
    seq(|kept|, i requires 0 <= i < |kept| => Strip(kept[i]))
  }

  /** `capitalize` is applied to every entry when asked for. */
  function Cased(e: string, capitalize: bool): string
  {
    if capitalize then Capitalize(e) else e
  }

  /** Non-empty, with no whitespace at either end. */
  predicate Trimmed(x: string)
  {
    x != [] && !IsSpace(x[0]) && !IsSpace(x[|x| - 1])
  }

  lemma CasedTrimmed(e: string, capitalize: bool)
    requires Trimmed(e)
    ensures Trimmed(Cased(e, capitalize))
  {
    CapitalizeProperties(e);
  }

  lemma EntriesTrimmed(input: string, capitalize: bool)
    ensures forall i :: 0 <= i < |Entries(input)| ==> Trimmed(Cased(Entries(input)[i], capitalize))
  {
    var kept := Filter(Split(input, ','), NotBlank);
    forall i | 0 <= i < |kept| ensures Trimmed(Cased(Entries(input)[i], capitalize)) {
      assert kept[i] in kept;
      CasedTrimmed(Strip(kept[i]), capitalize);
    }
  }

  /** `list(set(items))`: the order of the returned list is whatever the set
      iteration gives, so the result is the set of entries. */
  function ProcessInput(input: string, capitalize: bool): (r: set<string>)
    ensures forall x :: x in r ==> Trimmed(x)
  {
    EntriesTrimmed(input, capitalize);
    CasedSet(Entries(input), capitalize)
  }

  function CasedSet(items: seq<string>, capitalize: bool): (r: set<string>)
    ensures forall i :: 0 <= i < |items| ==> Cased(items[i], capitalize) in r
    ensures forall x :: x in r ==> exists i :: 0 <= i < |items| && x == Cased(items[i], capitalize)
  {
    set i | 0 <= i < |items| :: Cased(items[i], capitalize)
  }

  /** An entry is a comma-free piece of the input that is not blank, stripped
      and cased; and every such piece gives an entry. */
  lemma ProcessInputExactly(input: string, capitalize: bool, x: string)
    ensures x in ProcessInput(input, capitalize) <==>
            exists piece :: piece in Split(input, ',') && !Blank(piece) && x == Cased(Strip(piece), capitalize)
  {
    var pieces := Split(input, ',');
    var p := NotBlank;
    var kept := Filter(pieces, p);
    var items := Entries(input);
    if x in ProcessInput(input, capitalize) {
      var i :| 0 <= i < |items| && x == Cased(items[i], capitalize);
      assert kept[i] in kept;
    }
    if exists piece :: piece in pieces && !Blank(piece) && x == Cased(Strip(piece), capitalize) {
      var piece :| piece in pieces && !Blank(piece) && x == Cased(Strip(piece), capitalize);
      assert piece in kept;
      var i :| 0 <= i < |kept| && kept[i] == piece;
      assert items[i] == Strip(piece);
    }
  }

  /** No entry contains the separator. */
  lemma ProcessInputNoComma(input: string, capitalize: bool, x: string)
    requires x in ProcessInput(input, capitalize)
    ensures ',' !in x
  {
    ProcessInputExactly(input, capitalize, x);
    var piece :| piece in Split(input, ',') && !Blank(piece) && x == Cased(Strip(piece), capitalize);
    SplitNoSeparator(input, ',');
    StripKeepsAbsent(piece, ',');
    if capitalize {
      CapitalizeNoComma(Strip(piece));
    }
  }

  lemma StripKeepsAbsent(s: string, c: char)
    requires c !in s
    ensures c !in Strip(s)
  {
    var t := Strip(s);
    var i := Indent(s);
    forall k | 0 <= k < |t| ensures t[k] != c {
      assert t[k] == s[i + k];
    }
  }

  lemma CapitalizeNoComma(s: string)
    requires ',' !in s
    ensures ',' !in Capitalize(s)
  {
    var c := Capitalize(s);
    forall k | 0 <= k < |c| ensures c[k] != ',' {
      if k == 0 {
        assert c[k] == ToUpper(s[k]);
      } else {
        assert c[k] == Lower(s[1..])[k - 1];
      }
    }
  }

  /** Blank input gives nothing. */
  lemma ProcessInputBlank(input: string, capitalize: bool)
    requires forall k :: 0 <= k < |input| ==> IsSpace(input[k])
    ensures ProcessInput(input, capitalize) == {}
  {
    SplitWhole(input, ',');
    assert Blank(input);
  }

  /** Two comma-separated pieces give their two entries, which coincide
      when the pieces differ only in surrounding whitespace or, with
      capitalisation, in case. */
  lemma SplitTwo(a: string, b: string)
    requires ',' !in a && ',' !in b
    ensures Split(a + [','] + b, ',') == [a, b]
  {
    SplitPiece(a, b, ',');
    SplitWhole(b, ',');
  }

  lemma EntriesTwo(a: string, b: string)
    requires ',' !in a && ',' !in b && !Blank(a) && !Blank(b)
    ensures Entries(a + [','] + b) == [Strip(a), Strip(b)]
  {
    SplitTwo(a, b);
    FilterAll([a, b], NotBlank);
  }

  lemma CasedSetTwo(p: string, q: string, capitalize: bool)
    ensures CasedSet([p, q], capitalize) == {Cased(p, capitalize), Cased(q, capitalize)}
  {
    var items := [p, q];
    var r := CasedSet(items, capitalize);
    assert Cased(items[0], capitalize) in r && Cased(items[1], capitalize) in r;
    forall z | z in r ensures z == Cased(p, capitalize) || z == Cased(q, capitalize) {
      var i :| 0 <= i < |items| && z == Cased(items[i], capitalize);
    }
  }

  lemma ProcessInputTwo(a: string, b: string, capitalize: bool)
    requires ',' !in a && ',' !in b && !Blank(a) && !Blank(b)
    ensures ProcessInput(a + [','] + b, capitalize) == {Cased(Strip(a), capitalize), Cased(Strip(b), capitalize)}
  {
    EntriesTwo(a, b);
    CasedSetTwo(Strip(a), Strip(b), capitalize);
  }

  lemma ExampleBob()
    ensures Strip("bob") == "bob" && Cased("bob", true) == "Bob"
  {
    StripUnchanged("bob");
  }

  lemma ExampleSpacedBob()
    ensures Strip(" Bob") == "Bob" && Cased("Bob", true) == "Bob"
  {
    assert Indent(" Bob") == 1 && Trailing(" Bob") == 0;
  }

  /** `"bob, Bob"` with capitalisation gives the single entry `"Bob"`: the
      pieces are stripped and capitalised before the duplicates go. */
  lemma ProcessInputExample()
    ensures ProcessInput("bob" + [','] + " Bob", true) == {"Bob"}
  {
    ExampleBob();
    ExampleSpacedBob();
    ProcessInputTwo("bob", " Bob", true);
  }
}
