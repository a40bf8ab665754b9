/** The rule `save` applies to each name typed into its dialog: lower-case
    it, remove every `.csv`, append `.csv`, then refuse names holding a
    character Windows forbids or naming a CSV file that already exists. */
module SaveName {
  import opened Wrappers
  import opened Strings

  const Extension := ".csv"

  /** `illegal_chars` */
  predicate Illegal(c: char)
  {
    c in {'\\', '/', ':', '*', '?', '"', '<', '>', '|'}
  }

  predicate HasIllegal(s: string)
  {
    exists i :: 0 <= i < |s| && Illegal(s[i])
  }

  predicate NoUpper(s: string)
  {
    forall i :: 0 <= i < |s| ==> !IsUpper(s[i])
  }

  /** `file_name.lower().replace(".csv", "") + ".csv"` */
  function CsvName(input: string): (r: string)
    ensures EndsWith(r, Extension) && NoUpper(r)
  {
    var stem := ReplaceAll(Lower(input), Extension, "");
    StemNoUpper(Lower(input));
    assert (stem + Extension)[|stem|..] == Extension;
    stem + Extension
  }

  lemma StemNoUpper(s: string)
    requires NoUpper(s)
    ensures NoUpper(ReplaceAll(s, Extension, ""))
  {
    var r := ReplaceAll(s, Extension, "");
    forall i | 0 <= i < |r| ensures !IsUpper(r[i]) {
      RemoveAllChars(s, Extension, r[i]);
    }
  }

  /** The files `save` compares against: those of the directory listing that
      end with `.csv`. */
  function CsvFiles(listing: set<string>): set<string>
  {
    set f | f in listing && EndsWith(f, Extension)
  }

  /** What one round of the dialog leads to. */
  datatype Verdict = Cancelled | IllegalChars | AlreadyExists | Accepted(name: string)

  /** One round of the `save` dialog: an empty answer or a closed dialog
      (`None`) ends it; otherwise the cleaned name is refused or accepted. */
  function SaveVerdict(answer: Option<string>, listing: set<string>): Verdict
  {
    if answer.None? || answer.value == "" then Cancelled
    else
      var name := CsvName(answer.value);
      if HasIllegal(name) then IllegalChars
      else if name in CsvFiles(listing) then AlreadyExists
      else Accepted(name)
  }

  /** Lower-casing leaves the characters that are not letters where they are. */
  lemma LowerKeeps(s: string, c: char)
    requires !IsUpper(c) && !IsLower(c)
    ensures c in Lower(s) <==> c in s
  {
    if c in Lower(s) {
      var i :| 0 <= i < |s| && Lower(s)[i] == c;
      assert s[i] == c;
    }
    if c in s {
      var i :| 0 <= i < |s| && s[i] == c;
      assert Lower(s)[i] == c;
    }
  }

  /** The cleaning neither removes nor adds a forbidden character. */
  lemma CsvNameIllegal(input: string)
    ensures HasIllegal(CsvName(input)) <==> HasIllegal(input)
  {
    if HasIllegal(CsvName(input)) {
      IllegalComesFromInput(input);
    }
    if HasIllegal(input) {
      IllegalKept(input);
    }
  }

  lemma IllegalComesFromInput(input: string)
    requires HasIllegal(CsvName(input))
    ensures HasIllegal(input)
  {
    var lowered := Lower(input);
    var stem := ReplaceAll(lowered, Extension, "");
    var r := CsvName(input);
    var i :| 0 <= i < |r| && Illegal(r[i]);
    var c := r[i];
    assert r == stem + Extension;
    assert c in stem;
    RemoveAllChars(lowered, Extension, c);
    LowerKeeps(input, c);
    var j :| 0 <= j < |input| && input[j] == c;
  }

  lemma IllegalKept(input: string)
    requires HasIllegal(input)
    ensures HasIllegal(CsvName(input))
  {
    var lowered := Lower(input);
    var stem := ReplaceAll(lowered, Extension, "");
    var j :| 0 <= j < |input| && Illegal(input[j]);
    var c := input[j];
    LowerKeeps(input, c);
    RemoveAllChars(lowered, Extension, c);
    var i :| 0 <= i < |stem| && stem[i] == c;
    assert CsvName(input)[i] == c;
  }

  /** A name ending in `.csv` is among the CSV files exactly when it is in the
      directory. */
  lemma CsvFilesHas(listing: set<string>, name: string)
    requires EndsWith(name, Extension)
    ensures name in CsvFiles(listing) <==> name in listing
  {
  }

  /** An empty or closed dialog cancels; a name with a forbidden character is
      refused for it; a legal name is refused as existing exactly when its
      cleaned form is in the directory, and accepted otherwise. An accepted
      name is the cleaned name: lower-case, ending with `.csv`, holding no
      forbidden character and naming no file of the directory. */
  lemma SaveVerdictProperties(answer: Option<string>, listing: set<string>)
    ensures SaveVerdict(answer, listing) == Cancelled <==> answer.None? || answer.value == ""
    ensures SaveVerdict(answer, listing) == IllegalChars <==>
              answer.Some? && answer.value != "" && HasIllegal(answer.value)
    ensures answer.Some? && answer.value != "" && !HasIllegal(answer.value) ==>
              (SaveVerdict(answer, listing) == AlreadyExists <==> CsvName(answer.value) in listing)
    ensures SaveVerdict(answer, listing).Accepted? ==>
              var name := SaveVerdict(answer, listing).name;
              && name == CsvName(answer.value)
              && EndsWith(name, Extension) && NoUpper(name)
              && !HasIllegal(name) && name !in listing
  {
    if answer.Some? && answer.value != "" {
      CsvNameIllegal(answer.value);
      CsvFilesHas(listing, CsvName(answer.value));
    }
  }

  lemma LowerExample()
    ensures Lower("Data.CSV") == "data" + Extension
  {
  }

  lemma StemExample()
    ensures ReplaceAll("data" + Extension, Extension, "") == "data"
  {
    ReplaceAllAbsentPrefix("data", Extension, Extension, "");
    ReplaceAllAtFront([], Extension, "");
    assert Extension + [] == Extension;
  }

  /** `"Data.CSV"` is saved as `"data.csv"`. */
  lemma SaveExample()
    ensures CsvName("Data.CSV") == "data.csv"
  {
    LowerExample();
    StemExample();
  }
}
