/** The two pure helpers of DataFileSelector.tsx: the title shown for a data
    file name and the icon chosen for it. */
module FileTitles {
  import opened Seqs
  import opened Text

  // ---------------------------------------------------------------------------
  // parseFileTitle
  // ---------------------------------------------------------------------------

  /** `filename.replace(/\.(csv|CSV)$/, '')`: only a final `.csv` or `.CSV`
      is removed. */
  function StripCsvExtension(filename: string): (r: string)
    ensures EndsWith(filename, ".csv") || EndsWith(filename, ".CSV") ==>
      |r| + 4 == |filename| && r + filename[|r|..] == filename
    ensures !(EndsWith(filename, ".csv") || EndsWith(filename, ".CSV")) ==> r == filename
  {
    if EndsWith(filename, ".csv") || EndsWith(filename, ".CSV") then filename[..|filename| - 4] else filename
  }

  /** Other spellings of the extension stay: "data.Csv" keeps its name. */
  lemma MixedCaseExtensionKept()
    ensures StripCsvExtension("data.Csv") == "data.Csv"
    ensures StripCsvExtension("data.csv") == "data"
  {
    assert "data.Csv"[4..] == ".Csv";
    assert "data.csv"[4..] == ".csv";
  }

  /** `part.charAt(0).toUpperCase() + part.slice(1).toLowerCase()` */
  function Capitalize(part: string): (r: string)
    ensures |r| == |part|
    ensures part != [] ==> r[0] == UpperChar(part[0])
    ensures forall i :: 1 <= i < |part| ==> r[i] == LowerChar(part[i])
  {
    if part == [] then "" else [UpperChar(part[0])] + Lower(part[1..])
  }

  /** `part.toLowerCase()`, then the switch. */
  function MapPart(part: string): string
  {
    Switch(Lower(part), part)
  }

  /** The switch on the lower-cased part `key`. */
  function Switch(key: string, part: string): string
  {
    if key == "er" then "Equivalent Ratios"
    else if key == "me" then "Means & Extremes"
    else if key == "groundtruth" || key == "ground_truth" then "Ground Truth"
    else if key == "successful" then "Successful"
    else if key == "unsuccessful" then "Unsuccessful"
    else if key == "strategies" then "Strategies"
    else if key == "match" then "Match"
    else if key == "allstrategies" || key == "all_strategies" then "All Strategies"
    else if key == "astra" then "ASTRA Generated"
    else Capitalize(part)
  }

  predicate KnownToken(key: string)
  {
    key in ["er", "me", "groundtruth", "ground_truth", "successful", "unsuccessful",
            "strategies", "match", "allstrategies", "all_strategies", "astra"]
  }

  /** Tokens are recognised whatever their case; anything else is
      capitalised. */
  lemma MapPartCases(part: string)
    ensures Lower(part) == "er" ==> MapPart(part) == "Equivalent Ratios"
    ensures Lower(part) == "astra" ==> MapPart(part) == "ASTRA Generated"
    ensures !KnownToken(Lower(part)) ==> MapPart(part) == Capitalize(part)
  {
  }

  function MapParts(parts: seq<string>): (r: seq<string>)
    ensures |r| == |parts| && forall i :: 0 <= i < |parts| ==> r[i] == MapPart(parts[i])
  {
    if parts == [] then [] else MapParts(parts[..|parts| - 1]) + [MapPart(parts[|parts| - 1])]
  }

  /** The name without its extension, split at each hyphen, each part
      mapped, joined with single spaces. */
  function ParseFileTitle(filename: string): string
  {
    Join(MapParts(Split(StripCsvExtension(filename), '-')), " ")
  }

  lemma {:induction false} JoinKeepsOut(parts: seq<string>, c: char)
    requires forall i :: 0 <= i < |parts| ==> c !in parts[i]
    requires c != ' '
    ensures c !in Join(parts, " ")
  {
    if |parts| > 1 {
      JoinKeepsOut(parts[1..], c);
      assert Join(parts, " ") == parts[0] + " " + Join(parts[1..], " ");
    }
  }

  lemma LowerKeepsOut(s: string, c: char)
    requires c !in s && !('A' <= c <= 'Z') && !('a' <= c <= 'z')
    ensures c !in Lower(s)
  {
    assert forall i :: 0 <= i < |s| ==> Lower(s)[i] == LowerChar(s[i]) != c;
  }

  const Phrases: seq<string> := ["Equivalent Ratios", "Means & Extremes", "Ground Truth", "Successful",
    "Unsuccessful", "Strategies", "Match", "All Strategies", "ASTRA Generated"]

  lemma SwitchCases(key: string, part: string)
    ensures if KnownToken(key) then Switch(key, part) in Phrases else Switch(key, part) == Capitalize(part)
  {
  }

  lemma PhrasesNoHyphen()
    ensures forall i :: 0 <= i < |Phrases| ==> '-' !in Phrases[i]
  {
  }

  /** The phrases of the switch contain no hyphen, and neither does a
      capitalised part that had none. */
  lemma SwitchNoHyphen(key: string, part: string)
    requires '-' !in part
    ensures '-' !in Switch(key, part)
  {
    SwitchCases(key, part);
    if KnownToken(key) {
      PhrasesNoHyphen();
    } else if part != [] {
      assert '-' !in part[1..] by {
        assert forall k :: 0 <= k < |part[1..]| ==> part[1..][k] == part[k + 1];
      }
      LowerKeepsOut(part[1..], '-');
      assert Switch(key, part) == [UpperChar(part[0])] + Lower(part[1..]);
    }
  }

  /** Every hyphen of the name becomes a word break: the title has none. */
  lemma TitleHasNoHyphen(filename: string)
    ensures '-' !in ParseFileTitle(filename)
  {
    var parts := Split(StripCsvExtension(filename), '-');
    var mapped := MapParts(parts);
    forall i | 0 <= i < |mapped| ensures '-' !in mapped[i] {
      SwitchNoHyphen(Lower(parts[i]), parts[i]);
    }
    JoinKeepsOut(mapped, '-');
  }

  /** A name without hyphens is one mapped part. */
  lemma SinglePartTitle(filename: string)
    requires '-' !in StripCsvExtension(filename)
    ensures ParseFileTitle(filename) == MapPart(StripCsvExtension(filename))
  {
    var name := StripCsvExtension(filename);
    SplitJoin([name], '-');
  }

  // ---------------------------------------------------------------------------
  // getFileTypeIcon
  // ---------------------------------------------------------------------------

  /** The icons, by what they stand for. */
  datatype Icon = AstraIcon | SuccessfulIcon | UnsuccessfulIcon | RatiosIcon | ExtremesIcon | FileIcon

  /** As written: the chain tests 'successful' before 'unsuccessful'. */
  function GetFileTypeIcon(filename: string): Icon
  {
    if Includes(filename, "astra") then AstraIcon
    else if Includes(filename, "successful") then SuccessfulIcon
    else if Includes(filename, "unsuccessful") then UnsuccessfulIcon
    else if Includes(filename, "ER") then RatiosIcon
    else if Includes(filename, "ME") then ExtremesIcon
    else FileIcon
  }

  /** A name containing 'unsuccessful' contains 'successful'. */
  lemma UnsuccessfulContainsSuccessful(filename: string)
    requires Includes(filename, "unsuccessful")
    ensures Includes(filename, "successful")
  {
    IncludesIsHasSlice(filename, "unsuccessful");
    IncludesIsHasSlice(filename, "successful");
    var i :| OccursAt(filename, "unsuccessful", i);
    assert filename[i + 2..i + 12] == filename[i..i + 12][2..];
    assert "unsuccessful"[2..] == "successful";
    assert OccursAt(filename, "successful", i + 2);
  }

  /** So the unsuccessful icon is never chosen: an unsuccessful-strategies
      file shows the successful icon. */
  lemma UnsuccessfulIconUnreachable(filename: string)
    ensures GetFileTypeIcon(filename) != UnsuccessfulIcon
    ensures Includes(filename, "unsuccessful") && !Includes(filename, "astra") ==>
      GetFileTypeIcon(filename) == SuccessfulIcon
  {
    if Includes(filename, "unsuccessful") {
      UnsuccessfulContainsSuccessful(filename);
    }
  }

  /** The priority of the markers as written, for the icons it can give. */
  lemma GetFileTypeIconPriority(filename: string)
    ensures GetFileTypeIcon(filename) == AstraIcon <==> Includes(filename, "astra")
    ensures GetFileTypeIcon(filename) == SuccessfulIcon <==>
      !Includes(filename, "astra") && Includes(filename, "successful")
    ensures GetFileTypeIcon(filename) == RatiosIcon <==>
      !Includes(filename, "astra") && !Includes(filename, "successful") && Includes(filename, "ER")
    ensures GetFileTypeIcon(filename) == ExtremesIcon <==>
      !Includes(filename, "astra") && !Includes(filename, "successful") && !Includes(filename, "ER") &&
      Includes(filename, "ME")
  {
    if Includes(filename, "unsuccessful") {
      UnsuccessfulContainsSuccessful(filename);
    }
  }

  /** Corrected: the longer marker is tested first. */
  function FileTypeIcon(filename: string): Icon
  {
    if Includes(filename, "astra") then AstraIcon
    else if Includes(filename, "unsuccessful") then UnsuccessfulIcon
    else if Includes(filename, "successful") then SuccessfulIcon
    else if Includes(filename, "ER") then RatiosIcon
    else if Includes(filename, "ME") then ExtremesIcon
    else FileIcon
  }

  /** Each marker now selects its own icon, in the priority astra,
      unsuccessful, successful, ER, ME; and only the names containing
      'unsuccessful' are treated differently from the chain as written. */
  lemma FileTypeIconPriority(filename: string)
    ensures FileTypeIcon(filename) == UnsuccessfulIcon <==>
      !Includes(filename, "astra") && Includes(filename, "unsuccessful")
    ensures FileTypeIcon(filename) == SuccessfulIcon <==>
      !Includes(filename, "astra") && !Includes(filename, "unsuccessful") && Includes(filename, "successful")
    ensures !Includes(filename, "unsuccessful") ==> FileTypeIcon(filename) == GetFileTypeIcon(filename)
  {
  }

  /** A name lacking the first character of a marker does not contain it. */
  lemma MissingFirstChar(s: string, marker: string)
    requires marker != [] && marker[0] !in s
    ensures !Includes(s, marker)
  {
    IncludesIsHasSlice(s, marker);
    forall i | 0 <= i && i + |marker| <= |s| ensures !OccursAt(s, marker, i) {
      assert s[i..i + |marker|][0] == s[i];
    }
  }

  /** The unsuccessful icon is now reachable. */
  lemma UnsuccessfulIconReachable()
    ensures FileTypeIcon("unsuccessful") == UnsuccessfulIcon
  {
    assert Includes("unsuccessful", "unsuccessful");
    MissingFirstChar("unsuccessful", "astra");
  }
}
