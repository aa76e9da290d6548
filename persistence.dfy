/** The name of the file a candidate record is saved under:
    `f"{full_name.replace(' ', '_')}_{timestamp}.json"`. The timestamp is
    read from the clock as `%Y%m%d_%H%M%S`; here it is a parameter. */
module Persistence {
  import opened PyStr

  /** `full_name.replace(" ", "_")`. */
  function SanitizeName(fullName: string): (r: string)
    ensures |r| == |fullName| && ' ' !in r
    ensures forall i :: 0 <= i < |r| && fullName[i] != ' ' ==> r[i] == fullName[i]
    ensures forall i :: 0 <= i < |r| && fullName[i] == ' ' ==> r[i] == '_'
  {
    ReplaceChar(fullName, ' ', '_')
  }

  /** The saved file's name, without the output directory. */
  function OutputFileName(fullName: string, timestamp: string): (r: string)
    ensures |r| == |fullName| + |timestamp| + 6
    ensures r[..|fullName|] == SanitizeName(fullName) && r[|fullName|] == '_'
    ensures r[|fullName| + 1..|fullName| + 1 + |timestamp|] == timestamp
    ensures r[|r| - 5..] == ".json"
  {
    var r := SanitizeName(fullName) + "_" + timestamp + ".json";
    assert r[|fullName| + 1..|fullName| + 1 + |timestamp|] == timestamp;
    r
  }

  predicate IsDigit(c: char)
  {
    '0' <= c <= '9'
  }

  /** The shape `datetime.now().strftime("%Y%m%d_%H%M%S")` produces for a
      four-digit year: eight digits, an underscore, six digits. */
  predicate WellFormedTimestamp(t: string)
  {
    |t| == 15 && t[8] == '_' &&
    (forall i :: 0 <= i < 15 && i != 8 ==> IsDigit(t[i]))
  }

  // ---------------------------------------------------------------------
  // Facts about the file name

  /** Two names sanitise alike exactly when they have the same length and
      differ only where one has a blank and the other a blank or an
      underscore. */
  lemma SanitizeCollidesIff(a: string, b: string)
    ensures SanitizeName(a) == SanitizeName(b) <==>
      |a| == |b| &&
      forall i :: 0 <= i < |a| ==> a[i] == b[i] || (a[i] in " _" && b[i] in " _")
  {
    if |a| == |b| && forall i :: 0 <= i < |a| ==> a[i] == b[i] || (a[i] in " _" && b[i] in " _") {
      forall i | 0 <= i < |a| ensures SanitizeName(a)[i] == SanitizeName(b)[i] {
        assert ReplaceChar(a, ' ', '_')[i] == (if a[i] == ' ' then '_' else a[i]);
        assert ReplaceChar(b, ' ', '_')[i] == (if b[i] == ' ' then '_' else b[i]);
      }
    }
    if SanitizeName(a) == SanitizeName(b) {
      forall i | 0 <= i < |a| ensures a[i] == b[i] || (a[i] in " _" && b[i] in " _") {
        assert ReplaceChar(a, ' ', '_')[i] == ReplaceChar(b, ' ', '_')[i];
      }
    }
  }

  /** Sanitising a sanitised name changes nothing. */
  lemma SanitizeIdempotent(fullName: string)
    ensures SanitizeName(SanitizeName(fullName)) == SanitizeName(fullName)
  {
  }

  /** With well-formed timestamps the file name gives back the sanitised name
      and the timestamp: equal file names mean equal both. */
  lemma FileNameDetermines(n1: string, t1: string, n2: string, t2: string)
    requires WellFormedTimestamp(t1) && WellFormedTimestamp(t2)
    requires OutputFileName(n1, t1) == OutputFileName(n2, t2)
    ensures SanitizeName(n1) == SanitizeName(n2) && t1 == t2
  {
  }

  /** `"Ada Lovelace"` and `"Ada_Lovelace"` saving in the same second write
      the same file. */
  lemma BlankAndUnderscoreCollide(timestamp: string)
    ensures OutputFileName("Ada Lovelace", timestamp) == OutputFileName("Ada_Lovelace", timestamp)
  {
    SanitizeCollidesIff("Ada Lovelace", "Ada_Lovelace");
  }
}
