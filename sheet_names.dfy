/**
 * The sheet-name normalisation of export_to_excel: a KPI table's name is cut
 * to the 31 characters a workbook sheet name may hold, then every '/' and
 * every '\' becomes '_'.
 */
module ExcelExport {
  import DataFrame

  /** The longest sheet name a workbook accepts. */
  const MaxSheetNameLength: nat := 31

  /** str.replace(from, to) with single-character arguments: every occurrence is replaced. */
  function ReplaceChar(s: string, from: char, to: char): (r: string)
    ensures |r| == |s|
    ensures forall i | 0 <= i < |s| :: r[i] == (if s[i] == from then to else s[i])
    ensures from != to ==> from !in r
  {
    if s == [] then []
    else (if s[0] == from then [to] else [s[0]]) + ReplaceChar(s[1..], from, to)
  }

  /**
   * safe_name: at most 31 characters, no '/' and no '\'; the i-th character
   * is the name's i-th character, with '/' and '\' turned into '_'.
   */
  function SafeSheetName(name: string): (r: string)
    ensures |r| == if |name| < MaxSheetNameLength then |name| else MaxSheetNameLength
    ensures '/' !in r && '\\' !in r
    ensures forall i | 0 <= i < |r| :: r[i] == (if name[i] == '/' || name[i] == '\\' then '_' else name[i])
  {
    // name[:31] is limit(31) on the characters
    ReplaceChar(ReplaceChar(DataFrame.Limit(name, MaxSheetNameLength), '/', '_'), '\\', '_')
  }

  /** A name that is already short enough and has no '/' or '\' is kept as it is. */
  lemma SafeSheetNameKeepsSafe(name: string)
    requires |name| <= MaxSheetNameLength
    requires '/' !in name && '\\' !in name
    ensures SafeSheetName(name) == name
  {
    var r := SafeSheetName(name);
    forall i | 0 <= i < |r| ensures r[i] == name[i] {
      assert name[i] in name;
    }
  }

  /** Normalising a normalised name changes nothing. */
  lemma SafeSheetNameIdempotent(name: string)
    ensures SafeSheetName(SafeSheetName(name)) == SafeSheetName(name)
  {
    SafeSheetNameKeepsSafe(SafeSheetName(name));
  }
}
