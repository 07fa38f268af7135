/** The JSON-shaped Python values the scraper builds: strings, integers,
    lists and dictionaries. */
module Json {

  datatype Json = JStr(str: string) | JInt(num: int) | JArr(items: seq<Json>) | JObj(fields: map<string, Json>)

  /** A list of strings as a JSON list. */
  function Strs(ss: seq<string>): (r: seq<Json>)
    ensures |r| == |ss|
    ensures forall i :: 0 <= i < |ss| ==> r[i].JStr? && r[i].str == ss[i]
  {
    seq(|ss|, i requires 0 <= i < |ss| => JStr(ss[i]))
  }
}
