/** Command-line options and the consumer's initial offset policy. */
module Config {
  import opened Wrappers

  /** Where a new consumer group starts reading (librdkafka's auto.offset.reset). */
  datatype Offset = Earliest | Latest

  /** The options the tool is started with; nothing changes them afterwards. */
  datatype CliOptions = CliOptions(
    bootstrapServers: string,
    topic: string,
    groupId: string,
    offset: Offset,
    filter: string)

  /** Lower-casing of one character, restricted to ASCII letters. */
  function LowerChar(c: char): char
  {
    if 'A' <= c <= 'Z' then ((c as int) + 32) as char else c
  }

  /** Lower-casing of a string, character by character. */
  function ToLower(s: string): (r: string)
    ensures |r| == |s|
    ensures forall i :: 0 <= i < |s| ==> r[i] == LowerChar(s[i])
  {
    if s == [] then [] else [LowerChar(s[0])] + ToLower(s[1..])
  }

  /** `a` and `b` spell the same word when letter case is ignored. */
  predicate SameIgnoringCase(a: string, b: string)
  {
    |a| == |b| && forall i :: 0 <= i < |a| ==> LowerChar(a[i]) == LowerChar(b[i])
  }

  /** `Offset::from_str`: accepts either policy name in any letter case. */
  function OffsetFromStr(arg: string): (r: Result<Offset, string>)
    ensures r == Ok(Earliest) <==> SameIgnoringCase(arg, "earliest")
    ensures r == Ok(Latest) <==> SameIgnoringCase(arg, "latest")
    ensures r.Err? <==> !SameIgnoringCase(arg, "earliest") && !SameIgnoringCase(arg, "latest")
    ensures r.Err? ==> r.error == "Invalid offset: " + arg + ". Must be one of earliest or latest"
  {
    var lower := ToLower(arg);
    if lower == "earliest" then Ok(Earliest)
    else if lower == "latest" then Ok(Latest)
    else Err("Invalid offset: " + arg + ". Must be one of earliest or latest")
  }

  /** `Offset::to_string`: the policy's lower-case name. */
  function OffsetToString(o: Offset): (s: string)
    ensures ToLower(s) == s
    ensures SameIgnoringCase(s, "earliest") <==> o == Earliest
    ensures SameIgnoringCase(s, "latest") <==> o == Latest
  {
    match o
    case Earliest => "earliest"
    case Latest => "latest"
  }

  /** The printed name is all lower case and the two policies print differently. */
  lemma OffsetToStringLowercase(o: Offset, p: Offset)
    ensures ToLower(OffsetToString(o)) == OffsetToString(o)
    ensures OffsetToString(o) == OffsetToString(p) <==> o == p
  {
  }

  /** Printing then parsing gives back the policy. */
  lemma OffsetRoundTrip(o: Offset)
    ensures OffsetFromStr(OffsetToString(o)) == Ok(o)
  {
  }

  /** Parsing then printing gives the lower-cased input. */
  lemma OffsetParsePrint(arg: string)
    requires OffsetFromStr(arg).Ok?
    ensures OffsetToString(OffsetFromStr(arg).value) == ToLower(arg)
  {
  }
}
