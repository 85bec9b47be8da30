/** `SvcBusService.Truncate`: clip a (nullable) string to a maximum length in UTF-16 code units. */
module Truncation {
  import opened Wrappers
  import opened Text

  /** The default `maxLength`, used by every call in the extractor. */
  const DefaultMaxLength: nat := 50000

  /** Appended to a clipped string. */
  const Marker := "..."

  /**
   * Null and empty give the empty string, a string of at most `maxLength`
   * code units is returned unchanged, a longer one keeps its first
   * `maxLength` code units followed by the marker.
   */
  function Truncate(input: Option<string>, maxLength: nat): (r: string)
    ensures Utf16Length(r) <= maxLength + |Marker| && |r| <= maxLength + |Marker|
    ensures r == "" <==> input == None || input == Some("")
    ensures input.Some? && Utf16Length(input.value) <= maxLength ==> r == input.value
    ensures input.Some? && Utf16Length(input.value) > maxLength ==>
      Utf16Length(r) == maxLength + |Marker| && r == Utf16Prefix(input.value, maxLength) + Marker
    ensures forall c :: c in r ==> c == '.' || c == LoneSurrogate || (input.Some? && c in input.value)
  {
    match input
    case None => ""
    case Some(s) =>
      Utf16LengthBounds(s);
      if |s| == 0 then ""
      else if Utf16Length(s) > maxLength then
        var p := Utf16Prefix(s, maxLength);
        Utf16LengthAppend(p, Marker);
        Utf16LengthBounds(p + Marker);
        assert forall c :: c in p + Marker ==> c in p || c in Marker;
        p + Marker
      else s
  }

  /** Clipping twice is clipping once, so the extractor's nested calls change nothing. */
  lemma TruncateIdempotent(input: Option<string>, maxLength: nat)
    ensures Truncate(Some(Truncate(input, maxLength)), maxLength) == Truncate(input, maxLength)
  {
    if input.Some? && Utf16Length(input.value) > maxLength {
      var p := Utf16Prefix(input.value, maxLength);
      Utf16PrefixOfJoin(p, Marker);
    }
  }

  /**
   * One emoji is one scalar but two code units: with a limit of one it is
   * clipped, and the cut leaves half of its surrogate pair.
   */
  lemma SurrogatePairIsCut()
    ensures Truncate(Some("\U{1F600}"), 1) == [LoneSurrogate] + Marker
  {
    var s := "\U{1F600}";
    assert Utf16Length(s) == 2;
    assert Utf16Prefix(s, 1) == [LoneSurrogate];
  }
}
