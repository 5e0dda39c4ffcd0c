/**
 * `parseNote` of the newer discovery code: what a lock transaction's note
 * says.  A note is the raw bytes of the transaction note together with
 * their UTF-8 text; a 58-character text is an account address, otherwise
 * the text is read as a decimal number and then the bytes as a
 * hexadecimal one, each kept only when it matches the target asset.
 */
module Notes {
  import opened Wrappers
  import opened JsNumber
  import Text

  /** The `result` field: `null`, the address text, or the parsed number. */
  datatype NoteData = Null | Address(text: string) | Number(value: int)

  datatype NoteResult = NoteResult(isNumber: bool, isAddress: bool, result: NoteData)

  /** A parse is kept when it is a number and the target is falsy (0) or equal to it. */
  predicate Accepted(p: Option<int>, asa: int)
  {
    p.Some? && (asa == 0 || p.value == asa)
  }

  /**
   * The classification: an address, a number, or neither.  At most one flag
   * is set, the address path is taken exactly for 58-character texts, a
   * number matches a truthy target, and an unrecognised note carries `null`.
   */
  function ParseNote(note: seq<byte>, text: string, asa: int): (r: NoteResult)
    ensures !(r.isNumber && r.isAddress)
    ensures r.isAddress <==> |text| == 58
    ensures r.isAddress ==> r.result == Address(text)
    ensures r.isNumber ==> r.result.Number? && (asa != 0 ==> r.result.value == asa)
    ensures !r.isNumber && !r.isAddress ==> r.result == Null
  {
    if |text| == 58 then NoteResult(false, true, Address(text))
    else
      var decimal := ParseInt(text, 10);
      if Accepted(decimal, asa) then NoteResult(true, false, Number(decimal.value))
      else
        var hex := ParseInt(HexOf(note), 16);
        if Accepted(hex, asa) then NoteResult(true, false, Number(hex.value))
        else NoteResult(false, false, Null)
  }

  /**
   * The order of the fallbacks: the decimal reading of the text wins when it
   * is kept; otherwise the note is a number exactly when the big-endian
   * value of its bytes is kept, and then it is that value.
   */
  lemma {:induction false} NumberFallback(note: seq<byte>, text: string, asa: int)
    requires |text| != 58 && |note| > 0
    ensures var r := ParseNote(note, text, asa);
            var decimal := ParseInt(text, 10);
            if Accepted(decimal, asa) then r == NoteResult(true, false, Number(decimal.value))
            else (r.isNumber <==> asa == 0 || BigEndian(note) == asa)
                 && (r.isNumber ==> r.result == Number(BigEndian(note)))
  {
    ParseHexOf(note);
  }

  /** A note whose text spells a truthy target in decimal, with any non-digit text after it, is that number. */
  lemma {:induction false} DecimalNoteMatches(note: seq<byte>, asa: int, rest: string)
    requires asa != 0 && (rest == [] || !Text.IsDigit(rest[0]))
    requires |Text.IntToDecimal(asa) + rest| != 58
    ensures ParseNote(note, Text.IntToDecimal(asa) + rest, asa) == NoteResult(true, false, Number(asa))
  {
    ParseDecimal(asa, rest);
  }

  /**
   * A note whose bytes are the big-endian form of a truthy target is that
   * number, whatever its text is (short of an address).
   */
  lemma {:induction false} BinaryNoteMatches(note: seq<byte>, text: string, asa: int)
    requires asa != 0 && |note| > 0 && BigEndian(note) == asa && |text| != 58
    ensures ParseNote(note, text, asa) == NoteResult(true, false, Number(asa))
  {
    ParseHexOf(note);
  }

  /** With a truthy target, a note that is neither an address nor a number matches neither reading. */
  lemma {:induction false} Unrecognised(note: seq<byte>, text: string, asa: int)
    requires asa != 0 && |note| > 0
    requires var r := ParseNote(note, text, asa); !r.isNumber && !r.isAddress
    ensures |text| != 58 && ParseInt(text, 10) != Some(asa) && BigEndian(note) != asa
  {
    ParseHexOf(note);
    assert !Accepted(ParseInt(text, 10), asa) && !Accepted(ParseInt(HexOf(note), 16), asa);
  }
}
