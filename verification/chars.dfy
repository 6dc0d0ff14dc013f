/**
  The character size metric (`CharCounter` in src/splitter/chars.rs): the number of
  Unicode scalar values of a text, which is not its number of UTF-8 bytes.
*/
module Chars {
  import opened Results
  import opened Utf8

  /** The size the character metric gives a text: `text.chars().count()`. */
  function Count(text: string): nat {
    |text|
  }

  /** The metric counts scalar values, not bytes: one per byte of the text's UTF-8 encoding
      that is not a continuation byte, so never more than the number of bytes. */
  lemma CountsScalars(text: string)
    ensures Count(text) == LeadBytes(Encode(text)) <= |Encode(text)|
  {
    DecodeEncode(text);
    ScalarCount(Encode(text));
  }

  /** The worked example: "café" is five UTF-8 bytes but measures 4. */
  lemma CafeExample()
    ensures Decode([0x63, 0x61, 0x66, 0xC3, 0xA9]) == Some("caf\U{E9}")
    ensures Count("caf\U{E9}") == 4
  {
    var s := "caf\U{E9}";
    assert EncodeScalar(s[3]) == [0xC3, 0xA9];
    assert Encode(s[3..]) == [0xC3, 0xA9];
    assert Encode(s) == [0x63, 0x61, 0x66, 0xC3, 0xA9];
    DecodeEncode(s);
  }
}
