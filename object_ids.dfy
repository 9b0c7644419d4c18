/**
 * The part of BSON's ObjectId that the review refresh relies on: turning
 * the text of a request parameter into a twelve-byte id (`ObjectId(s)`
 * on a 24-character text, decoded by `bytes.fromhex`; anything else raises
 * `InvalidId`) and the canonical text of an id (`str(oid)`, 24 lower-case
 * hex digits). `bytes.fromhex` also skips ASCII whitespace between digit
 * pairs, so the source turns a 24-character text with such whitespace into
 * an id shorter than twelve bytes; this model accepts only the texts made
 * of 24 hex digits and rejects those.
 */
module ObjectIds {
  import opened Wrappers

  type Byte = x: int | 0 <= x < 256

  /** A BSON ObjectId: twelve bytes. */
  type ObjectId = b: seq<Byte> | |b| == 12 witness [0, 0, 0, 0, 0, 0, 0, 0, 0, 0, 0, 0]

  predicate IsHexDigit(ch: char)
  {
    '0' <= ch <= '9' || 'a' <= ch <= 'f' || 'A' <= ch <= 'F'
  }

  predicate IsLowerHexDigit(ch: char)
  {
    '0' <= ch <= '9' || 'a' <= ch <= 'f'
  }

  predicate AllHex(s: string)
  {
    forall i :: 0 <= i < |s| ==> IsHexDigit(s[i])
  }

  function DigitValue(ch: char): (v: nat)
    requires IsHexDigit(ch)
    ensures v < 16
  {
    if '0' <= ch <= '9' then ch as int - '0' as int
    else if 'a' <= ch <= 'f' then ch as int - 'a' as int + 10
    else ch as int - 'A' as int + 10
  }

  /** The lower-case hex digit of a value below 16; `DigitValue` undoes it. */
  function LowerDigit(v: nat): (ch: char)
    requires v < 16
    ensures IsLowerHexDigit(ch) && DigitValue(ch) == v
  {
    if v < 10 then ('0' as int + v) as char else ('a' as int + v - 10) as char
  }

  /** `bytes.fromhex` on a string of an even number of hex digits. */
  function DecodeHex(s: string): (b: seq<Byte>)
    requires |s| % 2 == 0 && AllHex(s)
    ensures |b| == |s| / 2
  {
    if s == [] then []
    else
      assert AllHex(s[2..]) by {
        forall i | 0 <= i < |s| - 2 ensures IsHexDigit(s[2..][i]) { assert s[2..][i] == s[i + 2]; }
      }
      [DigitValue(s[0]) * 16 + DigitValue(s[1])] + DecodeHex(s[2..])
  }

  /** `bytes.hex()`: two lower-case hex digits per byte. */
  function EncodeHex(b: seq<Byte>): (s: string)
    ensures |s| == 2 * |b|
    ensures forall i :: 0 <= i < |s| ==> IsLowerHexDigit(s[i])
  {
    if b == [] then []
    else [LowerDigit(b[0] / 16), LowerDigit(b[0] % 16)] + EncodeHex(b[1..])
  }

  /** Decoding the hex text of some bytes gives those bytes back. */
  lemma {:induction false} DecodeEncode(b: seq<Byte>)
    ensures AllHex(EncodeHex(b)) && DecodeHex(EncodeHex(b)) == b
  {
    if b != [] {
      DecodeEncode(b[1..]);
      var s := EncodeHex(b);
      assert s[2..] == EncodeHex(b[1..]);
    }
  }

  /**
   * `ObjectId(s)` for a text `s`, restricted to texts without whitespace: an
   * id exactly when `s` is 24 hex digits, `InvalidId` otherwise.
   */
  function Parse(s: string): (r: Option<ObjectId>)
    ensures r.Some? <==> |s| == 24 && AllHex(s)
  {
    if |s| == 24 && AllHex(s) then Some(DecodeHex(s)) else None
  }

  /** `str(oid)`. */
  function Text(id: ObjectId): (s: string)
    ensures |s| == 24
  {
    EncodeHex(id)
  }

  /** The text of every id parses back to that id. */
  lemma ParseText(id: ObjectId)
    ensures Parse(Text(id)) == Some(id)
  {
    DecodeEncode(id);
  }

  function Lower(ch: char): (r: char)
  {
    if 'A' <= ch <= 'F' then (ch as int - 'A' as int + 'a' as int) as char else ch
  }

  /** A hex text decodes the same as its lower-case form, so the two name the same id. */
  lemma {:induction false} DecodeLower(s: string)
    requires |s| % 2 == 0 && AllHex(s)
    ensures AllHex(seq(|s|, i requires 0 <= i < |s| => Lower(s[i])))
    ensures DecodeHex(s) == DecodeHex(seq(|s|, i requires 0 <= i < |s| => Lower(s[i])))
  {
    var t := seq(|s|, i requires 0 <= i < |s| => Lower(s[i]));
    assert forall i :: 0 <= i < |s| ==> IsHexDigit(t[i]) && DigitValue(t[i]) == DigitValue(s[i]);
    if s != [] {
      DecodeLower(s[2..]);
      assert t[2..] == seq(|s| - 2, i requires 0 <= i < |s| - 2 => Lower(s[2..][i]));
    }
  }

  /** Parsing then printing an id gives the input in lower case: upper- and lower-case hex name the same id. */
  lemma TextOfParse(s: string)
    requires Parse(s).Some?
    ensures Text(Parse(s).value) == seq(|s|, i requires 0 <= i < |s| => Lower(s[i]))
  {
    var t := seq(|s|, i requires 0 <= i < |s| => Lower(s[i]));
    DecodeLower(s);
    EncodeDecode(t);
  }

  /** Encoding the bytes of a lower-case hex text gives that text back. */
  lemma {:induction false} EncodeDecode(s: string)
    requires |s| % 2 == 0 && AllHex(s) && forall i :: 0 <= i < |s| ==> IsLowerHexDigit(s[i])
    ensures EncodeHex(DecodeHex(s)) == s
  {
    if s != [] {
      EncodeDecode(s[2..]);
      var b := DecodeHex(s);
      assert b[1..] == DecodeHex(s[2..]);
      var v := DigitValue(s[0]) * 16 + DigitValue(s[1]);
      assert b[0] == v;
      assert v / 16 == DigitValue(s[0]) && v % 16 == DigitValue(s[1]);
    }
  }

  /** The detail of the `InvalidId` that `ObjectId(s)` raises for a text `s`. */
  function InvalidIdMessage(s: string): (m: string)
    ensures |m| > |s| + 2 && m[0] == '\'' && m[1..|s| + 1] == s && m[|s| + 1] == '\''
  {
    var quoted := "'" + s + "'";
    var m := quoted + " is not a valid ObjectId, it must be a 12-byte input or a 24-character hex string";
    assert m[1..|s| + 1] == s && m[|s| + 1] == quoted[|s| + 1];
    m
  }
}
