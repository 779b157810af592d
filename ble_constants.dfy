/// src/ble/constants.js: the GATT identifiers, the app tag, and the wire codec
/// of characteristic values (UTF-8, then base64).
module BleConstants {
  import opened Common
  import Utf8
  import Base64

  /** The service every instance of the app advertises and scans for. */
  const ServiceUuid: string := "12345678-1234-5678-1234-56789abcdef0"
  /** Read-only characteristic holding the encoded app tag. */
  const CharUuidAppTag: string := "12345678-1234-5678-1234-56789abcdef2"
  /** Read/write characteristic holding the encoded install identity. */
  const CharUuidUserUuid: string := "12345678-1234-5678-1234-56789abcdef3"
  /** The fixed value that proves the other side runs this app. */
  const AppTag: string := "FELLOWSHIP_V1"

  /** `toBase64Utf8`: UTF-8 bytes of `s`, base64-encoded. The output has length
      4 * ceil(n / 3) for n UTF-8 bytes, uses only the alphabet and trailing `=`,
      and is empty exactly when `s` is. */
  function ToBase64Utf8(s: string): (r: string)
    ensures |r| == 4 * ((|Utf8.Encode(s)| + 2) / 3)
    ensures forall i :: 0 <= i < |r| ==> Base64.IsAlphabetChar(r[i]) || (r[i] == '=' && i >= |r| - 2)
    ensures r == [] <==> s == []
  {
    var bytes := Utf8.Encode(s);
    Base64.EncodeLength(bytes);
    Base64.EncodeAlphabet(bytes);
    Base64.Encode(bytes)
  }

  /** `fromBase64Utf8` on well-formed input; `None` where the text is not canonical
      base64 or the bytes are not UTF-8. Only the empty text decodes to the empty string. */
  function FromBase64Utf8(b64: string): (r: Option<string>)
    ensures r.Some? ==> (r.value == [] <==> b64 == [])
  {
    match Base64.Decode(b64)
    case None => None
    case Some(bytes) =>
      Base64.EncodeDecode(b64);
      Base64.EncodeLength(bytes);
      Utf8.Decode(bytes)
  }

  /** Decoding an encoded string gives the string back. */
  lemma RoundTrip(s: string)
    ensures FromBase64Utf8(ToBase64Utf8(s)) == Some(s)
  {
    Base64.DecodeEncode(Utf8.Encode(s));
    Utf8.DecodeEncode(s);
  }

  /** The codec is a bijection between strings and canonical payloads: a payload
      decodes to `s` exactly when it is the encoding of `s`. */
  lemma DecodesTo(b64: string, s: string)
    ensures FromBase64Utf8(b64) == Some(s) <==> b64 == ToBase64Utf8(s)
  {
    if FromBase64Utf8(b64) == Some(s) {
      var bytes := Base64.Decode(b64).value;
      Base64.EncodeDecode(b64);
      Utf8.EncodeDecode(bytes);
    }
    if b64 == ToBase64Utf8(s) {
      RoundTrip(s);
    }
  }

  /** The two characteristics the verification reads are distinct, and both belong
      to the service's UUID family (they share its first 35 characters) but differ
      from the service UUID itself. */
  lemma UuidsDistinct()
    ensures CharUuidAppTag != CharUuidUserUuid
    ensures ServiceUuid != CharUuidAppTag && ServiceUuid != CharUuidUserUuid
    ensures ServiceUuid[..35] == CharUuidAppTag[..35] == CharUuidUserUuid[..35]
  {
    assert CharUuidAppTag[35] != CharUuidUserUuid[35];
    assert ServiceUuid[35] != CharUuidAppTag[35];
  }

  /** The tag is the fixed string `FELLOWSHIP_V1`; it is not empty, so an empty or
      missing tag never matches it. */
  lemma AppTagNotEmpty()
    ensures |AppTag| == 13 && AppTag != []
  {
  }
}
