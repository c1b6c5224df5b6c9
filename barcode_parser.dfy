/**
 * The HIK and Dahua barcode classifier (`parse_barcode_data`): the first
 * decoded payload, trimmed, becomes the serial number, unless it is empty or
 * looks like an IMOU QR payload.
 */
module BarcodeParser {
  import opened Wrappers
  import opened Text

  /** The staged scan of a HIK or Dahua label: the serial number only. */
  datatype BarcodeData = BarcodeData(sn: string)

  /** The three failures, in the order they are checked. */
  datatype BarcodeError = NotFound | EmptyContent | WrongFormat

  /** The message shown for each failure. */
  function Message(e: BarcodeError): string
  {
    match e
    case NotFound => "Không tìm thấy đối tượng Barcode trong ảnh."
    case EmptyContent => "Nội dung Barcode rỗng."
    case WrongFormat => "Nội dung Barcode không đúng định dạng."
  }

  /** Each failure has its own message: an empty barcode is never reported
      as a format error, nor the other way round. */
  lemma MessagesDistinct(a: BarcodeError, b: BarcodeError)
    ensures Message(a) == Message(b) <==> a == b
  {
  }

  /** The characters of the QR payload shape, refused in a barcode. */
  const Reserved: set<char> := {'{', '}', ':', ','}

  predicate HasReserved(s: string)
  {
    exists i | 0 <= i < |s| :: s[i] in Reserved
  }

  /** `parse_barcode_data` over the decoded payloads: the pair (data, error).
      Only the first payload is read. */
  function ParseBarcode(payloads: seq<string>): (r: (Option<BarcodeData>, Option<BarcodeError>))
    ensures r.0.Some? != r.1.Some?
  {
    if payloads == [] then (None, Some(NotFound))
    else
      var content := Strip(payloads[0]);
      if content == [] then (None, Some(EmptyContent))
      else if HasReserved(content) then (None, Some(WrongFormat))
      else (Some(BarcodeData(content)), None)
  }

  /** The failures and when each one is reported: no payload, then a payload
      that is whitespace only, then one that holds a reserved character
      anywhere. */
  lemma ParseBarcodeErrors(payloads: seq<string>)
    ensures ParseBarcode(payloads).1 == Some(NotFound) <==> payloads == []
    ensures ParseBarcode(payloads).1 == Some(EmptyContent) <==>
              payloads != [] && forall i | 0 <= i < |payloads[0]| :: payloads[0][i] in Whitespace
    ensures ParseBarcode(payloads).1 == Some(WrongFormat) <==>
              && payloads != []
              && (exists i | 0 <= i < |payloads[0]| :: payloads[0][i] !in Whitespace)
              && (exists i | 0 <= i < |payloads[0]| :: payloads[0][i] in Reserved)
  {
    if payloads != [] {
      var s := payloads[0];
      StripCharsEmptyIff(s, Whitespace);
      var content := Strip(s);
      StripCharsIsMaximalSlice(s, Whitespace);
      var lo, hi :| 0 <= lo <= hi <= |s| && content == s[lo..hi];
      if exists i | 0 <= i < |s| :: s[i] in Reserved {
        var i :| 0 <= i < |s| && s[i] in Reserved;
        StripCharsKeeps(s, Whitespace, i);
        assert HasReserved(content);
      }
      if HasReserved(content) {
        var j :| 0 <= j < |content| && content[j] in Reserved;
        assert s[lo + j] in Reserved;
      }
    }
  }

  /** A successful scan carries the trimmed first payload: non-empty, with
      no reserved character and nothing left to trim. */
  lemma ParseBarcodeSuccess(payloads: seq<string>)
    requires ParseBarcode(payloads).0.Some?
    ensures var sn := ParseBarcode(payloads).0.value.sn;
      && sn == Strip(payloads[0])
      && sn != []
      && (forall i | 0 <= i < |sn| :: sn[i] !in Reserved)
      && Strip(sn) == sn
  {
    StripCharsIdempotent(payloads[0], Whitespace);
  }

  /** Clean text, non-empty after trimming, is accepted as the serial number. */
  lemma ParseBarcodeAccepts(s: string, rest: seq<string>)
    requires exists i | 0 <= i < |s| :: s[i] !in Whitespace
    requires forall i | 0 <= i < |s| :: s[i] !in Reserved
    ensures ParseBarcode([s] + rest) == (Some(BarcodeData(Strip(s))), None)
  {
    ParseBarcodeErrors([s] + rest);
  }

  /** Payloads after the first play no part. */
  lemma ParseBarcodeFirstOnly(payloads: seq<string>)
    requires payloads != []
    ensures ParseBarcode(payloads) == ParseBarcode(payloads[..1])
  {
  }
}
