/**
 * The text side of `openFile`: decode the file's bytes, optionally delete
 * the readings, and restore the scan position saved for the file.
 *
 * The saved position is an offset into the text, but the code as written
 * compares it with the length of the raw bytes, before decoding. A
 * multi-byte encoding makes the text shorter than the bytes, so a saved
 * position can pass the clamp and still lie beyond the end of the text.
 * `RestorePositionAsWritten` and `OpenDocumentAsWritten` model the code as
 * written; `RestorePosition` clamps against the text, as intended, and is
 * the one the corrected `OpenDocument` uses.
 */
module OpenFile {
  import Encoding
  import Readings

  /** The clamp as written: a position past the byte length becomes 0. */
  function RestorePositionAsWritten(saved: nat, byteLength: nat): (position: nat)
    ensures position <= byteLength
    ensures saved <= byteLength ==> position == saved
  {
    if saved > byteLength then 0 else saved
  }

  /**
   * The input that shows the discrepancy: `日本語` in UTF-8 is 9 bytes but 3
   * characters, and a saved position of 5 passes the clamp.
   */
  lemma AsWrittenPassesTextEnd()
    ensures var text := "日本語";
      var byteLength := 9;
      RestorePositionAsWritten(5, byteLength) == 5 > |text|
  {
  }

  /** Whenever the text is shorter than the bytes, some saved position escapes the text. */
  lemma AsWrittenEscapes(byteLength: nat, textLength: nat)
    requires textLength < byteLength
    ensures RestorePositionAsWritten(byteLength, byteLength) > textLength
  {
  }

  /** The clamp against the decoded text: a position inside the text is kept, any other becomes 0. */
  function RestorePosition(saved: nat, textLength: nat): (position: nat)
    ensures position <= textLength
    ensures saved <= textLength ==> position == saved
    ensures saved > textLength ==> position == 0
  {
    if saved > textLength then 0 else saved
  }

  /**
   * `openFile` as written: the saved position is clamped against the raw
   * byte length first, then the bytes are decoded and the readings deleted
   * when the preference says so. The position is bounded by the bytes only.
   */
  method OpenDocumentAsWritten(raw: seq<Encoding.byte>, savedPosition: nat, strict: Encoding.StrictDecoder,
                               lossy: Encoding.LossyDecoder, order: seq<Encoding.Codec>, stripReadings: bool)
    returns (content: string, encoding: Encoding.Codec, scanPosition: nat)
    requires Encoding.IsIterationOrder(order)
    ensures var (decoded, codec) := Encoding.Resolve(raw, strict, lossy, order);
      && encoding == codec
      && content == (if stripReadings then Readings.StripContentReadings(decoded) else decoded)
    ensures scanPosition <= |raw|
    ensures savedPosition <= |raw| ==> scanPosition == savedPosition
  {
    scanPosition := RestorePositionAsWritten(savedPosition, |raw|);
    content, encoding := Encoding.DecodeContent(raw, strict, lossy, order);
    if stripReadings {
      content := Readings.StripContentReadings(content);
    }
  }

  /**
   * `openFile` corrected: the same decoding and deletion of readings, with
   * the saved position clamped against the text that is shown.
   */
  method OpenDocument(raw: seq<Encoding.byte>, savedPosition: nat, strict: Encoding.StrictDecoder,
                      lossy: Encoding.LossyDecoder, order: seq<Encoding.Codec>, stripReadings: bool)
    returns (content: string, encoding: Encoding.Codec, scanPosition: nat)
    requires Encoding.IsIterationOrder(order)
    ensures var (decoded, codec) := Encoding.Resolve(raw, strict, lossy, order);
      && encoding == codec
      && content == (if stripReadings then Readings.StripContentReadings(decoded) else decoded)
    ensures scanPosition <= |content|
    ensures savedPosition <= |content| ==> scanPosition == savedPosition
  {
    content, encoding := Encoding.DecodeContent(raw, strict, lossy, order);
    if stripReadings {
      content := Readings.StripContentReadings(content);
    }
    scanPosition := RestorePosition(savedPosition, |content|);
  }
}
