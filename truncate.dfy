/** The relay client's per-message length cap (`truncate_message`). */
module Truncation {
  import opened Utf8

  /** Cap applied to every inbound payload and every generated reply. */
  const MAX_MESSAGE_LENGTH: nat := 500

  /** The three bytes of "...", appended to a cut message. */
  const DOTS: seq<Byte> := [0x2E, 0x2E, 0x2E]

  /** When `truncate_message(msg, maxLen)` returns instead of panicking: a message
      that fits is returned as is; a longer one needs `maxLen - 3` not to
      underflow and to fall on a character boundary of `msg`. */
  predicate CanTruncate(msg: seq<Byte>, maxLen: nat)
    ensures |msg| <= maxLen ==> CanTruncate(msg, maxLen)
    ensures |msg| > maxLen && maxLen < 3 ==> !CanTruncate(msg, maxLen)
    ensures |msg| > maxLen >= 3 ==>
              (CanTruncate(msg, maxLen) <==> maxLen == 3 || !IsContinuation(msg[maxLen - 3]))
  {
    |msg| <= maxLen || (maxLen >= 3 && IsCharBoundary(msg, maxLen - 3))
  }

  /** `truncate_message` as written: cut to the first `maxLen - 3` bytes and
      append "...". */
  function TruncateMessage(msg: seq<Byte>, maxLen: nat): (r: seq<Byte>)
    requires CanTruncate(msg, maxLen)
    ensures |r| <= maxLen
    ensures |msg| <= maxLen ==> r == msg
    ensures |msg| > maxLen ==> |r| == maxLen && r[..maxLen - 3] == msg[..maxLen - 3] && r[maxLen - 3..] == DOTS
  {
    if |msg| <= maxLen then msg else msg[..maxLen - 3] + DOTS
  }

  /** A 501-byte valid UTF-8 message: 496 'a', then "é" (0xC3 0xA9), then "aaa".
      Byte 497 is the second byte of "é". */
  function SplitCharacterMessage(): seq<Byte> {
    seq(496, _ => 0x61 as Byte) + [0xC3, 0xA9] + [0x61, 0x61, 0x61]
  }

  /** The cut of `truncate_message` at byte 497 falls inside "é", so the slice
      `&msg[..497]` panics on this message. */
  lemma TruncateMessagePanicsMidCharacter()
    ensures |SplitCharacterMessage()| == 501 > MAX_MESSAGE_LENGTH
    ensures !CanTruncate(SplitCharacterMessage(), MAX_MESSAGE_LENGTH)
  {
    var m := SplitCharacterMessage();
    assert m[497] == 0xA9;
  }

  /** The cap the relay evidently intends: a message that fits is kept; a longer
      one is cut at the last character boundary not past `maxLen - 3` and gets
      "..." appended, so no character is ever split. */
  function TruncateOnBoundary(msg: seq<Byte>, maxLen: nat): (r: seq<Byte>)
    requires |msg| > maxLen ==> maxLen >= 3
    ensures |r| <= maxLen
    ensures |msg| <= maxLen ==> r == msg
    ensures |msg| > maxLen ==>
              && 3 <= |r|
              && r[..|r| - 3] == msg[..|r| - 3]
              && r[|r| - 3..] == DOTS
              && IsCharBoundary(msg, |r| - 3)
              && forall j :: |r| - 3 < j <= maxLen - 3 ==> !IsCharBoundary(msg, j)
  {
    if |msg| <= maxLen then msg
    else
      var k := FloorCharBoundary(msg, maxLen - 3);
      msg[..k] + DOTS
  }

  /** Wherever the original does not panic, the corrected cap gives the same bytes. */
  lemma TruncateOnBoundaryAgrees(msg: seq<Byte>, maxLen: nat)
    requires CanTruncate(msg, maxLen)
    ensures TruncateOnBoundary(msg, maxLen) == TruncateMessage(msg, maxLen)
  {
  }

  /** On the message that makes the original panic, the corrected cap keeps the
      496 bytes before "é" and appends "...". */
  lemma TruncateOnBoundaryAtSplitCharacter()
    ensures TruncateOnBoundary(SplitCharacterMessage(), MAX_MESSAGE_LENGTH)
            == SplitCharacterMessage()[..496] + DOTS
  {
    var m := SplitCharacterMessage();
    assert m[497] == 0xA9 && m[496] == 0xC3;
    assert IsCharBoundary(m, 496);
    assert FloorCharBoundary(m, 497) == 496;
  }

  /** Capping twice is capping once: a capped message already fits. */
  lemma TruncateOnBoundaryIdempotent(msg: seq<Byte>, maxLen: nat)
    requires |msg| > maxLen ==> maxLen >= 3
    ensures TruncateOnBoundary(TruncateOnBoundary(msg, maxLen), maxLen) == TruncateOnBoundary(msg, maxLen)
  {
  }
}
