/**
 * The emoji allow-list applied to a reaction before it is stored
 * (isSupportedEmoji and isOnlySupportedEmojis in pkg/api/handlers.go).
 * A Go string is ranged over code point by code point; here the string is
 * already that sequence of code points. A byte sequence that is not valid
 * UTF-8 yields U+FFFD in Go, which the allow-list rejects (InvalidUtf8Rejected).
 */
module Emoji {

  /** The eight closed Unicode ranges a reaction may draw its code points from. */
  predicate IsSupportedEmoji(r: char)
    ensures IsSupportedEmoji(r) ==> 0x2600 <= r as int <= 0x1F9FF
  {
    var c := r as int;
    (0x1F600 <= c <= 0x1F64F)     // Emoticons
    || (0x1F300 <= c <= 0x1F5FF)  // Miscellaneous Symbols and Pictographs
    || (0x1F680 <= c <= 0x1F6FF)  // Transport and Map Symbols
    || (0x2600 <= c <= 0x26FF)    // Miscellaneous Symbols
    || (0x2700 <= c <= 0x27BF)    // Dingbats
    || (0xFE00 <= c <= 0xFE0F)    // Variation Selectors
    || (0x1F900 <= c <= 0x1F9FF)  // Supplemental Symbols and Pictographs
    || (0x1F1E6 <= c <= 0x1F1FF)  // Regional Indicator Symbols
  }

  /** Every code point of s is on the allow-list. */
  predicate OnlySupportedEmojis(s: string)
  {
    forall i | 0 <= i < |s| :: IsSupportedEmoji(s[i])
  }

  /** The validator as the handler runs it: a scan that stops at the first rejected code point. */
  method IsOnlySupportedEmojis(s: string) returns (ok: bool)
    ensures ok <==> OnlySupportedEmojis(s)
  {
    for i := 0 to |s|
      invariant forall j | 0 <= j < i :: IsSupportedEmoji(s[j])
    {
      if !IsSupportedEmoji(s[i]) {
        return false;
      }
    }
    return true;
  }

  /**
   * The allow-list as six disjoint blocks in ascending order: the eight
   * ranges overlap nowhere, and two pairs of them are adjacent.
   */
  lemma SupportedBlocks(r: char)
    ensures IsSupportedEmoji(r) <==>
      var c := r as int;
      (0x2600 <= c <= 0x27BF) || (0xFE00 <= c <= 0xFE0F) || (0x1F1E6 <= c <= 0x1F1FF)
      || (0x1F300 <= c <= 0x1F64F) || (0x1F680 <= c <= 0x1F6FF) || (0x1F900 <= c <= 0x1F9FF)
  {
  }

  /** No allowed code point lies below U+2600, so no ASCII character is allowed. */
  lemma NothingBelowMiscSymbols(r: char)
    requires r as int < 0x2600
    ensures !IsSupportedEmoji(r)
  {
  }

  /** The replacement character that malformed UTF-8 decodes to is rejected. */
  lemma InvalidUtf8Rejected()
    ensures !OnlySupportedEmojis("\U{FFFD}")
  {
    assert !IsSupportedEmoji("\U{FFFD}"[0]);
  }

  /** The empty string passes the validator. */
  lemma EmptyAccepted()
    ensures OnlySupportedEmojis("")
  {
  }

  /** A string passes exactly when both of its halves pass (closure under concatenation, and its converse). */
  lemma ConcatAccepted(a: string, b: string)
    ensures OnlySupportedEmojis(a + b) <==> OnlySupportedEmojis(a) && OnlySupportedEmojis(b)
  {
    if OnlySupportedEmojis(a + b) {
      forall i | 0 <= i < |a| ensures IsSupportedEmoji(a[i]) {
        assert (a + b)[i] == a[i];
      }
      forall i | 0 <= i < |b| ensures IsSupportedEmoji(b[i]) {
        assert (a + b)[|a| + i] == b[i];
      }
    }
  }

  /** Every substring of an accepted string is accepted. */
  lemma SubstringAccepted(s: string, i: int, j: int)
    requires 0 <= i <= j <= |s|
    requires OnlySupportedEmojis(s)
    ensures OnlySupportedEmojis(s[i..j])
  {
    forall k | 0 <= k < j - i ensures IsSupportedEmoji(s[i..j][k]) {
      assert s[i..j][k] == s[i + k];
    }
  }

  /** A string holding any code point below U+2600 (any ASCII letter, say 'A') is rejected. */
  lemma LowCodePointRejected(s: string, k: int)
    requires 0 <= k < |s| && s[k] as int < 0x2600
    ensures !OnlySupportedEmojis(s)
  {
    NothingBelowMiscSymbols(s[k]);
  }

  /** A thumbs-up (U+1F44D) is accepted; a single 'A' is rejected. */
  lemma Examples()
    ensures OnlySupportedEmojis("\U{1F44D}")
    ensures !OnlySupportedEmojis("A")
  {
    assert IsSupportedEmoji("\U{1F44D}"[0]);
    assert !IsSupportedEmoji("A"[0]);
  }
}
