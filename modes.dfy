/**
 * The two open-mode encodings of LoFS (src/LoFS.h:54-68): a small integer
 * (0 read, 1 write) on STM32WL/NRF52 and a mode string ("r", "w") on
 * ESP32/RP2040. Both are normalised to one of two intents.
 */
module Modes {
  import opened Wrappers

  newtype uint8 = x: int | 0 <= x < 256

  /** The two intents an open can express. */
  datatype Mode = Read | Write

  /** The integer encoding; any value other than 0 and 1 names no mode. */
  function ModeOfFlag(flag: uint8): (m: Option<Mode>)
    ensures m.Some? <==> flag <= 1
    ensures m == Some(Read) <==> flag == 0
    ensures m == Some(Write) <==> flag == 1
  {
    if flag == 0 then Some(Read)
    else if flag == 1 then Some(Write)
    else None
  }

  /** The string encoding; any string other than "r" and "w" names no mode. */
  function ModeOfString(s: string): (m: Option<Mode>)
    ensures m.Some? <==> s == "r" || s == "w"
    ensures m == Some(Read) <==> s == "r"
    ensures m == Some(Write) <==> s == "w"
  {
    if s == "r" then Some(Read)
    else if s == "w" then Some(Write)
    else None
  }

  function FlagOf(m: Mode): uint8
  {
    if m == Read then 0 else 1
  }

  function StringOf(m: Mode): string
  {
    if m == Read then "r" else "w"
  }

  /** Each intent has one integer and one string spelling, and they decode back to it. */
  lemma EncodingsRoundTrip(m: Mode)
    ensures ModeOfFlag(FlagOf(m)) == Some(m)
    ensures ModeOfString(StringOf(m)) == Some(m)
  {
  }

  /**
   * The two overloads agree: a flag and a string name the same intent
   * exactly when they are 0 and "r", or 1 and "w".
   */
  lemma OverloadsAgree(flag: uint8, s: string)
    ensures (ModeOfFlag(flag).Some? && ModeOfFlag(flag) == ModeOfString(s)) <==>
            (flag == 0 && s == "r") || (flag == 1 && s == "w")
  {
  }
}
