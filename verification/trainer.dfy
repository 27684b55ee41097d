/** The start of a round on the trainer page: the digits drawn and the text spoken. */
module Trainer {
  import opened Digits

  /**
   The Speak button's handler, from the parsed digit count to the text
   passed to speech synthesis: the count is clamped, that many digits are
   drawn, and their per-digit spoken form is built.
   */
  method StartRound(requested: int, allowZeros: bool, lang: string, draws: seq<Digit>, lead: LeadDigit)
    returns (digits: string, toSpeak: string)
    requires ClampDigitCount(requested) <= |draws|
    ensures 1 <= |digits| <= 24
    ensures |digits| == ClampDigitCount(requested)
    ensures 1 <= requested <= 24 ==> |digits| == requested
    ensures IsDigitString(digits)
    ensures forall i :: 1 <= i < |digits| ==> digits[i] == DigitChar(draws[i])
    ensures allowZeros || draws[0] != 0 ==> digits[0] == DigitChar(draws[0])
    ensures !allowZeros && draws[0] == 0 ==> digits[0] == DigitChar(lead)
    ensures !allowZeros ==> digits[0] != '0'
    ensures toSpeak == SpokenForm(digits, lang, true)
    ensures !IsChinese(lang) ==> |toSpeak| == 3 * |digits| - 2 && Strip(toSpeak, {',', ' '}) == digits
    ensures IsChinese(lang) ==> |toSpeak| == 2 * |digits| - 1 && FromChineseDigits(Strip(toSpeak, {'、'})) == digits
  {
    var n := ClampDigitCount(requested);
    digits := RandomNDigitString(n, allowZeros, draws, lead);
    toSpeak := SpokenForm(digits, lang, true);
    if IsChinese(lang) {
      SpokenChineseRecovers(digits, lang);
    } else {
      SpokenLatinRecovers(digits, lang);
    }
  }
}
