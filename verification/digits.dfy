/**
 The digit helpers of the trainer page: the random digit string, the
 Chinese-numeral table, the spoken form handed to speech synthesis, and the
 clamp on the requested digit count.
 */
module Digits {

  /** One random decimal digit, as drawn for each position. */
  type Digit = x: int | 0 <= x <= 9

  /** One random non-zero digit, as drawn to replace a leading zero. */
  type LeadDigit = x: int | 1 <= x <= 9 witness 1

  predicate IsDigitChar(c: char) {
    '0' <= c <= '9'
  }

  predicate IsDigitString(s: string) {
    forall i :: 0 <= i < |s| ==> IsDigitChar(s[i])
  }

  /** The decimal character of a digit, as string concatenation writes it. */
  function DigitChar(d: Digit): (c: char)
    ensures IsDigitChar(c)
    ensures c as int - '0' as int == d
  {
    (d + '0' as int) as char
  }

  // ---------- random digits ----------

  /**
   `randomNDigitString(n, allowZeroLead)` with the random draws injected:
   `draws[i]` is the digit drawn for position `i`, and `lead` is the extra
   draw used to replace a leading zero.
   */
  method RandomNDigitString(n: int, allowZeroLead: bool, draws: seq<Digit>, lead: LeadDigit) returns (s: string)
    requires n <= |draws|
    ensures n <= 0 ==> s == ""
    ensures n > 0 ==> |s| == n
    ensures IsDigitString(s)
    ensures forall i :: 1 <= i < |s| ==> s[i] == DigitChar(draws[i])
    ensures n > 0 && (allowZeroLead || draws[0] != 0) ==> s[0] == DigitChar(draws[0])
    ensures n > 0 && !allowZeroLead && draws[0] == 0 ==> s[0] == DigitChar(lead)
    ensures n > 0 && !allowZeroLead ==> s[0] != '0'
  {
    if n <= 0 {
      return "";
    }
    s := "";
    var i := 0;
    while i < n
      invariant 0 <= i <= n
      invariant |s| == i
      invariant forall k :: 0 <= k < i ==> s[k] == DigitChar(draws[k])
    {
      s := s + [DigitChar(draws[i])];
      i := i + 1;
    }
    if !allowZeroLead && s[0] == '0' {
      s := [DigitChar(lead)] + s[1..];
    }
  }

  // ---------- Chinese numerals ----------

  /** `zhMap`: the Chinese numeral of each decimal digit, indexed by digit. */
  const ZH_NUMERALS: seq<char> := ['零', '一', '二', '三', '四', '五', '六', '七', '八', '九']

  predicate IsZhNumeral(c: char) {
    c in ZH_NUMERALS
  }

  /** A digit becomes its numeral; any other character stays as it is. */
  function ZhChar(c: char): char {
    if IsDigitChar(c) then ZH_NUMERALS[c as int - '0' as int] else c
  }

  /** `toChineseDigits`: maps every character through the numeral table. */
  function ToChineseDigits(s: string): (r: string)
    ensures |r| == |s|
    ensures forall i :: 0 <= i < |s| && IsDigitChar(s[i]) ==> IsZhNumeral(r[i]) && r[i] == ZH_NUMERALS[s[i] as int - '0' as int]
    ensures forall i :: 0 <= i < |s| && !IsDigitChar(s[i]) ==> r[i] == s[i]
    ensures forall i :: 0 <= i < |s| ==> r[i] == ZhChar(s[i])
  {
    if |s| == 0 then [] else [ZhChar(s[0])] + ToChineseDigits(s[1..])
  }

  /** The digit a numeral stands for; the inverse of the numeral table. */
  function FromZhChar(c: char): char {
    if c == '零' then '0' else if c == '一' then '1' else if c == '二' then '2'
    else if c == '三' then '3' else if c == '四' then '4' else if c == '五' then '5'
    else if c == '六' then '6' else if c == '七' then '7' else if c == '八' then '8'
    else if c == '九' then '9' else c
  }

  function FromChineseDigits(s: string): (r: string)
    ensures |r| == |s|
    ensures forall i :: 0 <= i < |s| ==> r[i] == FromZhChar(s[i])
  {
    if |s| == 0 then [] else [FromZhChar(s[0])] + FromChineseDigits(s[1..])
  }

  /** Distinct digits have distinct numerals, and each numeral reads back as its digit. */
  lemma ZhCharInjective(c: char, d: char)
    requires IsDigitChar(c) && IsDigitChar(d)
    ensures FromZhChar(ZhChar(c)) == c
    ensures c != d ==> ZhChar(c) != ZhChar(d)
  {
  }

  /** On digit strings, converting to numerals and back is the identity. */
  lemma {:induction false} ChineseDigitsRoundTrip(s: string)
    requires IsDigitString(s)
    ensures FromChineseDigits(ToChineseDigits(s)) == s
  {
    if |s| > 0 {
      ZhCharInjective(s[0], s[0]);
      ChineseDigitsRoundTrip(s[1..]);
      assert ToChineseDigits(s) == [ZhChar(s[0])] + ToChineseDigits(s[1..]);
    }
  }

  // ---------- spoken form ----------

  /** Where the `k`-th character lands in a text joined with `sep`. */
  function Slot(k: int, sep: string): int {
    k * (|sep| + 1)
  }

  /**
   `r` is `cs` joined with `sep`: the `k`-th character at `Slot(k, sep)`,
   and a copy of `sep` right after each character but the last.
   */
  predicate JoinedAt(r: string, cs: string, sep: string) {
    && (|cs| == 0 ==> r == "")
    && (|cs| >= 1 ==> |r| == |cs| + (|cs| - 1) * |sep|)
    && (forall k :: 0 <= k < |cs| ==> 0 <= Slot(k, sep) < |r| && r[Slot(k, sep)] == cs[k])
    && (forall k, j :: 0 <= k < |cs| - 1 && 0 <= j < |sep| ==>
          Slot(k, sep) + 1 + j < |r| && r[Slot(k, sep) + 1 + j] == sep[j])
  }

  /** Each slot lies one character and one separator past the one before it. */
  lemma SlotShift(k: int, sep: string)
    ensures Slot(k, sep) == Slot(k - 1, sep) + |sep| + 1
  {
  }

  /** In front of a joined tail, the tail's characters move up by one slot. */
  lemma JoinStepChars(cs: string, sep: string, rest: string)
    requires |cs| >= 2
    requires JoinedAt(rest, cs[1..], sep)
    ensures forall k :: 0 <= k < |cs| ==>
              0 <= Slot(k, sep) < |[cs[0]] + sep + rest| && ([cs[0]] + sep + rest)[Slot(k, sep)] == cs[k]
  {
    var r := [cs[0]] + sep + rest;
    forall k | 0 <= k < |cs|
      ensures 0 <= Slot(k, sep) < |r| && r[Slot(k, sep)] == cs[k]
    {
      SlotShift(k, sep);
      if k > 0 {
        assert cs[1..][k - 1] == cs[k];
        assert r[Slot(k, sep)] == rest[Slot(k - 1, sep)];
      }
    }
  }

  /** In front of a joined tail, the tail's separators move up by one slot, and a new one follows the first character. */
  lemma JoinStepSeps(cs: string, sep: string, rest: string)
    requires |cs| >= 2
    requires JoinedAt(rest, cs[1..], sep)
    ensures forall k, j :: 0 <= k < |cs| - 1 && 0 <= j < |sep| ==>
              Slot(k, sep) + 1 + j < |[cs[0]] + sep + rest| && ([cs[0]] + sep + rest)[Slot(k, sep) + 1 + j] == sep[j]
  {
    var r := [cs[0]] + sep + rest;
    forall k, j | 0 <= k < |cs| - 1 && 0 <= j < |sep|
      ensures Slot(k, sep) + 1 + j < |r| && r[Slot(k, sep) + 1 + j] == sep[j]
    {
      SlotShift(k, sep);
      if k > 0 {
        assert r[Slot(k, sep) + 1 + j] == rest[Slot(k - 1, sep) + 1 + j];
      }
    }
  }

  /** Joining one more character in front keeps the layout. */
  lemma JoinStep(cs: string, sep: string, rest: string)
    requires |cs| >= 2
    requires JoinedAt(rest, cs[1..], sep)
    ensures JoinedAt([cs[0]] + sep + rest, cs, sep)
  {
    JoinStepChars(cs, sep, rest);
    JoinStepSeps(cs, sep, rest);
  }

  /** The characters of `cs` with `sep` between each two neighbours. */
  function JoinChars(cs: string, sep: string): (r: string)
    ensures JoinedAt(r, cs, sep)
  {
    if |cs| == 0 then ""
    else if |cs| == 1 then
      assert Slot(0, sep) == 0;
      [cs[0]]
    else
      var rest := JoinChars(cs[1..], sep);
      JoinStep(cs, sep, rest);
      [cs[0]] + sep + rest
  }

  /** The text with every character in `drop` removed. */
  function Strip(s: string, drop: set<char>): (r: string)
    ensures |r| <= |s|
    ensures forall i :: 0 <= i < |r| ==> r[i] !in drop
  {
    if |s| == 0 then ""
    else if s[0] in drop then Strip(s[1..], drop)
    else [s[0]] + Strip(s[1..], drop)
  }

  lemma {:induction false} StripAppend(a: string, b: string, drop: set<char>)
    ensures Strip(a + b, drop) == Strip(a, drop) + Strip(b, drop)
  {
    if |a| > 0 {
      assert (a + b)[1..] == a[1..] + b;
      StripAppend(a[1..], b, drop);
    } else {
      assert a + b == b;
    }
  }

  lemma {:induction false} StripAll(s: string, drop: set<char>)
    requires forall i :: 0 <= i < |s| ==> s[i] in drop
    ensures Strip(s, drop) == ""
  {
    if |s| > 0 {
      StripAll(s[1..], drop);
    }
  }

  /**
   Removing the separator characters from a joined text gives back the
   characters joined, provided none of them is a separator character.
   */
  lemma {:induction false} StripJoin(cs: string, sep: string, drop: set<char>)
    requires forall i :: 0 <= i < |sep| ==> sep[i] in drop
    requires forall i :: 0 <= i < |cs| ==> cs[i] !in drop
    ensures Strip(JoinChars(cs, sep), drop) == cs
  {
    if |cs| == 1 {
      assert JoinChars(cs, sep) == [cs[0]];
      assert Strip([cs[0]], drop) == [cs[0]] + Strip([], drop);
    } else if |cs| > 1 {
      StripJoin(cs[1..], sep, drop);
      StripAll(sep, drop);
      StripAppend([cs[0]], sep + JoinChars(cs[1..], sep), drop);
      StripAppend(sep, JoinChars(cs[1..], sep), drop);
      assert [cs[0]] + sep + JoinChars(cs[1..], sep) == [cs[0]] + (sep + JoinChars(cs[1..], sep));
      assert Strip([cs[0]], drop) == [cs[0]] + Strip([], drop);
      assert cs == [cs[0]] + cs[1..];
    }
  }

  /** The separator of the per-digit form for languages other than Chinese. */
  const LATIN_SEP: string := ", "

  /** The separator of the per-digit form for Chinese: the ideographic comma. */
  const ZH_SEP: string := "、"

  /** The language tag begins with "zh" (case-sensitive). */
  predicate IsChinese(lang: string) {
    "zh" <= lang
  }

  /** The layout of a text joined with ", ": digits at multiples of three, the separator between. */
  lemma LatinLayout(r: string, digs: string)
    requires JoinedAt(r, digs, LATIN_SEP)
    ensures forall k :: 0 <= k < |digs| ==> 3 * k < |r| && r[3 * k] == digs[k]
    ensures forall k :: 0 <= k < |digs| - 1 ==> 3 * k + 2 < |r| && r[3 * k + 1] == ',' && r[3 * k + 2] == ' '
  {
    forall k | 0 <= k < |digs| ensures 3 * k < |r| && r[3 * k] == digs[k] {
      assert Slot(k, LATIN_SEP) == 3 * k;
    }
    forall k | 0 <= k < |digs| - 1 ensures 3 * k + 2 < |r| && r[3 * k + 1] == ',' && r[3 * k + 2] == ' ' {
      assert Slot(k, LATIN_SEP) == 3 * k;
      assert r[Slot(k, LATIN_SEP) + 1 + 0] == LATIN_SEP[0];
      assert r[Slot(k, LATIN_SEP) + 1 + 1] == LATIN_SEP[1];
    }
  }

  /** The layout of a text joined with "、": the characters at even positions, the comma between. */
  lemma ZhLayout(r: string, cs: string)
    requires JoinedAt(r, cs, ZH_SEP)
    ensures forall k :: 0 <= k < |cs| ==> 2 * k < |r| && r[2 * k] == cs[k]
    ensures forall k :: 0 <= k < |cs| - 1 ==> 2 * k + 1 < |r| && r[2 * k + 1] == '、'
  {
    forall k | 0 <= k < |cs| ensures 2 * k < |r| && r[2 * k] == cs[k] {
      assert Slot(k, ZH_SEP) == 2 * k;
    }
    forall k | 0 <= k < |cs| - 1 ensures 2 * k + 1 < |r| && r[2 * k + 1] == '、' {
      assert Slot(k, ZH_SEP) == 2 * k;
      assert r[Slot(k, ZH_SEP) + 1 + 0] == ZH_SEP[0];
    }
  }

  /** `spokenForm(digs, lang, perDigitMode)`. */
  function SpokenForm(digs: string, lang: string, perDigit: bool): (r: string)
    ensures !perDigit && !IsChinese(lang) ==> r == digs
    ensures !perDigit && IsChinese(lang) ==> r == ToChineseDigits(digs)
    ensures perDigit && !IsChinese(lang) ==> JoinedAt(r, digs, LATIN_SEP)
    ensures perDigit && IsChinese(lang) ==> JoinedAt(r, ToChineseDigits(digs), ZH_SEP)
    ensures perDigit && |digs| >= 1 && !IsChinese(lang) ==> |r| == 3 * |digs| - 2
    ensures perDigit && !IsChinese(lang) ==> forall k :: 0 <= k < |digs| ==> r[3 * k] == digs[k]
    ensures perDigit && !IsChinese(lang) ==> forall k :: 0 <= k < |digs| - 1 ==> r[3 * k + 1] == ',' && r[3 * k + 2] == ' '
    ensures perDigit && |digs| >= 1 && IsChinese(lang) ==> |r| == 2 * |digs| - 1
    ensures perDigit && IsChinese(lang) ==> forall k :: 0 <= k < |digs| ==> r[2 * k] == ZhChar(digs[k])
    ensures perDigit && IsChinese(lang) ==> forall k :: 0 <= k < |digs| - 1 ==> r[2 * k + 1] == '、'
  {
    if perDigit then
      if IsChinese(lang) then
        var zh := ToChineseDigits(digs);
        var r := JoinChars(zh, ZH_SEP);
        ZhLayout(r, zh);
        r
      else
        var r := JoinChars(digs, LATIN_SEP);
        LatinLayout(r, digs);
        r
    else if IsChinese(lang) then ToChineseDigits(digs)
    else digs
  }

  /** For a language other than Chinese, the per-digit form read without ", " is the digit string. */
  lemma SpokenLatinRecovers(digs: string, lang: string)
    requires IsDigitString(digs) && !IsChinese(lang)
    ensures Strip(SpokenForm(digs, lang, true), {',', ' '}) == digs
  {
    StripJoin(digs, LATIN_SEP, {',', ' '});
  }

  /**
   For Chinese, the per-digit form read without the ideographic comma and
   with each numeral read back as its digit is the digit string.
   */
  lemma SpokenChineseRecovers(digs: string, lang: string)
    requires IsDigitString(digs) && IsChinese(lang)
    ensures FromChineseDigits(Strip(SpokenForm(digs, lang, true), {'、'})) == digs
  {
    var zh := ToChineseDigits(digs);
    forall i | 0 <= i < |zh| ensures zh[i] !in {'、'} {
      assert IsZhNumeral(zh[i]);
    }
    StripJoin(zh, ZH_SEP, {'、'});
    ChineseDigitsRoundTrip(digs);
  }

  // ---------- digit count ----------

  /** The requested digit count, forced into the range 1 to 24. */
  function ClampDigitCount(n: int): (r: int)
    ensures 1 <= r <= 24
    ensures 1 <= n <= 24 ==> r == n
    ensures n < 1 ==> r == 1
    ensures n > 24 ==> r == 24
  {
    var upper := if n < 24 then n else 24;
    if upper > 1 then upper else 1
  }
}
