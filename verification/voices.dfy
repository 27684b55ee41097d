/**
 Voice selection on the trainer page: the option list of the voice picker
 with its selection-retention rule, and the choice of the voice to speak with.
 */
module Voices {
  import opened Wrappers

  /** A speech-synthesis voice; absent attributes are empty strings. */
  datatype Voice = Voice(voiceURI: string, name: string, lang: string)

  /** ASCII lower-casing of one character. */
  function LowerChar(c: char): char {
    if 'A' <= c <= 'Z' then (c as int + 32) as char else c
  }

  function Lower(s: string): (r: string)
    ensures |r| == |s|
    ensures forall i :: 0 <= i < |s| ==> r[i] == LowerChar(s[i])
  {
    if |s| == 0 then [] else [LowerChar(s[0])] + Lower(s[1..])
  }

  /** The voice has a language, and it begins with `lang` when both are lower-cased. */
  predicate SpeaksLang(v: Voice, lang: string) {
    v.lang != "" && Lower(lang) <= Lower(v.lang)
  }

  /** The voice's URI or its name is `id`. */
  predicate NamedBy(v: Voice, id: string) {
    v.voiceURI == id || v.name == id
  }

  // ---------- populateVoiceSelect ----------

  /** The voices offered for `lang`, in the order the host lists them. */
  function LangVoices(voices: seq<Voice>, lang: string): (r: seq<Voice>)
    ensures |r| <= |voices|
    ensures forall v :: v in r <==> v in voices && SpeaksLang(v, lang)
    ensures |voices| == 1 ==> r == if SpeaksLang(voices[0], lang) then voices else []
  {
    if |voices| == 0 then []
    else if SpeaksLang(voices[0], lang) then [voices[0]] + LangVoices(voices[1..], lang)
    else LangVoices(voices[1..], lang)
  }

  /**
   Filtering keeps the host's order: the voices offered from a list that is
   split in two are those offered from the first part, then those from the second.
   */
  lemma {:induction false} LangVoicesAppend(a: seq<Voice>, b: seq<Voice>, lang: string)
    ensures LangVoices(a + b, lang) == LangVoices(a, lang) + LangVoices(b, lang)
  {
    if |a| == 0 {
      assert a + b == b;
    } else {
      assert (a + b)[0] == a[0] && (a + b)[1..] == a[1..] + b;
      LangVoicesAppend(a[1..], b, lang);
    }
  }

  /** The value of a voice's option: its URI, else its name, else empty. */
  function OptionValue(v: Voice): (r: string)
    ensures v.voiceURI != "" ==> r == v.voiceURI
    ensures v.voiceURI == "" ==> r == v.name
    ensures r != "" ==> NamedBy(v, r)
    ensures r == "" <==> v.voiceURI == "" && v.name == ""
  {
    if v.voiceURI != "" then v.voiceURI else v.name
  }

  function OptionValues(voices: seq<Voice>): (r: seq<string>)
    ensures |r| == |voices|
    ensures forall i :: 0 <= i < |voices| ==> r[i] == OptionValue(voices[i])
  {
    if |voices| == 0 then [] else [OptionValue(voices[0])] + OptionValues(voices[1..])
  }

  /** The picker: its option values, first the automatic choice `""`, and the selected value. */
  datatype VoiceSelect = VoiceSelect(options: seq<string>, value: string)

  /**
   `populateVoiceSelect`: rebuilds the options for `lang` and keeps the
   previous selection if some option still has that value, else selects `""`.
   */
  function PopulateVoiceSelect(voices: seq<Voice>, lang: string, previous: string): (r: VoiceSelect)
    ensures |r.options| == |LangVoices(voices, lang)| + 1 && r.options[0] == ""
    ensures forall i :: 0 <= i < |LangVoices(voices, lang)| ==> r.options[i + 1] == OptionValue(LangVoices(voices, lang)[i])
    ensures r.value in r.options
    ensures r.value == previous <==> previous in r.options
    ensures r.value != previous ==> r.value == ""
  {
    var options := [""] + OptionValues(LangVoices(voices, lang));
    VoiceSelect(options, if previous in options then previous else "")
  }

  /** A non-empty selection names a voice of the listed ones that speaks the language. */
  lemma {:induction false} SelectionNamesVoice(voices: seq<Voice>, lang: string, previous: string)
    ensures var sel := PopulateVoiceSelect(voices, lang, previous).value;
            sel != "" ==> exists v :: v in voices && SpeaksLang(v, lang) && NamedBy(v, sel)
  {
    var r := PopulateVoiceSelect(voices, lang, previous);
    var langVoices := LangVoices(voices, lang);
    if r.value != "" {
      var k :| 0 <= k < |r.options| && r.options[k] == r.value;
      assert k > 0;
      var v := langVoices[k - 1];
      assert v in langVoices;
      assert OptionValue(v) == r.value;
    }
  }

  // ---------- chooseVoice ----------

  /** Index `i` holds the first voice named `id`. */
  predicate FirstNamed(voices: seq<Voice>, id: string, i: int) {
    0 <= i < |voices| && NamedBy(voices[i], id) && forall j :: 0 <= j < i ==> !NamedBy(voices[j], id)
  }

  /** Index `i` holds the first voice speaking `lang`. */
  predicate FirstSpeaking(voices: seq<Voice>, lang: string, i: int) {
    0 <= i < |voices| && SpeaksLang(voices[i], lang) && forall j :: 0 <= j < i ==> !SpeaksLang(voices[j], lang)
  }

  function FindNamed(voices: seq<Voice>, id: string): (r: Option<nat>)
    ensures r.Some? ==> FirstNamed(voices, id, r.value)
    ensures r.None? ==> forall i :: 0 <= i < |voices| ==> !NamedBy(voices[i], id)
  {
    if |voices| == 0 then None
    else if NamedBy(voices[0], id) then Some(0)
    else match FindNamed(voices[1..], id)
      case Some(i) => Some(i + 1)
      case None => None
  }

  function FindSpeaking(voices: seq<Voice>, lang: string): (r: Option<nat>)
    ensures r.Some? ==> FirstSpeaking(voices, lang, r.value)
    ensures r.None? ==> forall i :: 0 <= i < |voices| ==> !SpeaksLang(voices[i], lang)
  {
    if |voices| == 0 then None
    else if SpeaksLang(voices[0], lang) then Some(0)
    else match FindSpeaking(voices[1..], lang)
      case Some(i) => Some(i + 1)
      case None => None
  }

  /**
   `chooseVoice(lang, voiceURI)` over the host's voices `voices`; `fallback`
   is the host's first voice, if any, at the time of the call.
   */
  function ChooseVoice(voices: seq<Voice>, lang: string, voiceURI: string, fallback: Option<Voice>): (r: Option<Voice>)
    ensures |voices| == 0 ==> r == None
    ensures |voices| > 0 && voiceURI != "" && (exists i :: 0 <= i < |voices| && NamedBy(voices[i], voiceURI)) ==>
              exists i :: FirstNamed(voices, voiceURI, i) && r == Some(voices[i])
    ensures |voices| > 0 && (voiceURI == "" || forall i :: 0 <= i < |voices| ==> !NamedBy(voices[i], voiceURI)) &&
            (exists i :: 0 <= i < |voices| && SpeaksLang(voices[i], lang)) ==>
              exists i :: FirstSpeaking(voices, lang, i) && r == Some(voices[i])
    ensures |voices| > 0 && (voiceURI == "" || forall i :: 0 <= i < |voices| ==> !NamedBy(voices[i], voiceURI)) &&
            (forall i :: 0 <= i < |voices| ==> !SpeaksLang(voices[i], lang)) ==>
              r == fallback
  {
    if |voices| == 0 then None
    else
      var exact := if voiceURI != "" then FindNamed(voices, voiceURI) else None;
      if exact.Some? then Some(voices[exact.value])
      else match FindSpeaking(voices, lang)
        case Some(i) => Some(voices[i])
        case None => fallback
  }

  /**
   The selection the picker keeps is honoured: speaking with it picks a
   voice named by it.
   */
  lemma SelectedVoiceIsChosen(voices: seq<Voice>, lang: string, previous: string, fallback: Option<Voice>)
    ensures var sel := PopulateVoiceSelect(voices, lang, previous).value;
            sel != "" ==> var chosen := ChooseVoice(voices, lang, sel, fallback);
                          chosen.Some? && chosen.value in voices && NamedBy(chosen.value, sel)
  {
    var sel := PopulateVoiceSelect(voices, lang, previous).value;
    SelectionNamesVoice(voices, lang, previous);
    if sel != "" {
      var v :| v in voices && SpeaksLang(v, lang) && NamedBy(v, sel);
      var k :| 0 <= k < |voices| && voices[k] == v;
      var found := FindNamed(voices, sel);
      assert found.Some? by {
        assert NamedBy(voices[k], sel);
      }
      assert ChooseVoice(voices, lang, sel, fallback) == Some(voices[found.value]);
    }
  }
}
