/** Choice of the narration voice when the advert starts: the first voice
    whose lower-cased name contains "en-in", else the first whose language
    contains "en-in", else the first whose language starts with "en", else
    none (the platform default). */
module Voices {
  import opened Wrappers

  /** A voice offered by the speech engine. */
  datatype Voice = Voice(name: string, lang: string)

  /** The three preference rules, best first. */
  datatype Rule = NameHasEnIn | LangHasEnIn | LangStartsEn

  /** `toLowerCase` on one character (ASCII letters only). */
  function LowerChar(c: char): (r: char)
    ensures 'A' <= c <= 'Z' ==> 'a' <= r <= 'z'
    ensures !('A' <= c <= 'Z') ==> r == c
  {
    if 'A' <= c <= 'Z' then (c as int - 'A' as int + 'a' as int) as char else c
  }

  function ToLower(s: string): (r: string)
    ensures |r| == |s|
  {
    seq(|s|, i requires 0 <= i < |s| => LowerChar(s[i]))
  }

  predicate StartsWith(s: string, p: string) {
    |p| <= |s| && s[..|p|] == p
  }

  /** `p` occurs in `s` starting at position `i`. */
  predicate OccursAt(s: string, p: string, i: nat) {
    i + |p| <= |s| && s[i..i + |p|] == p
  }

  /** `String.prototype.includes`, scanning start positions from `k` on. */
  function ContainsFrom(s: string, p: string, k: nat): (r: bool)
    decreases |s| - k
    ensures r <==> exists i: nat :: k <= i && OccursAt(s, p, i)
  {
    if k + |p| > |s| then false
    else if OccursAt(s, p, k) then true
    else ContainsFrom(s, p, k + 1)
  }

  predicate Contains(s: string, p: string) {
    ContainsFrom(s, p, 0)
  }

  /** Whether a voice satisfies one preference rule. */
  predicate Matches(rule: Rule, v: Voice) {
    match rule
    case NameHasEnIn => Contains(ToLower(v.name), "en-in")
    case LangHasEnIn => Contains(ToLower(v.lang), "en-in")
    case LangStartsEn => StartsWith(ToLower(v.lang), "en")
  }

  /** `Array.prototype.find` from position `k`: the index of the first voice
      at or after `k` that satisfies `rule`. */
  function FindFrom(voices: seq<Voice>, rule: Rule, k: nat): (r: Option<nat>)
    decreases |voices| - k
    ensures r.Some? ==> k <= r.value < |voices| && Matches(rule, voices[r.value])
    ensures r.Some? ==> forall j :: k <= j < r.value ==> !Matches(rule, voices[j])
    ensures r.None? <==> forall j :: k <= j < |voices| ==> !Matches(rule, voices[j])
  {
    if k >= |voices| then None
    else if Matches(rule, voices[k]) then Some(k)
    else FindFrom(voices, rule, k + 1)
  }

  /** How well a single voice fits, independently of the others: 0 for the
      best rule it meets, up to 3 when it meets none. */
  function Rank(v: Voice): nat {
    if Matches(NameHasEnIn, v) then 0
    else if Matches(LangHasEnIn, v) then 1
    else if Matches(LangStartsEn, v) then 2
    else 3
  }

  /** The page's chained search: the name rule over every voice, then, only
      if nothing matched, the language rules in turn, else no voice. It
      returns the index of the chosen voice. It picks exactly the
      first voice of least rank, and nothing when every voice has rank 3. */
  function PreferredVoice(voices: seq<Voice>): (r: Option<nat>)
    ensures r.None? <==> forall j :: 0 <= j < |voices| ==> Rank(voices[j]) == 3
    ensures r.Some? ==> r.value < |voices| && Rank(voices[r.value]) < 3
    ensures r.Some? ==> forall j :: 0 <= j < |voices| ==> Rank(voices[r.value]) <= Rank(voices[j])
    ensures r.Some? ==> forall j :: 0 <= j < r.value ==> Rank(voices[r.value]) < Rank(voices[j])
  {
    var byName := FindFrom(voices, NameHasEnIn, 0);
    if byName.Some? then byName
    else
      var byLang := FindFrom(voices, LangHasEnIn, 0);
      if byLang.Some? then byLang
      else FindFrom(voices, LangStartsEn, 0)
  }

  /** A voice named "... en-IN" wins over an earlier voice whose language
      is "en-IN": the name rule is tried on every voice first. */
  lemma NameRuleBeatsEarlierLangMatch()
    ensures PreferredVoice([Voice("Rishi", "en-IN"), Voice("Google en-IN", "hi-IN")]) == Some(1)
  {
    var a := [Voice("Rishi", "en-IN"), Voice("Google en-IN", "hi-IN")];
    assert ToLower("Rishi") == "rishi";
    assert !OccursAt("rishi", "en-in", 0) by {
      assert "rishi"[0..5][0] == 'r';
    }
    assert !Matches(NameHasEnIn, a[0]);
    assert ToLower("Google en-IN") == "google en-in";
    assert OccursAt(ToLower(a[1].name), "en-in", 7);
  }

  /** With no English voice at all the page keeps the platform default. */
  lemma NoEnglishVoiceKeepsDefault()
    ensures PreferredVoice([Voice("Amelie", "fr-FR")]).None?
  {
    var v := Voice("Amelie", "fr-FR");
    assert ToLower("fr-FR") == "fr-fr";
    assert ToLower("Amelie") == "amelie";
    assert !OccursAt("amelie", "en-in", 0) by {
      assert "amelie"[0..5][0] == 'a';
    }
    assert !OccursAt("amelie", "en-in", 1) by {
      assert "amelie"[1..6][0] == 'm';
    }
    assert !OccursAt("fr-fr", "en-in", 0) by {
      assert "fr-fr"[0..5][0] == 'f';
    }
    assert !StartsWith("fr-fr", "en") by {
      assert "fr-fr"[..2][0] == 'f';
    }
    assert Rank(v) == 3;
  }
}
