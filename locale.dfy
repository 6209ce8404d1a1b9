/**
 * Turning a locale identifier such as "en_US" into the language code that
 * keys the registry: cut at the first '_' and fold ASCII upper case to lower
 * case. The C side cuts with `strchr` and `g_strndup`, the Python side with
 * `split("_")[0]`; both are defined here and proved to agree.
 */
module Locale {
  import opened Wrappers

  /** The separator between the language and the rest of a locale. */
  const Separator := '_'

  /** `strchr(s, c)`: the index of the first `c` in `s`, if any. */
  function Strchr(s: string, c: char): (r: Option<nat>)
    ensures r.Some? ==> r.value < |s| && s[r.value] == c && c !in s[..r.value]
    ensures r.None? ==> c !in s
  {
    if s == [] then None
    else if s[0] == c then Some(0)
    else
      match Strchr(s[1..], c)
      case None => None
      case Some(i) =>
        assert s[..i + 1] == [s[0]] + s[1..][..i];
        Some(i + 1)
  }

  /**
   * The language part of a locale as the C code cuts it: `strchr` for the
   * first '_', then `g_strndup` up to it, or `g_strdup` of the whole string.
   * The result is the longest prefix without '_'.
   */
  function LanguagePart(locale: string): (r: string)
    ensures Separator !in r
    ensures r <= locale
    ensures r == locale || locale[|r|] == Separator
  {
    match Strchr(locale, Separator)
    case Some(p) => locale[..p]
    case None => locale
  }

  /** `g_ascii_tolower`: only 'A' to 'Z' change. */
  function LowerChar(c: char): char {
    if 'A' <= c <= 'Z' then (c as int - 'A' as int + 'a' as int) as char else c
  }

  /** `g_ascii_strdown`: ASCII lower case, every other character kept. */
  function AsciiLower(s: string): (r: string)
    ensures |r| == |s|
    ensures forall i :: 0 <= i < |s| ==> r[i] == LowerChar(s[i])
  {
    seq(|s|, i requires 0 <= i < |s| => LowerChar(s[i]))
  }

  /** The registry key for a locale, as `ibus_get_untranslated_language_name` computes it. */
  function LanguageCode(locale: string): (code: string)
    ensures |code| <= |locale|
    ensures Separator !in code
    ensures forall i :: 0 <= i < |code| ==> !('A' <= code[i] <= 'Z')
  {
    AsciiLower(LanguagePart(locale))
  }

  /**
   * Python's `s.split(sep)` with an explicit one-character separator: the
   * pieces between separators, always at least one, never containing `sep`.
   */
  function Split(s: string, sep: char): (r: seq<string>)
    ensures |r| >= 1
    ensures forall i :: 0 <= i < |r| ==> sep !in r[i]
  {
    if s == [] then [""]
    else
      var rest := Split(s[1..], sep);
      if s[0] == sep then [""] + rest
      else [[s[0]] + rest[0]] + rest[1..]
  }

  /** Python's `sep.join(parts)`. */
  function Join(parts: seq<string>, sep: char): string
    requires |parts| >= 1
  {
    if |parts| == 1 then parts[0] else parts[0] + [sep] + Join(parts[1..], sep)
  }

  /** Joining the pieces of a split with the same separator gives back the string. */
  lemma {:induction false} SplitJoin(s: string, sep: char)
    ensures Join(Split(s, sep), sep) == s
  {
    if s != [] {
      var rest := Split(s[1..], sep);
      SplitJoin(s[1..], sep);
      if s[0] == sep {
        assert Split(s, sep)[1..] == rest;
      } else if |rest| == 1 {
        assert Join(Split(s, sep), sep) == [s[0]] + rest[0];
      } else {
        var parts := Split(s, sep);
        assert parts[1..] == rest[1..];
        assert Join(rest, sep) == rest[0] + [sep] + Join(rest[1..], sep);
        assert Join(parts, sep) == [s[0]] + rest[0] + [sep] + Join(rest[1..], sep);
      }
    }
  }

  /** `s.split("_")[0]` is the prefix the C code cuts with `strchr` and `g_strndup`. */
  lemma {:induction false} SplitHeadIsLanguagePart(s: string)
    ensures Split(s, Separator)[0] == LanguagePart(s)
  {
    if s != [] && s[0] != Separator {
      SplitHeadIsLanguagePart(s[1..]);
      match Strchr(s[1..], Separator)
      case None =>
      case Some(i) =>
        assert s[..i + 1] == [s[0]] + s[1..][..i];
    }
  }

  /** Folding case never creates or removes a separator, so `strchr` finds the same place. */
  lemma {:induction false} StrchrAsciiLower(s: string)
    ensures Strchr(AsciiLower(s), Separator) == Strchr(s, Separator)
  {
    if s != [] {
      assert AsciiLower(s)[1..] == AsciiLower(s[1..]);
      StrchrAsciiLower(s[1..]);
    }
  }

  /** Cutting then folding equals folding then cutting. */
  lemma LanguagePartAsciiLower(s: string)
    ensures LanguageCode(s) == LanguagePart(AsciiLower(s))
  {
    StrchrAsciiLower(s);
    match Strchr(s, Separator)
    case None =>
    case Some(p) =>
      assert AsciiLower(s)[..p] == AsciiLower(s[..p]);
  }

  /**
   * A code never holds an ASCII capital, so a table entry whose code has one
   * (codes are stored as the data file spells them) can never be found.
   */
  lemma LanguageCodeHasNoCapital(locale: string, stored: string, i: nat)
    requires i < |stored| && 'A' <= stored[i] <= 'Z'
    ensures LanguageCode(locale) != stored
  {
    var code := LanguageCode(locale);
    if |code| == |stored| {
      assert code[i] == LowerChar(LanguagePart(locale)[i]);
    }
  }

  /** Folding is idempotent: a code is already in lower case. */
  lemma AsciiLowerIdempotent(s: string)
    ensures AsciiLower(AsciiLower(s)) == AsciiLower(s)
  {
  }

  /**
   * The code depends on the locale only up to ASCII case: "JA" and "ja",
   * or "EN_us" and "en_US", give the same code.
   */
  lemma LanguageCodeIgnoresCase(a: string, b: string)
    requires AsciiLower(a) == AsciiLower(b)
    ensures LanguageCode(a) == LanguageCode(b)
  {
    LanguagePartAsciiLower(a);
    LanguagePartAsciiLower(b);
  }

  /** The code is the text before the first '_' (all of it when there is none), in lower case. */
  lemma LanguageCodeShape(locale: string)
    ensures Separator in locale ==>
      exists p :: 0 <= p < |locale| && locale[p] == Separator && Separator !in locale[..p]
        && LanguageCode(locale) == AsciiLower(locale[..p])
    ensures Separator !in locale ==> LanguageCode(locale) == AsciiLower(locale)
  {
    var part := LanguagePart(locale);
    if Separator in locale {
      assert part != locale;
      assert locale[..|part|] == part;
    }
  }
}
