/** The two helpers of the bot's entry point: the boolean parser for
    settings read from the environment (`strtobool`), and the global check
    that rejects commands sent in private messages (`no_dm_check`). */
module Bootstrap {
  import opened Common

  /** Lower-casing of one character.  Only ASCII letters are mapped: no other
      character lowers to a letter of an accepted word (see README). */
  function LowerChar(c: char): char
  {
    if 'A' <= c <= 'Z' then (c as int + 32) as char else c
  }

  function Lower(s: string): (r: string)
    ensures |r| == |s|
    ensures forall i :: 0 <= i < |s| ==> r[i] == LowerChar(s[i])
  {
    seq(|s|, i requires 0 <= i < |s| => LowerChar(s[i]))
  }

  const TrueWords: set<string> := {"y", "yes", "t", "true", "on", "1"}
  const FalseWords: set<string> := {"n", "no", "f", "false", "off", "0"}

  /** The ValueError, carrying the lowered value it quotes. */
  datatype ParseError = InvalidTruthValue(value: string)

  /** `strtobool(value)`. */
  function StrToBool(value: string): Result<bool, ParseError>
  {
    var v := Lower(value);
    if v in TrueWords then Success(true)
    else if v in FalseWords then Success(false)
    else Failure(InvalidTruthValue(v))
  }

  /** `value` spells `word` in some letter case. */
  predicate CaseVariant(value: string, word: string)
  {
    |value| == |word| && forall i :: 0 <= i < |value| ==> LowerChar(value[i]) == word[i]
  }

  lemma CaseVariantIffLower(value: string, word: string)
    ensures CaseVariant(value, word) <==> Lower(value) == word
  {
    if CaseVariant(value, word) {
      assert Lower(value) == word;
    }
  }

  /** True exactly for y, yes, t, true, on and 1 in any letter case; false
      exactly for n, no, f, false, off and 0 in any letter case; the error,
      quoting the lowered value, for everything else. */
  lemma StrToBoolSpec(value: string)
    ensures StrToBool(value) == Success(true) <==> exists w :: w in TrueWords && CaseVariant(value, w)
    ensures StrToBool(value) == Success(false) <==> exists w :: w in FalseWords && CaseVariant(value, w)
    ensures StrToBool(value).Failure? <==>
              forall w :: w in TrueWords + FalseWords ==> !CaseVariant(value, w)
    ensures StrToBool(value).Failure? ==> StrToBool(value).error == InvalidTruthValue(Lower(value))
  {
    forall w ensures CaseVariant(value, w) <==> Lower(value) == w {
      CaseVariantIffLower(value, w);
    }
  }

  /** No spelling is both true and false. */
  lemma WordsDisjoint()
    ensures TrueWords * FalseWords == {}
  {
    assert forall w :: w in TrueWords ==> w !in FalseWords;
  }

  /** Lower-casing twice is lower-casing once. */
  lemma LowerIdempotent(s: string)
    ensures Lower(Lower(s)) == Lower(s)
  {
    assert forall i :: 0 <= i < |s| ==> LowerChar(LowerChar(s[i])) == LowerChar(s[i]);
  }

  /** The result depends only on the lowered input: two spellings that lower
      to the same string parse alike, and parsing the lowered string changes
      nothing. */
  lemma StrToBoolCaseInsensitive(a: string, b: string)
    requires |a| == |b| && forall i :: 0 <= i < |a| ==> LowerChar(a[i]) == LowerChar(b[i])
    ensures StrToBool(a) == StrToBool(b)
    ensures StrToBool(Lower(a)) == StrToBool(a)
  {
    assert Lower(a) == Lower(b);
    LowerIdempotent(a);
  }

  lemma StrToBoolExamples()
    ensures StrToBool("YES") == Success(true)
    ensures StrToBool("Off") == Success(false)
    ensures StrToBool("2") == Failure(InvalidTruthValue("2"))
  {
    assert Lower("YES") == "yes";
    assert Lower("Off") == "off";
    assert Lower("2") == "2";
  }

  /** The error raised for a command outside a guild. */
  datatype CheckFailure = NoPrivateMessage

  /** `no_dm_check(ctx)`: `guild` is the context's guild, None in a private
      message. */
  function NoDmCheck(guild: Option<GuildId>): (r: Result<bool, CheckFailure>)
    ensures r == Success(true) <==> guild.Some?
    ensures r == Failure(NoPrivateMessage) <==> guild.None?
  {
    if guild.None? then Failure(NoPrivateMessage) else Success(true)
  }
}
