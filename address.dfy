/**
 * The Address value embedded in every Student: country, city and postCode as
 * the all-args constructor lays them out, the constraints its annotations
 * declare, and a recogniser for the postcode pattern \d{5}(-\d{4})?.
 */
module AddressModel {
  import opened Wrappers
  import opened Constraints

  /** The all-args constructor takes country, city and postCode in this order. */
  datatype Address = Address(country: string, city: string, postCode: string)

  /** Java's \d without UNICODE_CHARACTER_CLASS: the ASCII digits only. */
  predicate IsDigit(c: char) {
    '0' <= c <= '9'
  }

  predicate AllDigits(s: string) {
    forall i :: 0 <= i < |s| ==> IsDigit(s[i])
  }

  /** The strings \d{5}(-\d{4})? matches as a whole, described position by position. */
  predicate PostCodeShape(s: string) {
    || (|s| == 5 && AllDigits(s))
    || (|s| == 10 && AllDigits(s[..5]) && s[5] == '-' && AllDigits(s[6..]))
  }

  /** One symbol of the pattern: a decimal digit or the literal '-'. */
  datatype Symbol = Digit | Dash

  /** The pattern spelled out with its optional group present. */
  const PostCodePattern: seq<Symbol> := [Digit, Digit, Digit, Digit, Digit, Dash, Digit, Digit, Digit, Digit]

  predicate Fits(sym: Symbol, c: char) {
    match sym
    case Digit => IsDigit(c)
    case Dash => c == '-'
  }

  /**
   * The matcher's transition function. State k means that k symbols of the
   * pattern have been consumed; there is no move out of state 10.
   */
  function Step(state: nat, c: char): Option<nat> {
    if state < 5 || 6 <= state < 10 then
      if IsDigit(c) then Some(state + 1) else None
    else if state == 5 then
      if c == '-' then Some(6) else None
    else
      None
  }

  /** Feeds s to the matcher from the given state; None when the matcher gets stuck. */
  function Run(state: nat, s: string): Option<nat>
    decreases |s|
  {
    if s == [] then Some(state)
    else
      match Step(state, s[0])
      case None => None
      case Some(next) => Run(next, s[1..])
  }

  /** @Pattern(regexp = "\\d{5}(-\\d{4})?"): the whole string is matched; the optional group makes 5 and 10 accepting. */
  predicate MatchesPostCode(s: string) {
    Run(0, s) == Some(5) || Run(0, s) == Some(10)
  }

  /** From state k the matcher follows the pattern symbol by symbol and stops at state k + |s|. */
  lemma {:induction false} RunFollowsPattern(state: nat, s: string)
    requires state <= |PostCodePattern|
    decreases |s|
    ensures Run(state, s) ==
      if state + |s| <= |PostCodePattern| && forall i :: 0 <= i < |s| ==> Fits(PostCodePattern[state + i], s[i])
      then Some(state + |s|) else None
  {
    if s != [] {
      if state == |PostCodePattern| {
        assert Step(state, s[0]) == None;
      } else if Fits(PostCodePattern[state], s[0]) {
        assert Step(state, s[0]) == Some(state + 1);
        RunFollowsPattern(state + 1, s[1..]);
        assert forall i :: 1 <= i < |s| ==> s[1..][i - 1] == s[i];
      } else {
        assert Step(state, s[0]) == None;
      }
    }
  }

  /** The recogniser accepts exactly the five-digit codes and the five-digit, dash, four-digit codes. */
  lemma MatchesPostCodeCorrect(s: string)
    ensures MatchesPostCode(s) <==> PostCodeShape(s)
    ensures MatchesPostCode(s) ==> |s| == 5 || |s| == 10
  {
    RunFollowsPattern(0, s);
    if |s| == 10 {
      assert AllDigits(s[..5]) <==> forall i :: 0 <= i < 5 ==> IsDigit(s[i]);
      assert AllDigits(s[6..]) <==> forall i :: 6 <= i < 10 ==> IsDigit(s[i]);
    }
  }

  /** Codes the pattern accepts and codes it rejects. */
  lemma PostCodeExamples()
    ensures MatchesPostCode("12345") && MatchesPostCode("12345-6789")
    ensures !MatchesPostCode("1234") && !MatchesPostCode("123456")
    ensures !MatchesPostCode("12345-") && !MatchesPostCode("1234a")
    ensures !MatchesPostCode("12345-678") && !MatchesPostCode("12345-67890") && !MatchesPostCode("12345_6789")
  {
    MatchesPostCodeCorrect("12345");
    MatchesPostCodeCorrect("12345-6789");
    MatchesPostCodeCorrect("1234");
    MatchesPostCodeCorrect("123456");
    MatchesPostCodeCorrect("12345-");
    MatchesPostCodeCorrect("1234a");
    MatchesPostCodeCorrect("12345-678");
    MatchesPostCodeCorrect("12345-67890");
    MatchesPostCodeCorrect("12345_6789");
  }

  /** The constraints on Address's fields, as the annotations state them. */
  predicate ValidAddress(a: Address) {
    && NotBlank(a.country) && SizeBetween(a.country, 2, 100)
    && NotBlank(a.city) && SizeBetween(a.city, 2, 100)
    && NotBlank(a.postCode) && MatchesPostCode(a.postCode)
  }

  /** A code of the right shape starts with a digit, so it is never blank. */
  lemma PostCodeNotBlank(s: string)
    requires PostCodeShape(s)
    ensures NotBlank(s)
  {
    assert !IsTrimmable(s[0]);
    NotBlankIff(s);
  }

  /** What a valid address is, character by character. */
  lemma {:induction false} ValidAddressIff(a: Address)
    ensures ValidAddress(a) <==>
      && 2 <= |a.country| <= 100 && HasVisibleChar(a.country)
      && 2 <= |a.city| <= 100 && HasVisibleChar(a.city)
      && PostCodeShape(a.postCode)
  {
    NotBlankIff(a.country);
    NotBlankIff(a.city);
    MatchesPostCodeCorrect(a.postCode);
    if PostCodeShape(a.postCode) {
      PostCodeNotBlank(a.postCode);
    }
  }
}
