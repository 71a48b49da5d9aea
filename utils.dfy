/**
 * The shared utility functions: echo summaries, call-duration formatting,
 * the daily streak check, referral codes, phone-number masking, language
 * names and error responses.
 */
module Utils {
  import opened Wrappers
  import opened Strings
  import opened Base64
  import opened Types

  function Min(a: nat, b: nat): nat {
    if a <= b then a else b
  }

  // ---------------------------------------------------------------------------
  // generateEchoSummary
  // ---------------------------------------------------------------------------

  /** The number of words kept when no limit is given. */
  const DefaultMaxWords: nat := 5

  /**
   * The first `maxWords` space-separated pieces of the transcript, joined
   * back with single spaces. The result is always a prefix of the
   * transcript, and the whole transcript when it has few enough pieces.
   */
  function EchoSummary(transcript: string, maxWords: nat): (r: string)
    ensures r <= transcript
    ensures maxWords == 0 ==> r == ""
    ensures |Split(transcript)| <= maxWords ==> r == transcript
  {
    var words := Split(transcript);
    var m := Min(maxWords, |words|);
    JoinTakeIsPrefix(words, m);
    JoinSplit(transcript);
    assert words[..|words|] == words;
    Join(words[..m])
  }

  /** The summary with the default limit of five words. */
  function EchoSummaryDefault(transcript: string): (r: string)
    ensures r <= transcript
    ensures |Split(transcript)| <= DefaultMaxWords ==> r == transcript
  {
    EchoSummary(transcript, DefaultMaxWords)
  }

  /** For a positive limit, the words of the summary are the first words of the transcript. */
  lemma EchoSummaryWords(transcript: string, maxWords: nat)
    requires maxWords >= 1
    ensures Split(EchoSummary(transcript, maxWords)) ==
            Split(transcript)[..Min(maxWords, |Split(transcript)|)]
  {
    var words := Split(transcript);
    var kept := words[..Min(maxWords, |words|)];
    assert SpaceFree(kept) by {
      forall i | 0 <= i < |kept| ensures Space !in kept[i] {
        assert kept[i] == words[i];
      }
    }
    SplitJoin(kept);
  }

  /** Summarising a summary with the same limit changes nothing. */
  lemma EchoSummaryIdempotent(transcript: string, maxWords: nat)
    ensures EchoSummary(EchoSummary(transcript, maxWords), maxWords) == EchoSummary(transcript, maxWords)
  {
    if maxWords >= 1 {
      EchoSummaryWords(transcript, maxWords);
    }
  }

  // ---------------------------------------------------------------------------
  // formatDuration
  // ---------------------------------------------------------------------------

  /** Exactly two decimal digits whose value is n. */
  predicate IsTwoDigitsOf(p: string, n: nat) {
    |p| == 2 && IsDigit(p[0]) && IsDigit(p[1]) && DigitValue(p[0]) * 10 + DigitValue(p[1]) == n
  }

  /** A natural below 100 padded to two characters is written with exactly two digits. */
  lemma TwoDigits(n: nat)
    requires n < 100
    ensures IsTwoDigitsOf(PadStart(NatToString(n), 2, '0'), n)
  {
    var s := NatToString(n);
    DigitsValueOfNatToString(n);
    if |s| == 2 {
      DigitsValueTwo(s);
    } else {
      assert s[..0] == [];
    }
  }

  /** `n.toString().padStart(2, '0')` for n below 100. */
  function PadTwo(n: nat): (p: string)
    requires n < 100
    ensures IsTwoDigitsOf(p, n)
  {
    TwoDigits(n);
    PadStart(NatToString(n), 2, '0')
  }

  /**
   * `m:ss` for a number of seconds: the minute count as a numeral without
   * leading zeros, a colon, and exactly two digits whose value is the
   * remaining seconds (below 60).
   */
  function FormatDuration(seconds: nat): (r: string)
    ensures var m := NatToString(seconds / 60);
            && |r| == |m| + 3 && r[..|m|] == m && r[|m|] == ':'
            && IsTwoDigitsOf(r[|m| + 1..], seconds % 60)
            && DigitsValue(m) == seconds / 60 && (|m| > 1 ==> m[0] != '0')
  {
    var m := NatToString(seconds / 60);
    var p := PadTwo(seconds % 60);
    DigitsValueOfNatToString(seconds / 60);
    ColonJoin(m, p);
    m + ":" + p
  }

  /** The parts of `m:p` are where they belong. */
  lemma ColonJoin(m: string, p: string)
    ensures var r := m + ":" + p;
            |r| == |m| + |p| + 1 && r[..|m|] == m && r[|m|] == ':' && r[|m| + 1..] == p
  {
    var r := m + ":" + p;
    assert r[..|m|] == m && r[|m| + 1..] == p;
  }

  /** Reads `m:ss` back: a decimal minute count, a colon and two digits below 60. */
  function ParseDuration(r: string): Option<nat> {
    if |r| < 4 || r[|r| - 3] != ':' then None else ParseMinutesSeconds(r[..|r| - 3], r[|r| - 2..])
  }

  function ParseMinutesSeconds(m: string, ss: string): Option<nat> {
    if AllDigits(m) && |ss| == 2 && AllDigits(ss) && DigitValue(ss[0]) <= 5 then
      Some(DigitsValue(m) * 60 + DigitsValue(ss))
    else None
  }

  /** Reading `m:ss` gives m minutes and ss seconds. */
  lemma ParseDurationParts(m: string, ss: string)
    requires |m| >= 1 && |ss| == 2
    ensures ParseDuration(m + ":" + ss) == ParseMinutesSeconds(m, ss)
  {
    var r := m + ":" + ss;
    assert r[..|r| - 3] == m && r[|r| - 2..] == ss;
  }

  /** The minute and second parts of a formatted duration read back as the duration. */
  lemma ParseMinutesSecondsOf(seconds: nat)
    ensures ParseMinutesSeconds(NatToString(seconds / 60), PadTwo(seconds % 60)) == Some(seconds)
  {
    var m, ss := NatToString(seconds / 60), PadTwo(seconds % 60);
    assert DigitsValue(ss) == seconds % 60 by {
      DigitsValueTwo(ss);
    }
    assert DigitsValue(m) == seconds / 60 by {
      DigitsValueOfNatToString(seconds / 60);
    }
  }

  /** A formatted duration reads back as the same number of seconds. */
  lemma ParseFormatDuration(seconds: nat)
    ensures ParseDuration(FormatDuration(seconds)) == Some(seconds)
  {
    ParseDurationParts(NatToString(seconds / 60), PadTwo(seconds % 60));
    ParseMinutesSecondsOf(seconds);
  }

  // ---------------------------------------------------------------------------
  // isStreakActive
  // ---------------------------------------------------------------------------

  /** Milliseconds in a day. */
  const MsPerDay: int := 1000 * 60 * 60 * 24

  /**
   * Whether the daily streak is still alive: the last call date is present,
   * non-empty and parses, and at most one whole day has elapsed since it
   * (rounding the elapsed days down). `parseDate` stands for `new Date(s)`
   * (None for an invalid date) and `now` for the clock, both in milliseconds.
   */
  function IsStreakActive(lastCallDate: Option<string>, parseDate: string -> Option<int>, now: int): (r: bool)
    ensures r <==> && lastCallDate.Some? && lastCallDate.value != ""
                   && parseDate(lastCallDate.value).Some?
                   && now - parseDate(lastCallDate.value).value < 2 * MsPerDay
  {
    if lastCallDate.None? || lastCallDate.value == "" then false
    else
      match parseDate(lastCallDate.value)
      case None => false
      case Some(last) => (now - last) / MsPerDay <= 1
  }

  /** A call dated in the future keeps the streak alive. */
  lemma StreakActiveForFutureDate(lastCallDate: string, parseDate: string -> Option<int>, now: int)
    requires lastCallDate != "" && parseDate(lastCallDate).Some? && parseDate(lastCallDate).value >= now
    ensures IsStreakActive(Some(lastCallDate), parseDate, now)
  {
  }

  /** A streak alive at some time is alive at every earlier time. */
  lemma StreakMonotone(lastCallDate: Option<string>, parseDate: string -> Option<int>, now: int, earlier: int)
    requires earlier <= now && IsStreakActive(lastCallDate, parseDate, now)
    ensures IsStreakActive(lastCallDate, parseDate, earlier)
  {
  }

  // ---------------------------------------------------------------------------
  // generateReferralCode
  // ---------------------------------------------------------------------------

  const ReferralCodeLength: nat := 8

  /** Characters a referral code can contain: upper-case letters, digits, '+', '/' and '='. */
  predicate IsReferralChar(c: char) {
    'A' <= c <= 'Z' || '0' <= c <= '9' || c == '+' || c == '/' || c == '='
  }

  /**
   * The first eight characters of the padded Base 64 encoding of the id's
   * UTF-8 bytes, upper-cased.
   */
  function ReferralCode(userId: string): (r: string)
    ensures |r| == Min(ReferralCodeLength, 4 * ((|Utf8(userId)| + 2) / 3))
    ensures forall i :: 0 <= i < |r| ==> IsReferralChar(r[i])
  {
    var encoded := Encode(Utf8(userId));
    EncodeChars(Utf8(userId));
    UpperCase(Take(encoded, ReferralCodeLength))
  }

  /** Ids whose UTF-8 encodings share their first six bytes get the same code. */
  lemma ReferralCodeFirstSixBytes(a: string, b: string)
    requires |Utf8(a)| >= 6 && |Utf8(b)| >= 6 && Utf8(a)[..6] == Utf8(b)[..6]
    ensures ReferralCode(a) == ReferralCode(b)
  {
    EncodePrefix(Utf8(a), 2);
    EncodePrefix(Utf8(b), 2);
  }

  /** ASCII ids of at least six characters that share their first six characters collide. */
  lemma ReferralCodeAsciiCollision(a: string, b: string)
    requires IsAscii(a) && IsAscii(b) && |a| >= 6 && |b| >= 6 && a[..6] == b[..6]
    ensures ReferralCode(a) == ReferralCode(b)
  {
    Utf8CommonPrefix(a, b, 6);
    ReferralCodeFirstSixBytes(a, b);
  }

  /** Two different user ids with the same referral code. */
  lemma ReferralCodeNotUnique()
    ensures ReferralCode("user-1001") == ReferralCode("user-1002")
  {
    ReferralCodeAsciiCollision("user-1001", "user-1002");
  }

  lemma QuadUser()
    ensures Quad(117, 115, 101) == "dXNl"
  {
    assert Sextets(117, 115, 101) == (29, 23, 13, 37);
  }

  lemma QuadDash1()
    ensures Quad(114, 45, 49) == "ci0x"
  {
    assert Sextets(114, 45, 49) == (28, 34, 52, 49);
  }

  lemma UpperCaseUser1001(s: string)
    requires s == "dXNlci0x"
    ensures UpperCase(s) == "DXNLCI0X"
  {
  }

  /** The bytes of `user-1001` encode to eight characters "dXNlci0x" and more. */
  lemma EncodeUser1001(b: seq<Byte>)
    requires b == [117, 115, 101, 114, 45, 49, 48, 48, 49]
    ensures Take(Encode(b), ReferralCodeLength) == "dXNlci0x"
  {
    EncodeFirstTwoGroups(b);
    QuadUser();
    QuadDash1();
    assert "dXNl" + "ci0x" == "dXNlci0x";
  }

  /** A concrete code: `user-1001` is encoded as "dXNlci0xMDAx", cut to eight characters and upper-cased. */
  lemma ReferralCodeExample(userId: string)
    requires userId == "user-1001"
    ensures ReferralCode(userId) == "DXNLCI0X"
  {
    AsciiBytes(userId, [117, 115, 101, 114, 45, 49, 48, 48, 49]);
    EncodeUser1001(Utf8(userId));
    UpperCaseUser1001("dXNlci0x");
  }

  // ---------------------------------------------------------------------------
  // maskPhoneNumber
  // ---------------------------------------------------------------------------

  /**
   * Strings shorter than 8 characters are returned as they are; otherwise the
   * three characters that start six from the end are replaced by '*'.
   */
  function MaskPhoneNumber(phoneNumber: string): (r: string)
    ensures |r| == |phoneNumber|
    ensures |phoneNumber| < 8 ==> r == phoneNumber
    ensures |phoneNumber| >= 8 ==>
              forall i :: 0 <= i < |r| ==>
                r[i] == if |r| - 6 <= i < |r| - 3 then '*' else phoneNumber[i]
  {
    if |phoneNumber| < 8 then phoneNumber
    else phoneNumber[..|phoneNumber| - 6] + "***" + phoneNumber[|phoneNumber| - 3..]
  }

  /** Masking a masked number changes nothing. */
  lemma MaskPhoneNumberIdempotent(phoneNumber: string)
    ensures MaskPhoneNumber(MaskPhoneNumber(phoneNumber)) == MaskPhoneNumber(phoneNumber)
  {
    var r := MaskPhoneNumber(phoneNumber);
    var rr := MaskPhoneNumber(r);
    assert |rr| == |r|;
    forall i | 0 <= i < |r| ensures rr[i] == r[i] {
    }
  }

  /** The documented example: +1234567890 becomes +1234***890. */
  lemma MaskPhoneNumberExample()
    ensures MaskPhoneNumber("+1234567890") == "+1234***890"
  {
  }

  // ---------------------------------------------------------------------------
  // detectLanguageFromCode
  // ---------------------------------------------------------------------------

  /** The twelve codes with a known display name, as the lookup object lists them. */
  const LanguageNames: seq<Language> := [
    Language("en", "English"),
    Language("es", "Spanish"),
    Language("fr", "French"),
    Language("de", "German"),
    Language("it", "Italian"),
    Language("pt", "Portuguese"),
    Language("ru", "Russian"),
    Language("ja", "Japanese"),
    Language("ko", "Korean"),
    Language("zh", "Chinese"),
    Language("ar", "Arabic"),
    Language("hi", "Hindi")
  ]

  /** The name listed for a code in a table; None when the code is not listed. */
  function Lookup(table: seq<Language>, code: string): (r: Option<string>)
    ensures r.Some? ==> exists i :: 0 <= i < |table| && table[i] == Language(code, r.value)
    ensures r.None? ==> forall i :: 0 <= i < |table| ==> table[i].code != code
  {
    if table == [] then None
    else if table[0].code == code then Some(table[0].name)
    else
      var r := Lookup(table[1..], code);
      assert r.Some? ==> table[1..][0] == table[1];
      r
  }

  /** Every listed code has two characters and every listed name more. */
  lemma LanguageNamesShape()
    ensures forall j :: 0 <= j < |LanguageNames| ==> |LanguageNames[j].code| == 2 < |LanguageNames[j].name|
  {
  }

  /**
   * The display name of a language code; an unknown code is returned as it
   * is. The result differs from the code exactly when the code is listed.
   */
  function DetectLanguage(languageCode: string): (r: string)
    ensures r != languageCode <==> exists i :: 0 <= i < |LanguageNames| && LanguageNames[i].code == languageCode
    ensures r != languageCode ==> exists i :: 0 <= i < |LanguageNames| && LanguageNames[i] == Language(languageCode, r)
  {
    LanguageNamesShape();
    match Lookup(LanguageNames, languageCode)
    case Some(name) => name
    case None => languageCode
  }

  /** The listed codes are the first twelve supported languages, with the same names. */
  lemma LanguageNamesAreSupported(languageCode: string)
    requires DetectLanguage(languageCode) != languageCode
    ensures exists i :: 0 <= i < |Languages| && Languages[i] == Language(languageCode, DetectLanguage(languageCode))
  {
    var i :| 0 <= i < |LanguageNames| && LanguageNames[i] == Language(languageCode, DetectLanguage(languageCode));
    assert Languages[i] == LanguageNames[i];
  }

  /** A name is never a listed code, so looking up a result again changes nothing. */
  lemma DetectLanguageIdempotent(languageCode: string)
    ensures DetectLanguage(DetectLanguage(languageCode)) == DetectLanguage(languageCode)
  {
    var r := DetectLanguage(languageCode);
    if r != languageCode {
      LanguageNamesShape();
      var i :| 0 <= i < |LanguageNames| && LanguageNames[i] == Language(languageCode, r);
      assert |r| > 2;
      assert !exists j :: 0 <= j < |LanguageNames| && LanguageNames[j].code == r;
    }
  }

  // ---------------------------------------------------------------------------
  // APIError and createErrorResponse
  // ---------------------------------------------------------------------------

  /** An error carrying an HTTP status, a message and an optional machine-readable code. */
  datatype APIError = APIError(statusCode: int, message: string, code: Option<string>) {
    const name: string := "APIError"
  }

  /** What a handler may throw: an APIError or anything else. */
  datatype Thrown = Api(error: APIError) | Other(description: string)

  datatype ErrorResponse = ErrorResponse(success: bool, error: string, code: Option<string>, statusCode: int)

  const InternalServerError: string := "Internal server error"

  /**
   * The response sent for a thrown value: an APIError's message, code and
   * status are passed through; anything else becomes a generic 500 that
   * reveals nothing about it. Never a success.
   */
  function CreateErrorResponse(thrown: Thrown): (r: ErrorResponse)
    ensures !r.success
    ensures thrown.Api? ==> r.error == thrown.error.message && r.code == thrown.error.code
                            && r.statusCode == thrown.error.statusCode
    ensures thrown.Other? ==> r.error == InternalServerError && r.code.None? && r.statusCode == 500
  {
    match thrown
    case Api(e) => ErrorResponse(false, e.message, e.code, e.statusCode)
    case Other(_) => ErrorResponse(false, InternalServerError, None, 500)
  }

  /** The response to an APIError determines the error: nothing it carries is lost. */
  lemma CreateErrorResponseKeepsAPIError(a: APIError, b: APIError)
    requires CreateErrorResponse(Api(a)) == CreateErrorResponse(Api(b))
    ensures a == b
  {
  }

  /** Responses to non-API errors are all the same: nothing about the error leaks. */
  lemma CreateErrorResponseHidesOtherErrors(x: string, y: string)
    ensures CreateErrorResponse(Other(x)) == CreateErrorResponse(Other(y))
  {
  }
}
