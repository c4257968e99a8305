/** The declarative request and response schemas of app/schemas.py that
    carry constraints or defaults. Each request model is a predicate saying
    which field values the schema library admits; e-mail syntax is checked
    by a library and is not part of the model. */
module Schemas {
  import opened Common
  import Auth

  /** `BaseResponse`: `success` defaults to true, `description` to None. */
  datatype BaseResponse<T> = BaseResponse(data: seq<T>, success: bool := true, description: Option<string> := None)

  /** `TokenResponse`: the token type defaults to "bearer". */
  datatype TokenResponse = TokenResponse(accessToken: string, refreshToken: string, tokenType: string := "bearer")

  /** A response built from its data alone reports success and carries no
      description. */
  lemma BaseResponseDefaults<T>(data: seq<T>)
    ensures BaseResponse(data).success && BaseResponse(data).description.None?
    ensures BaseResponse(data) == BaseResponse(data, true, None)
  {
  }

  /** A token response built from the two tokens is of type "bearer". */
  lemma TokenResponseDefault(access: string, refresh: string)
    ensures TokenResponse(access, refresh).tokenType == "bearer"
  {
  }

  /** `UserCreate`: a name of 1 to 255 characters and a password of at
      least 6. */
  predicate UserCreateAdmits(name: string, password: string)
  {
    1 <= |name| <= 255 && |password| >= 6
  }

  /** The schema's password bound is weaker than the service's rule: every
      password the rule accepts passes the schema, not the other way round. */
  lemma SchemaPasswordWeakerThanRule(name: string, password: string)
    requires 1 <= |name| <= 255
    ensures Auth.ValidatePassword(password) ==> UserCreateAdmits(name, password)
    ensures UserCreateAdmits(name, "abc12!") && !Auth.ValidatePassword("abc12!")
  {
  }

  /** `UserReportRequest`: a 36-character record id and optional link and
      text of at most 2000 and 10000 characters. */
  predicate UserReportAdmits(validationUuid: string, reportLink: Option<string>, reportText: Option<string>)
  {
    && |validationUuid| == 36
    && (reportLink.Some? ==> |reportLink.value| <= 2000)
    && (reportText.Some? ==> |reportText.value| <= 10000)
  }

  /** The length limits are inclusive: a 36-character id with a 2000-character
      link and a 10000-character text is admitted, and one character more in
      any of the three fields, or one fewer in the id, is refused. */
  lemma UserReportLimits(c: char)
    ensures var id, link, text := seq(36, _ => c), seq(2000, _ => c), seq(10000, _ => c);
            && UserReportAdmits(id, Some(link), Some(text))
            && UserReportAdmits(id, None, None)
            && !UserReportAdmits(id + [c], None, None)
            && !UserReportAdmits(id[1..], None, None)
            && !UserReportAdmits(id, Some(link + [c]), None)
            && !UserReportAdmits(id, None, Some(text + [c]))
  {
  }

  /** The pattern `^\d{4}-\d{2}-\d{2}$` (ASCII digits). */
  predicate DateShaped(s: string)
  {
    && |s| == 10
    && (forall i :: 0 <= i < 10 && i != 4 && i != 7 ==> IsAsciiDigit(s[i]))
    && s[4] == '-' && s[7] == '-'
  }

  /** `CustomReportRequest`: both dates have the shape; neither their
      calendar validity nor their order is checked. */
  predicate CustomReportAdmits(startDate: string, endDate: string)
  {
    DateShaped(startDate) && DateShaped(endDate)
  }

  function DigitValue(c: char): (d: nat)
    requires IsAsciiDigit(c)
    ensures d < 10 && DigitChar(d) == c
  {
    (c as int - '0' as int) as nat
  }

  /** "YYYY-MM-DD" with zero padding. */
  function FormatDate(year: nat, month: nat, day: nat): (s: string)
    requires year < 10000 && month < 100 && day < 100
    ensures DateShaped(s)
  {
    [DigitChar(year / 1000), DigitChar(year / 100 % 10), DigitChar(year / 10 % 10), DigitChar(year % 10), '-',
     DigitChar(month / 10), DigitChar(month % 10), '-',
     DigitChar(day / 10), DigitChar(day % 10)]
  }

  /** The three numbers a date-shaped string spells. */
  function ParseDate(s: string): (r: (nat, nat, nat))
    requires DateShaped(s)
    ensures r.0 < 10000 && r.1 < 100 && r.2 < 100
  {
    (1000 * DigitValue(s[0]) + 100 * DigitValue(s[1]) + 10 * DigitValue(s[2]) + DigitValue(s[3]),
     10 * DigitValue(s[5]) + DigitValue(s[6]),
     10 * DigitValue(s[8]) + DigitValue(s[9]))
  }

  lemma DigitValueOfChar(d: nat)
    requires d < 10
    ensures DigitValue(DigitChar(d)) == d
  {
  }

  lemma TwoDigits(a: nat, b: nat)
    requires a < 10 && b < 10
    ensures (10 * a + b) / 10 == a && (10 * a + b) % 10 == b
  {
  }

  lemma FourDigits(a: nat, b: nat, c: nat, d: nat)
    requires a < 10 && b < 10 && c < 10 && d < 10
    ensures var n := 1000 * a + 100 * b + 10 * c + d;
            n / 1000 == a && n / 100 % 10 == b && n / 10 % 10 == c && n % 10 == d
  {
    var n := 1000 * a + 100 * b + 10 * c + d;
    assert n / 10 == 100 * a + 10 * b + c;
    assert n / 100 == 10 * a + b;
  }

  lemma SplitTwo(n: nat)
    requires n < 100
    ensures n == 10 * (n / 10) + n % 10 && n / 10 < 10
  {
  }

  lemma SplitFour(n: nat)
    requires n < 10000
    ensures n == 1000 * (n / 1000) + 100 * (n / 100 % 10) + 10 * (n / 10 % 10) + n % 10
    ensures n / 1000 < 10
  {
    assert n == 10 * (n / 10) + n % 10;
    assert n / 10 == 10 * (n / 100) + n / 10 % 10;
    assert n / 100 == 10 * (n / 1000) + n / 100 % 10;
  }

  /** Formatting then parsing gives back the numbers. */
  lemma ParseFormatDate(year: nat, month: nat, day: nat)
    requires year < 10000 && month < 100 && day < 100
    ensures ParseDate(FormatDate(year, month, day)) == (year, month, day)
  {
    DigitValueOfChar(year / 1000);
    DigitValueOfChar(year / 100 % 10);
    DigitValueOfChar(year / 10 % 10);
    DigitValueOfChar(year % 10);
    DigitValueOfChar(month / 10);
    DigitValueOfChar(month % 10);
    DigitValueOfChar(day / 10);
    DigitValueOfChar(day % 10);
    SplitFour(year);
    SplitTwo(month);
    SplitTwo(day);
  }

  /** Every string the pattern admits is some zero-padded year, month and
      day, so the pattern admits exactly the formatted dates. */
  lemma FormatParseDate(s: string)
    requires DateShaped(s)
    ensures var r := ParseDate(s); FormatDate(r.0, r.1, r.2) == s
  {
    var y0, y1, y2, y3 := DigitValue(s[0]), DigitValue(s[1]), DigitValue(s[2]), DigitValue(s[3]);
    var m0, m1, d0, d1 := DigitValue(s[5]), DigitValue(s[6]), DigitValue(s[8]), DigitValue(s[9]);
    FourDigits(y0, y1, y2, y3);
    TwoDigits(m0, m1);
    TwoDigits(d0, d1);
    var r := ParseDate(s);
    assert r == (1000 * y0 + 100 * y1 + 10 * y2 + y3, 10 * m0 + m1, 10 * d0 + d1);
    var f := FormatDate(r.0, r.1, r.2);
    assert f == [DigitChar(y0), DigitChar(y1), DigitChar(y2), DigitChar(y3), '-',
                 DigitChar(m0), DigitChar(m1), '-', DigitChar(d0), DigitChar(d1)];
    assert forall i | 0 <= i < 10 :: f[i] == s[i];
  }

  /** Month 13 and day 45 pass: only the shape is checked. */
  lemma ShapeIsNotCalendar()
    ensures CustomReportAdmits(FormatDate(2024, 13, 45), FormatDate(2024, 1, 1))
  {
  }
}
