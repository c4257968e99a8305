/** Shared vocabulary of the backend model: optional values, the failures a
    request handler can end in, and the string helpers the Python code gets
    from `str` (startswith, endswith, `in`, rsplit, `str(int)`). */
module Common {

  datatype Option<+T> = None | Some(value: T)

  /** How a request handler stops early. `Http` is an `HTTPException` raised
      on purpose; `Unhandled` is any other Python exception, which the web
      framework turns into a 500 response. */
  datatype Failure = Http(status: nat, detail: string) | Unhandled(reason: string)

  /** A check that either passes or raises. */
  datatype Outcome = Pass | Fail(failure: Failure)

  datatype Result<+T> = Ok(value: T) | Err(failure: Failure)

  const BadRequest: nat := 400
  const Unauthorized: nat := 401
  const PayloadTooLarge: nat := 413
  const InternalServerError: nat := 500

  predicate StartsWith(s: string, prefix: string)
  {
    |prefix| <= |s| && s[..|prefix|] == prefix
  }

  predicate EndsWith(s: string, suffix: string)
  {
    |suffix| <= |s| && s[|s| - |suffix|..] == suffix
  }

  predicate Contains(s: string, c: char)
  {
    exists i :: 0 <= i < |s| && s[i] == c
  }

  /** Index of the last occurrence of `c` in `s`, if any (`str.rfind`). */
  function LastIndexOf(s: string, c: char): (r: Option<nat>)
    ensures r.None? <==> !Contains(s, c)
    ensures r.Some? ==> r.value < |s| && s[r.value] == c
    ensures r.Some? ==> forall j :: r.value < j < |s| ==> s[j] != c
  {
    if |s| == 0 then None
    else if s[|s| - 1] == c then Some(|s| - 1)
    else
      var r := LastIndexOf(s[..|s| - 1], c);
      assert forall j :: 0 <= j < |s| - 1 ==> s[..|s| - 1][j] == s[j];
      r
  }

  function DigitChar(d: nat): (c: char)
    requires d < 10
    ensures '0' <= c <= '9'
  {
    ['0', '1', '2', '3', '4', '5', '6', '7', '8', '9'][d]
  }

  predicate IsAsciiDigit(c: char)
  {
    '0' <= c <= '9'
  }

  /** Decimal rendering of a natural number, as `str(n)` / an f-string does. */
  function Decimal(n: nat): (r: string)
    ensures |r| >= 1
    ensures forall i :: 0 <= i < |r| ==> IsAsciiDigit(r[i])
    ensures (|r| == 1) == (n < 10)
  {
    if n < 10 then [DigitChar(n)] else Decimal(n / 10) + [DigitChar(n % 10)]
  }

  lemma DigitCharInjective(a: nat, b: nat)
    requires a < 10 && b < 10 && DigitChar(a) == DigitChar(b)
    ensures a == b
  {
  }

  /** Different numbers never print the same, so ids keep paths apart. */
  lemma {:induction false} DecimalInjective(a: nat, b: nat)
    requires Decimal(a) == Decimal(b)
    ensures a == b
  {
    if a >= 10 && b >= 10 {
      var da, db := Decimal(a), Decimal(b);
      assert da[|da| - 1] == DigitChar(a % 10) && db[|db| - 1] == DigitChar(b % 10);
      DigitCharInjective(a % 10, b % 10);
      assert da[..|da| - 1] == Decimal(a / 10);
      assert db[..|db| - 1] == Decimal(b / 10);
      DecimalInjective(a / 10, b / 10);
    } else if a < 10 && b < 10 {
      DigitCharInjective(a, b);
    }
  }

  /** A slash right after a slash-free part cannot line up with a longer
      slash-free part. */
  lemma SlashMismatch(d1: string, d2: string, x: string, y: string)
    requires |d1| < |d2| && !Contains(d2, '/')
    ensures d1 + "/" + x != d2 + "/" + y
  {
    assert (d1 + "/" + x)[|d1|] == '/';
    assert (d2 + "/" + y)[|d1|] == d2[|d1|];
  }

  /** Joining two slash-free heads to tails with "/" is injective. */
  lemma SplitAtSlash(d1: string, d2: string, x: string, y: string)
    requires !Contains(d1, '/') && !Contains(d2, '/')
    requires d1 + "/" + x == d2 + "/" + y
    ensures d1 == d2 && x == y
  {
    var s := d1 + "/" + x;
    if |d1| < |d2| {
      SlashMismatch(d1, d2, x, y);
      assert false;
    } else if |d2| < |d1| {
      SlashMismatch(d2, d1, y, x);
      assert false;
    } else {
      assert d1 == s[..|d1|] == d2;
      assert x == s[|d1| + 1..] == y;
    }
  }
}
