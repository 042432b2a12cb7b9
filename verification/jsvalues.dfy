/** The JSON values an Express request body can carry, and JavaScript's
    `String(...)` conversion of them, which the settings handler applies before
    storing a value. */
module JsValues {

  /** Largest integer a JSON number keeps exactly (2^53 - 1). */
  const MaxSafeInteger: int := 0x1F_FFFF_FFFF_FFFF

  /** Integers that survive `JSON.parse` unchanged; `String` prints them in plain decimal. */
  type SafeInteger = n: int | -MaxSafeInteger <= n <= MaxSafeInteger

  datatype Json =
    | JNull
    | JBool(b: bool)
    | JNumber(n: SafeInteger)
    | JString(s: string)
    | JArray(items: seq<Json>)
    | JObject(ownToString: bool)

  function DigitChar(d: nat): char
    requires d < 10
  {
    "0123456789"[d]
  }

  /** Decimal digits of `n`, most significant first, without leading zeros. */
  function Digits(n: nat): (s: string)
    ensures |s| >= 1
    ensures forall i :: 0 <= i < |s| ==> '0' <= s[i] <= '9'
    decreases n
  {
    if n < 10 then [DigitChar(n)] else Digits(n / 10) + [DigitChar(n % 10)]
  }

  /** The value a string of decimal digits denotes. */
  function DigitsValue(s: string): nat
    requires forall i :: 0 <= i < |s| ==> '0' <= s[i] <= '9'
    decreases |s|
  {
    if s == [] then 0
    else DigitsValue(s[..|s| - 1]) * 10 + (s[|s| - 1] as int - '0' as int)
  }

  /** Printing a number in decimal loses nothing: reading the digits back gives it. */
  lemma {:induction false} DigitsRoundTrip(n: nat)
    ensures DigitsValue(Digits(n)) == n
    decreases n
  {
    if n >= 10 {
      DigitsRoundTrip(n / 10);
      var s := Digits(n);
      assert s[..|s| - 1] == Digits(n / 10);
    }
  }

  /** `String(n)` for an integer below 10^21 in magnitude. */
  function NumberToString(n: int): (s: string)
    ensures |s| >= 1
    ensures n < 0 <==> s[0] == '-'
  {
    if n < 0 then "-" + Digits(-n) else Digits(n)
  }

  /** `String(v)` throws a TypeError. A value parsed from JSON holds no function, so
      an object with an own `toString` key has no callable `toString`, and the
      inherited `valueOf` returns the object itself; an array throws when one of
      its items does, since joining converts every item. */
  predicate StringThrows(v: Json)
    decreases v
  {
    match v
    case JObject(ownToString) => ownToString
    case JArray(items) => exists i :: 0 <= i < |items| && StringThrows(items[i])
    case _ => false
  }

  /** `String(v)`, for a `v` on which it does not throw (the text is immaterial
      otherwise): strings pass through unchanged; arrays print their items joined
      by commas, with `null` items printed as nothing. */
  function JsString(v: Json): (s: string)
    ensures v.JString? ==> s == v.s
    ensures v.JNull? ==> s == "null"
    decreases v, 1
  {
    match v
    case JNull => "null"
    case JBool(b) => if b then "true" else "false"
    case JNumber(n) => NumberToString(n)
    case JString(t) => t
    case JArray(items) => JoinItems(v, items)
    case JObject(ownToString) => if ownToString then "" else "[object Object]"
  }

  /** Every character is a decimal digit. */
  predicate IsDecimal(s: string)
  {
    forall i :: 0 <= i < |s| ==> '0' <= s[i] <= '9'
  }

  /** The text stored for a JSON number reads back as that number: a '-' exactly
      for negatives, then the decimal digits of its magnitude. */
  lemma NumberTextReadsBack(n: SafeInteger)
    ensures var s := JsString(JNumber(n));
            && |s| >= 1 && (n < 0 <==> s[0] == '-')
            && var digits := if n < 0 then s[1..] else s;
               IsDecimal(digits) && DigitsValue(digits) == if n < 0 then -n else n
  {
    var s := JsString(JNumber(n));
    if n < 0 {
      assert s[1..] == Digits(-n);
      DigitsRoundTrip(-n);
    } else {
      DigitsRoundTrip(n);
    }
  }

  /** `Array.prototype.join(",")` over the items of `whole`. */
  function JoinItems(ghost whole: Json, items: seq<Json>): string
    requires forall i :: 0 <= i < |items| ==> items[i] < whole
    decreases whole, 0, |items|
  {
    if items == [] then ""
    else
      var first := if items[0].JNull? then "" else JsString(items[0]);
      if |items| == 1 then first else first + "," + JoinItems(whole, items[1..])
  }
}
