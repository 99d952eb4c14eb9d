/**
 * Display names of currencies and the label shown for a currency code in the
 * target-currency selector (src/App.tsx: the `currencyNames` table and
 * `getCurrencyLabel`).
 */
module CurrencyLabels {

  /** The static table of display names, keyed by lower-case currency code. */
  const CURRENCY_NAMES: map<string, string> := map[
    "inr" := "Indian Rupee",
    "eur" := "Euro",
    "gbp" := "British Pound",
    "jpy" := "Japanese Yen",
    "aud" := "Australian Dollar",
    "cad" := "Canadian Dollar",
    "chf" := "Swiss Franc",
    "cny" := "Chinese Yuan",
    "hkd" := "Hong Kong Dollar",
    "sgd" := "Singapore Dollar",
    "aed" := "UAE Dirham",
    "krw" := "South Korean Won",
    "mxn" := "Mexican Peso",
    "brl" := "Brazilian Real",
    "zar" := "South African Rand",
    "rub" := "Russian Ruble",
    "thb" := "Thai Baht",
    "php" := "Philippine Peso",
    "idr" := "Indonesian Rupiah",
    "myr" := "Malaysian Ringgit",
    "nzd" := "New Zealand Dollar",
    "sek" := "Swedish Krona",
    "nok" := "Norwegian Krone",
    "dkk" := "Danish Krone",
    "pln" := "Polish Zloty",
    "try" := "Turkish Lira",
    "sar" := "Saudi Riyal",
    "btc" := "Bitcoin",
    "eth" := "Ethereum"
  ]

  /** The separator between the upper-cased code and the name in a label. */
  const SEPARATOR: string := " - "

  /**
   * Whether the lookup `currencyNames[code]` is truthy: the code is a key and
   * its name is not the empty string.  Only three-character codes are named.
   */
  predicate HasName(code: string): (b: bool)
    ensures b ==> |code| == 3
  {
    TableWellFormed();
    code in CURRENCY_NAMES && CURRENCY_NAMES[code] != ""
  }

  /** Every name in the table is non-empty, and every key is a three-character code. */
  lemma TableWellFormed()
    ensures forall code :: code in CURRENCY_NAMES ==> CURRENCY_NAMES[code] != ""
    ensures forall code :: code in CURRENCY_NAMES ==> |code| == 3
  {
  }

  /** So being named is exactly being a key of the table. */
  lemma HasNameIsMembership(code: string)
    ensures HasName(code) <==> code in CURRENCY_NAMES
  {
    TableWellFormed();
  }

  /** The characters a currency code of the rate source is made of. */
  predicate IsCodeChar(ch: char) {
    'a' <= ch <= 'z' || '0' <= ch <= '9'
  }

  predicate IsCode(code: string) {
    forall i :: 0 <= i < |code| ==> IsCodeChar(code[i])
  }

  /** `String.prototype.toUpperCase` on one character, restricted to ASCII letters. */
  function UpperChar(ch: char): char {
    if 'a' <= ch <= 'z' then (ch as int - 'a' as int + 'A' as int) as char else ch
  }

  function LowerChar(ch: char): char {
    if 'A' <= ch <= 'Z' then (ch as int - 'A' as int + 'a' as int) as char else ch
  }

  /** `code.toUpperCase()`, character by character. */
  function Upper(s: string): (r: string)
    ensures |r| == |s|
    ensures forall i :: 0 <= i < |s| ==> r[i] == UpperChar(s[i])
    ensures forall i :: 0 <= i < |r| ==> !('a' <= r[i] <= 'z')
    ensures IsCode(s) ==> forall i :: 0 <= i < |s| ==> LowerChar(r[i]) == s[i]
  {
    seq(|s|, i requires 0 <= i < |s| => UpperChar(s[i]))
  }

  function Lower(s: string): (r: string)
    ensures |r| == |s|
    ensures forall i :: 0 <= i < |s| ==> r[i] == LowerChar(s[i])
  {
    seq(|s|, i requires 0 <= i < |s| => LowerChar(s[i]))
  }

  /**
   * `getCurrencyLabel(code)`: the upper-cased code, followed by " - " and the
   * display name when the code has one.  Total: defined for every string.
   */
  function Label(code: string): (r: string)
    ensures |r| >= |code| && r[..|code|] == Upper(code)
    ensures HasName(code) ==> r[|code|..] == SEPARATOR + CURRENCY_NAMES[code]
    ensures !HasName(code) <==> r == Upper(code)
    ensures |r| == |code| || r[|code|] == ' '
    ensures r != "" <==> code != ""
  {
    var up := Upper(code);
    if HasName(code) then
      var tail := SEPARATOR + CURRENCY_NAMES[code];
      assert (up + tail)[..|code|] == up && (up + tail)[|code|..] == tail;
      up + tail
    else up
  }

  /** The text of a label up to its first space (all of it when it has none). */
  function UpToSpace(s: string): (r: string)
    ensures |r| <= |s| && r == s[..|r|]
    ensures ' ' !in r
    ensures |r| < |s| ==> s[|r|] == ' '
  {
    if s == [] || s[0] == ' ' then [] else [s[0]] + UpToSpace(s[1..])
  }

  /** Reads the currency code back from a label: the inverse of `Label` on codes. */
  function CodeOfLabel(text: string): string {
    Lower(UpToSpace(text))
  }

  lemma {:induction false} UpToSpaceOfPrefix(x: string, y: string)
    requires ' ' !in x
    requires y == [] || y[0] == ' '
    ensures UpToSpace(x + y) == x
  {
    if x != [] {
      assert (x + y)[1..] == x[1..] + y;
      UpToSpaceOfPrefix(x[1..], y);
    } else {
      assert x + y == y;
    }
  }

  lemma UpperHasNoSpace(code: string)
    requires IsCode(code)
    ensures ' ' !in Upper(code)
  {
    var up := Upper(code);
    forall i | 0 <= i < |up| ensures up[i] != ' ' {
      assert IsCodeChar(code[i]);
    }
  }

  /** The code can be recovered from its label, so the selector shows a code unambiguously. */
  lemma LabelRoundTrip(code: string)
    requires IsCode(code)
    ensures CodeOfLabel(Label(code)) == code
  {
    var text, up := Label(code), Upper(code);
    var rest := text[|code|..];
    assert text == up + rest;
    UpperHasNoSpace(code);
    UpToSpaceOfPrefix(up, rest);
  }

  /** Distinct codes made of lower-case letters and digits get distinct labels. */
  lemma LabelInjective(a: string, b: string)
    requires IsCode(a) && IsCode(b)
    requires Label(a) == Label(b)
    ensures a == b
  {
    LabelRoundTrip(a);
    LabelRoundTrip(b);
  }
}
