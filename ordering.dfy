/**
 * The list of selectable target currencies (src/App.tsx, `sortedCurrencies`):
 * the keys of the rate table without the base currency, named currencies
 * first, each group in `localeCompare` order.
 */
module TargetOrder {

  import CurrencyLabels
  import opened Sorting

  /** The base currency of the rate table; it is never offered as a target. */
  const BASE: string := "usd"

  /** `keys.filter((c) => c !== "usd")`. */
  function WithoutBase(keys: seq<string>): (r: seq<string>)
    ensures |r| <= |keys|
    ensures forall c :: c in r <==> c in keys && c != BASE
    ensures multiset(r) == multiset(keys)[BASE := 0]
  {
    if keys == [] then []
    else
      assert keys == [keys[0]] + keys[1..];
      if keys[0] == BASE then WithoutBase(keys[1..]) else [keys[0]] + WithoutBase(keys[1..])
  }

  /**
   * `a.localeCompare(b)` on currency codes: lexicographic order of the
   * characters, a proper prefix first; negative, zero or positive.
   */
  function LocaleCompare(a: string, b: string): (r: int)
    ensures -1 <= r <= 1
    ensures a < b ==> r == -1
    ensures b < a ==> r == 1
    ensures forall k :: 0 <= k < |a| && k < |b| && a[..k] == b[..k] && a[k] != b[k]
                        ==> (r == -1 <==> a[k] < b[k])
  {
    if a == [] then (if b == [] then 0 else -1)
    else if b == [] then 1
    else if a[0] < b[0] then -1
    else if a[0] > b[0] then 1
    else
      assert forall k :: 0 < k < |a| && k < |b| && a[..k] == b[..k]
                         ==> a[1..][..k - 1] == a[..k][1..] == b[1..][..k - 1];
      LocaleCompare(a[1..], b[1..])
  }

  /** The comparator passed to `sort`: named codes first, then `localeCompare`. */
  function Compare(a: string, b: string): (r: int)
    ensures -1 <= r <= 1
    ensures CurrencyLabels.HasName(a) != CurrencyLabels.HasName(b) ==> (r == -1 <==> CurrencyLabels.HasName(a))
    ensures CurrencyLabels.HasName(a) == CurrencyLabels.HasName(b) ==> r == LocaleCompare(a, b)
  {
    var aHasName := CurrencyLabels.HasName(a);
    var bHasName := CurrencyLabels.HasName(b);
    if aHasName && !bHasName then -1
    else if !aHasName && bHasName then 1
    else LocaleCompare(a, b)
  }

  lemma {:induction false} LocaleCompareAntisymmetric(a: string, b: string)
    ensures LocaleCompare(a, b) == -LocaleCompare(b, a)
  {
    if a != [] && b != [] && a[0] == b[0] {
      LocaleCompareAntisymmetric(a[1..], b[1..]);
    }
  }

  lemma {:induction false} LocaleCompareZeroIffEqual(a: string, b: string)
    ensures LocaleCompare(a, b) == 0 <==> a == b
  {
    if a != [] && b != [] && a[0] == b[0] {
      LocaleCompareZeroIffEqual(a[1..], b[1..]);
      assert a == [a[0]] + a[1..];
      assert b == [b[0]] + b[1..];
    }
  }

  lemma {:induction false} LocaleCompareTransitive(a: string, b: string, c: string)
    requires LocaleCompare(a, b) < 0 && LocaleCompare(b, c) < 0
    ensures LocaleCompare(a, c) < 0
  {
    if a != [] && b != [] && c != [] && a[0] == b[0] == c[0] {
      LocaleCompareTransitive(a[1..], b[1..], c[1..]);
    }
  }

  /** The comparator says the same thing whichever way round it is asked. */
  lemma CompareAntisymmetric(a: string, b: string)
    ensures Compare(a, b) == -Compare(b, a)
  {
    LocaleCompareAntisymmetric(a, b);
  }

  /** The comparator reports a tie only for equal codes, so every ordering it allows is total. */
  lemma CompareZeroIffEqual(a: string, b: string)
    ensures Compare(a, b) == 0 <==> a == b
  {
    LocaleCompareZeroIffEqual(a, b);
  }

  lemma CompareStrictTransitive(a: string, b: string, c: string)
    requires Compare(a, b) < 0 && Compare(b, c) < 0
    ensures Compare(a, c) < 0
  {
    if CurrencyLabels.HasName(a) == CurrencyLabels.HasName(b) == CurrencyLabels.HasName(c) {
      LocaleCompareTransitive(a, b, c);
    }
  }

  /** The comparator is transitive, so `sort` is given a consistent comparator. */
  lemma CompareTransitive(a: string, b: string, c: string)
    requires Compare(a, b) <= 0 && Compare(b, c) <= 0
    ensures Compare(a, c) <= 0
  {
    CompareZeroIffEqual(a, b);
    CompareZeroIffEqual(b, c);
    if a != b && b != c {
      CompareStrictTransitive(a, b, c);
    }
  }

  /** The comparator of `sortedCurrencies` is a valid one. */
  lemma CompareIsValid()
    ensures ValidComparator(Compare)
  {
    forall a, b ensures Compare(a, b) == -Compare(b, a) {
      CompareAntisymmetric(a, b);
    }
    forall a, b ensures Compare(a, b) == 0 ==> a == b {
      CompareZeroIffEqual(a, b);
    }
    forall a, b, c ensures Chained(Compare, a, b, c) {
      if Compare(a, b) <= 0 && Compare(b, c) <= 0 {
        CompareTransitive(a, b, c);
      }
    }
  }

  /** Ordered by the comparator of `sortedCurrencies`. */
  predicate Ordered(s: seq<string>) {
    OrderedBy(s, Compare)
  }

  /** In an ordered list every named code comes before every unnamed one. */
  lemma NamedFirst(s: seq<string>, i: int, j: int)
    requires Ordered(s) && 0 <= i < j < |s|
    requires CurrencyLabels.HasName(s[j])
    ensures CurrencyLabels.HasName(s[i])
  {
    assert Compare(s[i], s[j]) <= 0;
  }

  /** In an ordered list codes of the same group are in `localeCompare` order. */
  lemma GroupInLocaleOrder(s: seq<string>, i: int, j: int)
    requires Ordered(s) && 0 <= i < j < |s|
    requires CurrencyLabels.HasName(s[i]) == CurrencyLabels.HasName(s[j])
    ensures LocaleCompare(s[i], s[j]) <= 0
  {
    assert Compare(s[i], s[j]) <= 0;
  }

  /** Both group properties of an ordered list, for all positions at once. */
  lemma OrderedGroups(r: seq<string>)
    requires Ordered(r)
    ensures forall i, j :: 0 <= i < j < |r| && CurrencyLabels.HasName(r[j]) ==> CurrencyLabels.HasName(r[i])
    ensures forall i, j :: 0 <= i < j < |r| && CurrencyLabels.HasName(r[i]) == CurrencyLabels.HasName(r[j])
                           ==> LocaleCompare(r[i], r[j]) < 0 || r[i] == r[j]
  {
    forall i, j | 0 <= i < j < |r| && CurrencyLabels.HasName(r[j])
      ensures CurrencyLabels.HasName(r[i])
    {
      NamedFirst(r, i, j);
    }
    forall i, j | 0 <= i < j < |r| && CurrencyLabels.HasName(r[i]) == CurrencyLabels.HasName(r[j])
      ensures LocaleCompare(r[i], r[j]) < 0 || r[i] == r[j]
    {
      GroupInLocaleOrder(r, i, j);
      LocaleCompareZeroIffEqual(r[i], r[j]);
    }
  }

  /**
   * `sortedCurrencies`: the rate-table keys (in `Object.keys` order) without the
   * base currency, sorted by the comparator.
   */
  method SortedCurrencies(keys: seq<string>) returns (r: seq<string>)
    ensures multiset(r) == multiset(keys)[BASE := 0]
    ensures forall c :: c in r <==> c in keys && c != BASE
    ensures Ordered(r)
    ensures forall i, j :: 0 <= i < j < |r| && CurrencyLabels.HasName(r[j]) ==> CurrencyLabels.HasName(r[i])
    ensures forall i, j :: 0 <= i < j < |r| && CurrencyLabels.HasName(r[i]) == CurrencyLabels.HasName(r[j])
                           ==> LocaleCompare(r[i], r[j]) < 0 || r[i] == r[j]
  {
    var filtered := WithoutBase(keys);
    var a := new string[|filtered|](k requires 0 <= k < |filtered| => filtered[k]);
    assert a[..] == filtered;
    CompareIsValid();
    Sort(a, Compare);
    r := a[..];
    assert forall c :: c in r <==> c in multiset(r);
    OrderedGroups(r);
  }

  /** With the same keys, any order of them the source could produce is the same list. */
  lemma SortDeterministic(keys: seq<string>, keys': seq<string>, r: seq<string>, r': seq<string>)
    requires multiset(keys) == multiset(keys')
    requires Ordered(r) && multiset(r) == multiset(keys)[BASE := 0]
    requires Ordered(r') && multiset(r') == multiset(keys')[BASE := 0]
    ensures r == r'
  {
    CompareIsValid();
    OrderedUnique(r, r', Compare);
  }

  lemma SampleNames()
    ensures CurrencyLabels.HasName("eur") && CurrencyLabels.HasName("inr")
    ensures !CurrencyLabels.HasName("xyz") && !CurrencyLabels.HasName("aave")
  {
    assert ("eur" in CurrencyLabels.CURRENCY_NAMES) && ("inr" in CurrencyLabels.CURRENCY_NAMES);
    CurrencyLabels.HasNameIsMembership("eur");
    CurrencyLabels.HasNameIsMembership("inr");
  }

  lemma SampleListOrdered()
    ensures Ordered(["eur", "inr", "xyz"])
  {
    var s := ["eur", "inr", "xyz"];
    SampleNames();
    assert LocaleCompare(s[0], s[1]) < 0;
    assert Compare(s[0], s[1]) < 0;
    assert Compare(s[1], s[2]) < 0;
    assert Compare(s[0], s[2]) < 0;
  }

  /** Rates for "eur", "inr", "usd" and an unnamed "xyz": the list is eur, inr, xyz. */
  lemma SampleTable(r: seq<string>)
    requires Ordered(r) && multiset(r) == multiset(["xyz", "usd", "inr", "eur"])[BASE := 0]
    ensures r == ["eur", "inr", "xyz"]
  {
    var expected := ["eur", "inr", "xyz"];
    SampleListOrdered();
    assert multiset(["xyz", "usd", "inr", "eur"])[BASE := 0] == multiset(expected);
    CompareIsValid();
    OrderedUnique(r, expected, Compare);
  }

  lemma EurBeforeAave()
    ensures Ordered(["eur", "aave"])
  {
    var s := ["eur", "aave"];
    SampleNames();
    assert Compare(s[0], s[1]) < 0;
  }

  /** A named code precedes an unnamed one even when it is alphabetically later. */
  lemma NamedBeforeAlphabet(r: seq<string>)
    requires Ordered(r) && multiset(r) == multiset(["aave", "eur", "usd"])[BASE := 0]
    ensures r == ["eur", "aave"]
  {
    var expected := ["eur", "aave"];
    EurBeforeAave();
    assert multiset(["aave", "eur", "usd"])[BASE := 0] == multiset(expected);
    CompareIsValid();
    OrderedUnique(r, expected, Compare);
  }
}
