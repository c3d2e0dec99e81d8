/** Concrete orderings, derived from the general lemmas: the docstring of
    `natural_key` (51.9 < 51.29 < 52.09), clip_9 < clip_29 < clip_100,
    a_1 < a_2 < a_10, and ties from leading zeros and letter case. Each
    comparison is proved about names passed as parameters and taken apart
    into their text and digit runs, so that every step is one of the general
    lemmas rather than an evaluation of the key. */
module Scenarios {
  import opened NaturalKey
  import opened KeyOrder
  import NaturalSort
  import StableSort

  /** The values of the digit runs that occur below. */
  lemma DigitValues()
    ensures Value("9") == 9 && Value("09") == 9 && Value("29") == 29 && Value("100") == 100
    ensures Value("51") == 51 && Value("52") == 52
    ensures Value("1") == 1 && Value("2") == 2 && Value("10") == 10
  {
  }

  /** The docstring of `natural_key`: 51.9 < 51.29 < 52.09. */
  lemma DocstringOrder()
    ensures NaturalLess("51.9", "51.29") && NaturalLess("51.29", "52.09")
  {
    FractionsCompareByValue("51.9", "51.29");
    WholePartsCompareByValue("51.29", "52.09");
  }

  /** 51.9 < 51.29: after the same whole part, 9 < 29. */
  lemma FractionsCompareByValue(a: string, b: string)
    requires a == "51.9" && b == "51.29"
    ensures NaturalLess(a, b)
  {
    DigitValues();
    var none, whole, dot, nine, twentyNine := "", "51", ".", "9", "29";
    var r1, r2 := dot + nine + none, dot + twentyNine + none;
    assert a == none + whole + r1 && b == none + whole + r2;
    NumbersCompareByValue(dot, nine, none, twentyNine, none);
    SharedRunIsSkipped(none, whole, r1, r2);
  }

  /** 51.29 < 52.09: the whole parts decide. */
  lemma WholePartsCompareByValue(b: string, c: string)
    requires b == "51.29" && c == "52.09"
    ensures NaturalLess(b, c)
  {
    DigitValues();
    var none, fiftyOne, fiftyTwo, r1, r2 := "", "51", "52", ".29", ".09";
    assert b == none + fiftyOne + r1 && c == none + fiftyTwo + r2;
    NumbersCompareByValue(none, fiftyOne, r1, fiftyTwo, r2);
  }

  /** clip_9 < clip_29 < clip_100 with any extension after the number:
      numbers compare by value, not character by character. */
  lemma ClipNamesCompareByValue(ext: string, a: string, b: string, c: string)
    requires ext == "" || !IsDigit(ext[0])
    requires a == "clip_9" + ext && b == "clip_29" + ext && c == "clip_100" + ext
    ensures NaturalLess(a, b) && NaturalLess(b, c)
  {
    DigitValues();
    var clip, nine, twentyNine, hundred := "clip_", "9", "29", "100";
    assert "clip_9" == clip + nine && "clip_29" == clip + twentyNine && "clip_100" == clip + hundred;
    NumbersCompareByValue(clip, nine, ext, twentyNine, ext);
    NumbersCompareByValue(clip, twentyNine, ext, hundred, ext);
  }

  /** clip_9 < clip_29 < clip_100. */
  lemma ClipOrder()
    ensures NaturalLess("clip_9", "clip_29") && NaturalLess("clip_29", "clip_100")
  {
    ClipNamesCompareByValue("", "clip_9", "clip_29", "clip_100");
  }

  /** The same with the extension: clip_9.mp4 < clip_29.mp4 < clip_100.mp4. */
  lemma ClipFileOrder()
    ensures NaturalLess("clip_9.mp4", "clip_29.mp4") && NaturalLess("clip_29.mp4", "clip_100.mp4")
  {
    ClipNamesCompareByValue(".mp4", "clip_9.mp4", "clip_29.mp4", "clip_100.mp4");
  }

  /** Two names that differ only in how their first number is written tie,
      whatever follows the number. */
  lemma NumbersTie(t: string, d1: string, d2: string, u: string)
    requires NoDigits(t) && IsDigitString(d1) && IsDigitString(d2)
    requires u == "" || !IsDigit(u[0])
    requires Value(d1) == Value(d2)
    ensures Key(t + d1 + u) == Key(t + d2 + u)
  {
    KeyRun(t, d1, u);
    KeyRun(t, d2, u);
  }

  /** Leading zeros do not change a key: clip_9 and clip_09 tie. */
  lemma LeadingZerosTie()
    ensures Key("clip_9") == Key("clip_09")
  {
    PaddedNamesTie("clip_9", "clip_09");
  }

  /** clip_9 and clip_09, passed as parameters. */
  lemma PaddedNamesTie(a: string, b: string)
    requires a == "clip_9" && b == "clip_09"
    ensures Key(a) == Key(b)
  {
    DigitValues();
    var clip, nine, zeroNine, none := "clip_", "9", "09", "";
    assert a == clip + nine + none && b == clip + zeroNine + none;
    NumbersTie(clip, nine, zeroNine, none);
  }

  /** Letter case does not change a key: A_1 and a_1 tie. */
  lemma LetterCaseTies()
    ensures Key("A_1") == Key("a_1")
  {
    var upper := "A_1";
    KeyIgnoresCase(upper);
    assert Lower(upper) == "a_1";
  }

  /** a_1.mp4 < a_2.mp4 < a_10.mp4. */
  lemma AssemblyNamesCompareByValue(a: string, b: string, c: string)
    requires a == "a_1.mp4" && b == "a_2.mp4" && c == "a_10.mp4"
    ensures NaturalLess(a, b) && NaturalLess(b, c)
  {
    DigitValues();
    var t, one, two, ten, ext := "a_", "1", "2", "10", ".mp4";
    assert a == t + one + ext && b == t + two + ext && c == t + ten + ext;
    NumbersCompareByValue(t, one, ext, two, ext);
    NumbersCompareByValue(t, two, ext, ten, ext);
  }

  /** Sorting three elements enumerated as x, z, y where y's key is below z's
      and not below x's gives x, y, z. */
  lemma SortThree<T, K>(x: T, z: T, y: T, key: T -> K, lt: (K, K) -> bool)
    requires lt(key(y), key(z)) && !lt(key(y), key(x))
    ensures StableSort.Sort([x, z, y], key, lt) == [x, y, z]
  {
    assert [x, z, y][1..] == [z, y] && [z, y][1..] == [y] && [y][1..] == [];
    var one := StableSort.Sort([y], key, lt);
    assert one == StableSort.Insert(y, [], key, lt) == [y];
    var two := StableSort.Insert(z, [y], key, lt);
    assert two == [y] + StableSort.Insert(z, [], key, lt) == [y] + [z] == [y, z];
    assert StableSort.Sort([z, y], key, lt) == two;
    assert StableSort.Insert(x, [y, z], key, lt) == [x] + [y, z] == [x, y, z];
  }

  /** The directory holds a_1.mp4, a_10.mp4 and a_2.mp4 in that enumeration
      order; they are assembled as a_1.mp4, a_2.mp4, a_10.mp4. */
  lemma AssemblyOrder()
    ensures NaturalSort.SortFiles(["a_1.mp4", "a_10.mp4", "a_2.mp4"]) == ["a_1.mp4", "a_2.mp4", "a_10.mp4"]
  {
    AssemblyNamesCompareByValue("a_1.mp4", "a_2.mp4", "a_10.mp4");
    KeyLtAsymmetric(Key("a_1.mp4"), Key("a_2.mp4"));
    SortThree("a_1.mp4", "a_10.mp4", "a_2.mp4", Key, NaturalSort.KeyLess);
  }
}
