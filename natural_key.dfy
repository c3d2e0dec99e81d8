/** The natural-sort key of a file name: the name is cut into alternating
    runs of non-digits and digits (as `re.split(r'(\d+)', s)` does), digit
    runs become their integer value and text runs are lower-cased.
    Digits and lower-casing are restricted to ASCII. */
module NaturalKey {

  /** One element of a key: a lower-cased text run or the value of a digit run. */
  datatype Seg = Text(text: string) | Num(value: nat)

  /** Parity of an index, by steps of two. */
  predicate Even(i: nat) { if i < 2 then i == 0 else Even(i - 2) }

  predicate IsDigit(c: char) { '0' <= c <= '9' }

  predicate NoDigits(s: string) { forall i :: 0 <= i < |s| ==> !IsDigit(s[i]) }

  /** `str.isdigit()`: non-empty and made of digits only. */
  predicate IsDigitString(s: string) { |s| > 0 && forall i :: 0 <= i < |s| ==> IsDigit(s[i]) }

  function LowerChar(c: char): char
  {
    if 'A' <= c <= 'Z' then (c as int + 32) as char else c
  }

  /** `str.lower()` on ASCII letters; every other character is kept. The
      result has the length of `s`, keeps every character that is not an
      upper-case letter in place, and holds no upper-case letter. */
  function Lower(s: string): (r: string)
    ensures |r| == |s|
    ensures forall i :: 0 <= i < |s| ==> (IsDigit(r[i]) <==> IsDigit(s[i]))
    ensures forall i :: 0 <= i < |s| && !('A' <= s[i] <= 'Z') ==> r[i] == s[i]
    ensures forall i :: 0 <= i < |r| ==> !('A' <= r[i] <= 'Z')
  {
    seq(|s|, i requires 0 <= i < |s| => LowerChar(s[i]))
  }

  function DigitValue(c: char): nat
    requires IsDigit(c)
  {
    c as int - '0' as int
  }

  /** `int(text)` on a run of decimal digits: zero exactly when every digit
      is `0`. */
  function Value(d: string): (v: nat)
    requires forall i :: 0 <= i < |d| ==> IsDigit(d[i])
    ensures v == 0 <==> forall i :: 0 <= i < |d| ==> d[i] == '0'
  {
    if |d| == 0 then 0 else Value(d[..|d| - 1]) * 10 + DigitValue(d[|d| - 1])
  }

  /** A leading zero adds nothing to the value of a digit run. */
  lemma {:induction false} LeadingZero(d: string)
    requires forall i :: 0 <= i < |d| ==> IsDigit(d[i])
    ensures Value("0" + d) == Value(d)
    decreases |d|
  {
    var z := "0" + d;
    if |d| > 0 {
      var init := d[..|d| - 1];
      assert z[..|z| - 1] == "0" + init && z[|z| - 1] == d[|d| - 1];
      LeadingZero(init);
    } else {
      assert z[..|z| - 1] == "";
    }
  }

  /** Length of the longest prefix of `s` without a digit. */
  function TextRunLen(s: string): (n: nat)
    ensures n <= |s| && NoDigits(s[..n])
    ensures n < |s| ==> IsDigit(s[n])
  {
    if |s| == 0 || IsDigit(s[0]) then 0 else 1 + TextRunLen(s[1..])
  }

  /** Length of the longest prefix of `s` made of digits. */
  function DigitRunLen(s: string): (n: nat)
    ensures n <= |s| && forall i :: 0 <= i < n ==> IsDigit(s[i])
    ensures n < |s| ==> !IsDigit(s[n])
    ensures |s| > 0 && IsDigit(s[0]) ==> n > 0
  {
    if |s| == 0 || !IsDigit(s[0]) then 0 else 1 + DigitRunLen(s[1..])
  }

  /** `re.split(r'(\d+)', s)`: a text run, then (digit run, text run) pairs.
      The first piece is the longest digit-free prefix of `s`, and there is
      exactly one piece when `s` holds no digit. */
  function Split(s: string): (parts: seq<string>)
    ensures |parts| > 0 && |parts[0]| <= |s| && parts[0] == s[..|parts[0]|] && NoDigits(parts[0])
    ensures |parts[0]| < |s| ==> IsDigit(s[|parts[0]|])
    ensures |parts| == 1 <==> NoDigits(s)
    decreases |s|
  {
    var t := TextRunLen(s);
    if t == |s| then assert s[..t] == s; [s]
    else
      var rest := s[t..];
      var d := DigitRunLen(rest);
      [s[..t], rest[..d]] + Split(rest[d..])
  }

  /** `"".join(parts)`. */
  function Concat(parts: seq<string>): string
  {
    if |parts| == 0 then "" else parts[0] + Concat(parts[1..])
  }

  /** The list comprehension: `int(text) if text.isdigit() else text.lower()`.
      A digit run becomes a number; anything else stays text of the same
      length, without upper-case letters. */
  function SegKey(text: string): (k: Seg)
    ensures k.Num? <==> IsDigitString(text)
    ensures k.Text? ==> |k.text| == |text| && forall i :: 0 <= i < |text| ==> !('A' <= k.text[i] <= 'Z')
  {
    if IsDigitString(text) then Num(Value(text)) else Text(Lower(text))
  }

  /** The list comprehension over the pieces of `re.split`: one element per
      piece, a number exactly where the piece is a digit run. */
  function SegKeys(parts: seq<string>): (k: seq<Seg>)
    ensures |k| == |parts|
    ensures forall i :: 0 <= i < |parts| ==> (k[i].Num? <==> IsDigitString(parts[i]))
  {
    seq(|parts|, i requires 0 <= i < |parts| => SegKey(parts[i]))
  }

  /** `natural_key(s)`: never empty and always led by text (possibly empty
      text); a single element exactly when `s` holds no digit. */
  function Key(s: string): (k: seq<Seg>)
    ensures |k| > 0 && k[0].Text?
    ensures |k| == 1 <==> NoDigits(s)
  {
    var parts := Split(s);
    TextIsNotDigits(parts[0]);
    SegKeys(parts)
  }

  /** A key whose text segments sit at even and numbers at odd indices. */
  predicate Alternating(k: seq<Seg>)
  {
    forall i :: 0 <= i < |k| ==> (k[i].Text? <==> Even(i))
  }

  /** The pieces of `re.split` are exactly what the regular expression
      promises: an odd number of them, digit-free text at even indices
      (empty only at either end), maximal non-empty digit runs at odd
      indices, and together they spell `s`. */
  lemma SplitIsRegexSplit(s: string)
    ensures !Even(|Split(s)|)
    ensures Concat(Split(s)) == s
    ensures forall i :: 0 <= i < |Split(s)| && Even(i) ==> NoDigits(Split(s)[i])
    ensures forall i :: 0 <= i < |Split(s)| && !Even(i) ==> IsDigitString(Split(s)[i])
    ensures forall i :: 0 < i < |Split(s)| - 1 && Even(i) ==> Split(s)[i] != ""
  {
    SplitJoins(s);
    SplitAlternates(s);
    SplitInteriorTexts(s);
  }

  /** One step of `re.split` on a string that holds a digit: the leading
      text run, the digit run after it, and what follows. */
  lemma SplitUnfold(s: string) returns (head: string, run: string, tail: string)
    requires TextRunLen(s) < |s|
    ensures s == head + (run + tail) && s == head + run + tail && |tail| < |s|
    ensures NoDigits(head) && IsDigitString(run) && (tail == "" || !IsDigit(tail[0]))
    ensures Split(s) == [head, run] + Split(tail)
  {
    var t := TextRunLen(s);
    var rest := s[t..];
    var d := DigitRunLen(rest);
    head, run, tail := s[..t], rest[..d], rest[d..];
    assert rest == run + tail;
    assert s == head + rest;
  }

  /** Joining the pieces of `re.split` gives back the string. */
  lemma {:induction false} SplitJoins(s: string)
    ensures Concat(Split(s)) == s
    decreases |s|
  {
    if TextRunLen(s) < |s| {
      var head, run, tail := SplitUnfold(s);
      SplitJoins(tail);
      ConcatPair(head, run, Split(tail));
    } else {
      assert Split(s)[1..] == [];
    }
  }

  lemma ConcatPair(a: string, b: string, ps: seq<string>)
    ensures Concat([a, b] + ps) == a + (b + Concat(ps))
  {
    assert ([a, b] + ps)[1..] == [b] + ps;
    assert ([b] + ps)[1..] == ps;
  }

  /** The pieces alternate: digit-free text at even indices, non-empty digit
      runs at odd indices, and there is one more text than digit run. */
  lemma {:induction false} SplitAlternates(s: string)
    ensures !Even(|Split(s)|)
    ensures forall i :: 0 <= i < |Split(s)| && Even(i) ==> NoDigits(Split(s)[i])
    ensures forall i :: 0 <= i < |Split(s)| && !Even(i) ==> IsDigitString(Split(s)[i])
    decreases |s|
  {
    if TextRunLen(s) < |s| {
      var head, run, tail := SplitUnfold(s);
      SplitAlternates(tail);
      AlternatesPrepend(head, run, Split(tail));
    }
  }

  /** Texts at even and digit runs at odd indices, one more text than runs. */
  predicate Alternates(parts: seq<string>)
  {
    !Even(|parts|) &&
    (forall i :: 0 <= i < |parts| && Even(i) ==> NoDigits(parts[i])) &&
    (forall i :: 0 <= i < |parts| && !Even(i) ==> IsDigitString(parts[i]))
  }

  lemma AlternatesPrepend(t: string, d: string, ps: seq<string>)
    requires NoDigits(t) && IsDigitString(d) && Alternates(ps)
    ensures Alternates([t, d] + ps)
  {
    var parts := [t, d] + ps;
    forall i | 2 <= i < |parts|
      ensures parts[i] == ps[i - 2] && (Even(i) <==> Even(i - 2))
    {
    }
  }

  /** A text piece between two digit runs is never empty: the digit runs are
      maximal. */
  lemma {:induction false} SplitInteriorTexts(s: string)
    ensures forall i :: 0 < i < |Split(s)| - 1 && Even(i) ==> Split(s)[i] != ""
    decreases |s|
  {
    if TextRunLen(s) < |s| {
      var head, run, tail := SplitUnfold(s);
      SplitInteriorTexts(tail);
      SplitFirstText(tail);
      if tail == "" {
        assert Split(tail) == [""];
      }
      InteriorPrepend(head, run, Split(tail));
    }
  }

  lemma InteriorPrepend(t: string, d: string, ps: seq<string>)
    requires forall i :: 0 < i < |ps| - 1 && Even(i) ==> ps[i] != ""
    requires |ps| > 1 ==> ps[0] != ""
    ensures forall i :: 0 < i < |[t, d] + ps| - 1 && Even(i) ==> ([t, d] + ps)[i] != ""
  {
    var parts := [t, d] + ps;
    forall i | 0 < i < |parts| - 1 && Even(i)
      ensures parts[i] != ""
    {
      assert parts[i] == ps[i - 2] && Even(i - 2);
    }
  }

  /** The first piece is empty only when the string starts with a digit or is empty. */
  lemma SplitFirstText(s: string)
    ensures s != "" && !IsDigit(s[0]) ==> Split(s)[0] != ""
  {
    if s != "" && !IsDigit(s[0]) {
      assert TextRunLen(s) > 0;
    }
  }

  /** A key has odd length, lower-cased digit-free text at even indices and the
      values of the digit runs at odd indices; in particular it alternates, so
      comparing two keys never pits a number against a text. */
  lemma KeyShape(s: string)
    ensures |Key(s)| == |Split(s)| && !Even(|Key(s)|)
    ensures Alternating(Key(s))
    ensures forall i :: 0 <= i < |Key(s)| && Even(i) ==>
      Key(s)[i] == Text(Lower(Split(s)[i])) && NoDigits(Key(s)[i].text)
    ensures forall i :: 0 <= i < |Key(s)| && !Even(i) ==> Key(s)[i] == Num(Value(Split(s)[i]))
  {
    SplitAlternates(s);
    forall i | 0 <= i < |Key(s)|
      ensures Even(i) ==> Key(s)[i] == Text(Lower(Split(s)[i])) && NoDigits(Key(s)[i].text)
      ensures !Even(i) ==> Key(s)[i] == Num(Value(Split(s)[i]))
    {
      var p := Split(s)[i];
      assert Key(s)[i] == SegKey(p);
      if Even(i) {
        TextIsNotDigits(p);
      }
    }
  }

  /** `re.split` on a text run, a maximal digit run and the rest. */
  lemma SplitRun(t: string, d: string, r: string)
    requires NoDigits(t) && IsDigitString(d)
    requires r == "" || !IsDigit(r[0])
    ensures Split(t + d + r) == [t, d] + Split(r)
  {
    var dr := d + r;
    var s := t + dr;
    assert t + d + r == s;
    TextRunLenOf(t, dr);
    DigitRunLenOf(d, r);
    assert s[..|t|] == t && s[|t|..] == dr;
    assert dr[..|d|] == d && dr[|d|..] == r;
  }

  /** `re.split` on a string without digits is that string alone. */
  lemma SplitText(t: string)
    requires NoDigits(t)
    ensures Split(t) == [t]
  {
    TextRunLenOf(t, "");
    assert t + "" == t;
  }

  lemma {:induction false} TextRunLenOf(t: string, r: string)
    requires NoDigits(t)
    requires r == "" || IsDigit(r[0])
    ensures TextRunLen(t + r) == |t|
    decreases |t|
  {
    if |t| > 0 {
      assert (t + r)[1..] == t[1..] + r;
      TextRunLenOf(t[1..], r);
    } else {
      assert t + r == r;
    }
  }

  lemma {:induction false} DigitRunLenOf(d: string, r: string)
    requires forall i :: 0 <= i < |d| ==> IsDigit(d[i])
    requires r == "" || !IsDigit(r[0])
    ensures DigitRunLen(d + r) == |d|
    decreases |d|
  {
    if |d| > 0 {
      assert (d + r)[1..] == d[1..] + r;
      DigitRunLenOf(d[1..], r);
    } else {
      assert d + r == r;
    }
  }

  /** The key of a text run followed by a maximal digit run and the rest. */
  lemma KeyRun(t: string, d: string, r: string)
    requires NoDigits(t) && IsDigitString(d)
    requires r == "" || !IsDigit(r[0])
    ensures Key(t + d + r) == [Text(Lower(t)), Num(Value(d))] + Key(r)
  {
    SplitRun(t, d, r);
    TextIsNotDigits(t);
    SegKeysPrepend(t, d, Split(r));
  }

  lemma SegKeysPrepend(t: string, d: string, ps: seq<string>)
    ensures SegKeys([t, d] + ps) == [SegKey(t), SegKey(d)] + SegKeys(ps)
  {
    var k, want := SegKeys([t, d] + ps), [SegKey(t), SegKey(d)] + SegKeys(ps);
    assert |k| == |want|;
    forall i | 0 <= i < |k|
      ensures k[i] == want[i]
    {
      if i >= 2 {
        assert ([t, d] + ps)[i] == ps[i - 2];
      }
    }
  }

  /** The key of a string without digits is its lower-cased self. */
  lemma KeyText(t: string)
    requires NoDigits(t)
    ensures Key(t) == [Text(Lower(t))]
  {
    SplitText(t);
    TextIsNotDigits(t);
  }

  lemma TextIsNotDigits(t: string)
    requires NoDigits(t)
    ensures !IsDigitString(t)
  {
    if |t| > 0 { assert !IsDigit(t[0]); }
  }

  /** Lower-casing does not change a key: `natural_key` ignores letter case. */
  lemma {:induction false} KeyIgnoresCase(s: string)
    ensures Key(Lower(s)) == Key(s)
    decreases |s|
  {
    if TextRunLen(s) == |s| {
      assert s[..|s|] == s;
      KeyIgnoresCaseOfText(s);
    } else {
      var head, run, tail := SplitUnfold(s);
      KeyIgnoresCase(tail);
      KeyIgnoresCaseOfRun(head, run, tail);
    }
  }

  lemma KeyIgnoresCaseOfText(t: string)
    requires NoDigits(t)
    ensures Key(Lower(t)) == Key(t)
  {
    KeyText(t);
    KeyText(Lower(t));
    LowerIdempotent(t);
  }

  lemma KeyIgnoresCaseOfRun(t: string, d: string, r: string)
    requires NoDigits(t) && IsDigitString(d)
    requires r == "" || !IsDigit(r[0])
    requires Key(Lower(r)) == Key(r)
    ensures Key(Lower(t + d + r)) == Key(t + d + r)
  {
    LowerConcat3(t, d, r);
    KeyRun(t, d, r);
    KeyRun(Lower(t), Lower(d), Lower(r));
    LowerIdempotent(t);
    LowerOfDigits(d);
  }

  lemma LowerIdempotent(s: string)
    ensures Lower(Lower(s)) == Lower(s)
  {
  }

  lemma LowerOfDigits(d: string)
    requires forall i :: 0 <= i < |d| ==> IsDigit(d[i])
    ensures Lower(d) == d
  {
  }

  lemma LowerConcat3(a: string, b: string, c: string)
    ensures Lower(a + b + c) == Lower(a) + Lower(b) + Lower(c)
  {
  }

  /** The first piece of `re.split` is the leading text run. */
  lemma SplitLeadingText(t: string, r: string)
    requires NoDigits(t)
    requires r == "" || IsDigit(r[0])
    ensures |Split(t + r)| > 0 && Split(t + r)[0] == t
  {
    TextRunLenOf(t, r);
    assert (t + r)[..|t|] == t;
  }
}
