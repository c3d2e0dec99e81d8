/** Python's `<` on natural keys, as `sorted` uses it: lists compare at the
    first index where their elements differ (`==` between an int and a str is
    simply false), and a proper prefix is smaller; at that index the two
    elements are compared with `<`, which raises `TypeError` for an int
    against a str. Strings compare by code point, a prefix first. */
module KeyOrder {
  import opened NaturalKey

  /** The outcome of evaluating `a < b` in Python. */
  datatype LtResult = Lt(holds: bool) | TypeError

  /** `s < t` on Python strings: a proper prefix is smaller. */
  function TextLt(s: string, t: string): (r: bool)
    ensures |s| < |t| && s == t[..|s|] ==> r
  {
    if |s| == 0 || |t| == 0 then |s| < |t|
    else if s[0] != t[0] then s[0] < t[0]
    else
      assert |s| < |t| && s == t[..|s|] ==> s[1..] == t[1..][..|s| - 1];
      TextLt(s[1..], t[1..])
  }

  /** `x < y` on two elements of a key: `TypeError` exactly when an int
      meets a str. */
  function SegLt(x: Seg, y: Seg): (r: LtResult)
    ensures r == TypeError <==> x.Text? != y.Text?
  {
    match (x, y)
    case (Num(m), Num(n)) => Lt(m < n)
    case (Text(s), Text(t)) => Lt(TextLt(s, t))
    case _ => TypeError
  }

  /** `a < b` on two keys (Python lists): a proper prefix is smaller. */
  function KeyLt(a: seq<Seg>, b: seq<Seg>): (r: LtResult)
    ensures |a| < |b| && a == b[..|a|] ==> r == Lt(true)
  {
    if |a| == 0 || |b| == 0 then Lt(|a| < |b|)
    else if a[0] != b[0] then SegLt(a[0], b[0])
    else
      assert |a| < |b| && a == b[..|a|] ==> a[1..] == b[1..][..|a| - 1];
      KeyLt(a[1..], b[1..])
  }

  /** Two keys whose elements agree in kind index by index. */
  predicate SameShape(a: seq<Seg>, b: seq<Seg>)
  {
    forall i :: 0 <= i < |a| && i < |b| ==> a[i].Text? == b[i].Text?
  }

  /** The order `sorted(..., key=natural_key)` uses on file names. */
  predicate NaturalLess(x: string, y: string)
  {
    KeyLt(Key(x), Key(y)) == Lt(true)
  }

  /** Comparing keys of the same shape never raises. */
  lemma {:induction false} SameShapeComparable(a: seq<Seg>, b: seq<Seg>)
    requires SameShape(a, b)
    ensures KeyLt(a, b).Lt?
    decreases |a|
  {
    if |a| > 0 && |b| > 0 && a[0] == b[0] {
      assert SameShape(a[1..], b[1..]) by {
        forall i | 0 <= i < |a[1..]| && i < |b[1..]|
          ensures a[1..][i].Text? == b[1..][i].Text?
        {
          assert a[1..][i] == a[i + 1] && b[1..][i] == b[i + 1];
        }
      }
      SameShapeComparable(a[1..], b[1..]);
    } else if |a| > 0 && |b| > 0 {
      assert a[0].Text? == b[0].Text?;
    }
  }

  /** Comparing the natural keys of any two file names never raises
      `TypeError`: both keys alternate text and number from index 0. */
  lemma KeysComparable(x: string, y: string)
    ensures KeyLt(Key(x), Key(y)).Lt?
  {
    KeyShape(x);
    KeyShape(y);
    var a, b := Key(x), Key(y);
    forall i | 0 <= i < |a| && i < |b|
      ensures a[i].Text? == b[i].Text?
    {
      assert a[i].Text? <==> Even(i);
      assert b[i].Text? <==> Even(i);
    }
    SameShapeComparable(a, b);
  }

  /** A list containing a str where the other has an int, at the first
      difference, does raise: the alternation is what keeps natural keys safe. */
  lemma MixedKeysRaise()
    ensures KeyLt([Text("a")], [Num(1)]) == TypeError
  {
  }

  lemma {:induction false} TextLtIrreflexive(s: string)
    ensures !TextLt(s, s)
    decreases |s|
  {
    if |s| > 0 { TextLtIrreflexive(s[1..]); }
  }

  lemma {:induction false} TextLtTransitive(s: string, t: string, u: string)
    requires TextLt(s, t) && TextLt(t, u)
    ensures TextLt(s, u)
    decreases |s|
  {
    if |s| > 0 && |t| > 0 && |u| > 0 && s[0] == t[0] && t[0] == u[0] {
      TextLtTransitive(s[1..], t[1..], u[1..]);
    }
  }

  lemma {:induction false} TextLtTotal(s: string, t: string)
    requires !TextLt(s, t) && !TextLt(t, s)
    ensures s == t
    decreases |s|
  {
    if |s| > 0 && |t| > 0 {
      TextLtTotal(s[1..], t[1..]);
      assert s == [s[0]] + s[1..] && t == [t[0]] + t[1..];
    }
  }

  lemma {:induction false} TextLtAsymmetric(s: string, t: string)
    requires TextLt(s, t)
    ensures !TextLt(t, s)
    decreases |s|
  {
    if |s| > 0 && |t| > 0 && s[0] == t[0] {
      TextLtAsymmetric(s[1..], t[1..]);
    }
  }

  /** No key is smaller than itself. */
  lemma {:induction false} KeyLtIrreflexive(a: seq<Seg>)
    ensures KeyLt(a, a) == Lt(false)
    decreases |a|
  {
    if |a| > 0 { KeyLtIrreflexive(a[1..]); }
  }

  /** `a < b` and `b < a` never both hold. */
  lemma {:induction false} KeyLtAsymmetric(a: seq<Seg>, b: seq<Seg>)
    requires KeyLt(a, b) == Lt(true)
    ensures KeyLt(b, a) == Lt(false)
    decreases |a|
  {
    if |a| > 0 && |b| > 0 {
      if a[0] == b[0] {
        KeyLtAsymmetric(a[1..], b[1..]);
      } else if a[0].Text? {
        TextLtAsymmetric(a[0].text, b[0].text);
      }
    }
  }

  /** Two keys neither of which is smaller than the other, without a
      `TypeError`, are equal. */
  lemma {:induction false} KeyLtTotal(a: seq<Seg>, b: seq<Seg>)
    requires KeyLt(a, b) == Lt(false) && KeyLt(b, a) == Lt(false)
    ensures a == b
    decreases |a|
  {
    if |a| > 0 && |b| > 0 {
      if a[0] == b[0] {
        KeyLtTotal(a[1..], b[1..]);
        assert a == [a[0]] + a[1..] && b == [b[0]] + b[1..];
      } else if a[0].Text? && b[0].Text? {
        TextLtTotal(a[0].text, b[0].text);
      }
    }
  }

  /** `<` on keys is transitive, whatever the shapes of the keys. */
  lemma {:induction false} KeyLtTransitive(a: seq<Seg>, b: seq<Seg>, c: seq<Seg>)
    requires KeyLt(a, b) == Lt(true) && KeyLt(b, c) == Lt(true)
    ensures KeyLt(a, c) == Lt(true)
    decreases |a|
  {
    if |a| > 0 && |b| > 0 && |c| > 0 {
      if a[0] == b[0] && b[0] == c[0] {
        KeyLtTransitive(a[1..], b[1..], c[1..]);
      } else if a[0] != b[0] && b[0] != c[0] && a[0].Text? {
        TextLtTransitive(a[0].text, b[0].text, c[0].text);
        TextLtIrreflexive(a[0].text);
      } else if a[0] != b[0] && b[0] != c[0] && a[0].Num? {
        assert a[0].value < c[0].value;
      }
    }
  }

  /** `NaturalLess` is a strict total order on the keys of file names:
      irreflexive, transitive, and two names are either ordered one way or the
      other, or have equal keys. */
  lemma NaturalLessIsStrictOrder(x: string, y: string, z: string)
    ensures !NaturalLess(x, x)
    ensures NaturalLess(x, y) ==> !NaturalLess(y, x)
    ensures NaturalLess(x, y) && NaturalLess(y, z) ==> NaturalLess(x, z)
    ensures NaturalLess(x, y) || NaturalLess(y, x) || Key(x) == Key(y)
  {
    KeyLtIrreflexive(Key(x));
    if NaturalLess(x, y) {
      KeyLtAsymmetric(Key(x), Key(y));
    }
    if NaturalLess(x, y) && NaturalLess(y, z) {
      KeyLtTransitive(Key(x), Key(y), Key(z));
    }
    KeysComparable(x, y);
    KeysComparable(y, x);
    if !NaturalLess(x, y) && !NaturalLess(y, x) {
      KeyLtTotal(Key(x), Key(y));
    }
  }

  /** A common prefix does not change the outcome of `<`. */
  lemma {:induction false} KeyLtCommonPrefix(c: seq<Seg>, a: seq<Seg>, b: seq<Seg>)
    ensures KeyLt(c + a, c + b) == KeyLt(a, b)
    decreases |c|
  {
    if |c| > 0 {
      assert (c + a)[1..] == c[1..] + a && (c + b)[1..] == c[1..] + b;
      KeyLtCommonPrefix(c[1..], a, b);
    } else {
      assert c + a == a && c + b == b;
    }
  }

  /** Embedded numbers compare by magnitude: after the same text, the name
      with the smaller number sorts first, whatever follows the number and
      however many digits either number has. */
  lemma NumbersCompareByValue(t: string, d1: string, r1: string, d2: string, r2: string)
    requires NoDigits(t) && IsDigitString(d1) && IsDigitString(d2)
    requires r1 == "" || !IsDigit(r1[0])
    requires r2 == "" || !IsDigit(r2[0])
    requires Value(d1) < Value(d2)
    ensures NaturalLess(t + d1 + r1, t + d2 + r2)
  {
    KeyRun(t, d1, r1);
    KeyRun(t, d2, r2);
    SmallerNumberFirst(Text(Lower(t)), Value(d1), Key(r1), Value(d2), Key(r2));
  }

  /** Two keys that agree on their first element and then hold two different
      numbers compare as those numbers do. */
  lemma SmallerNumberFirst(x: Seg, m: nat, ka: seq<Seg>, n: nat, kb: seq<Seg>)
    requires m < n
    ensures KeyLt([x, Num(m)] + ka, [x, Num(n)] + kb) == Lt(true)
  {
    var a, b := [x, Num(m)] + ka, [x, Num(n)] + kb;
    assert a[1..] == [Num(m)] + ka && b[1..] == [Num(n)] + kb;
  }

  /** A shared leading text and number do not change the order: two names
      that agree up to the end of their first number compare as the rest of
      them does. */
  lemma SharedRunIsSkipped(t: string, d: string, r1: string, r2: string)
    requires NoDigits(t) && IsDigitString(d)
    requires r1 == "" || !IsDigit(r1[0])
    requires r2 == "" || !IsDigit(r2[0])
    ensures NaturalLess(t + d + r1, t + d + r2) == NaturalLess(r1, r2)
  {
    KeyRun(t, d, r1);
    KeyRun(t, d, r2);
    KeyLtCommonPrefix([Text(Lower(t)), Num(Value(d))], Key(r1), Key(r2));
  }

  /** Texts compare case-insensitively: the name whose lower-cased leading
      text is smaller sorts first, whatever follows. */
  lemma TextsCompareIgnoringCase(t1: string, r1: string, t2: string, r2: string)
    requires NoDigits(t1) && NoDigits(t2)
    requires r1 == "" || IsDigit(r1[0])
    requires r2 == "" || IsDigit(r2[0])
    requires TextLt(Lower(t1), Lower(t2))
    ensures NaturalLess(t1 + r1, t2 + r2)
  {
    FirstTextOfKey(t1, r1);
    FirstTextOfKey(t2, r2);
    TextLtIrreflexive(Lower(t1));
  }

  /** The first element of a key is the lower-cased leading text run. */
  lemma FirstTextOfKey(t: string, r: string)
    requires NoDigits(t)
    requires r == "" || IsDigit(r[0])
    ensures |Key(t + r)| > 0 && Key(t + r)[0] == Text(Lower(t))
  {
    SplitLeadingText(t, r);
    SplitAlternates(t + r);
    var p := Split(t + r);
    assert Key(t + r)[0] == SegKey(p[0]);
    TextIsNotDigits(t);
  }
}
