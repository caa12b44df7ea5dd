/** The orders in which rows are sorted before they are dumped. */
module RowOrder {
  import opened Decimal
  import opened Merge
  import opened Text

  /** Shorter texts first, texts of one length as std::string compares them. */
  predicate ShortFirst(a: string, b: string) {
    |a| < |b| || (|a| == |b| && Less(a, b))
  }

  /** Null rows first, then by the text of one column. */
  predicate BySingle(key: Record -> string, x: Option<Record>, y: Option<Record>) {
    if x.None? && y.Some? then true
    else if x.Some? && y.None? then false
    else if x.None? then false
    else ShortFirst(key(x.value), key(y.value))
  }

  /** Null rows first, then by an integer column, then by a character column. */
  predicate ByIntAndChar(a: Record -> string, b: Record -> string, x: Option<Record>, y: Option<Record>) {
    if x.None? && y.Some? then true
    else if x.Some? && y.None? then false
    else if x.None? then false
    else if |a(x.value)| == |a(y.value)| && a(x.value) == a(y.value) then Less(b(x.value), b(y.value))
    else ShortFirst(a(x.value), a(y.value))
  }

  // ---------- strict weak orders ----------

  /** Neither comes before the other. */
  predicate Tied<T>(less: (T, T) -> bool, x: T, y: T) {
    !less(x, y) && !less(y, x)
  }

  /** What std::sort requires of its comparator. */
  ghost predicate StrictWeakOrder<T(!new)>(less: (T, T) -> bool) {
    && (forall x :: !less(x, x))
    && (forall x, y, z :: less(x, y) && less(y, z) ==> less(x, z))
    && (forall x, y, z :: Tied(less, x, y) && Tied(less, y, z) ==> Tied(less, x, z))
  }

  lemma ShortFirstTotal(a: string, b: string)
    ensures ShortFirst(a, b) || a == b || ShortFirst(b, a)
    ensures !ShortFirst(a, a)
  {
    LessTotal(a, b);
    LessIrreflexive(a);
  }

  lemma ShortFirstTransitive(a: string, b: string, c: string)
    requires ShortFirst(a, b) && ShortFirst(b, c)
    ensures ShortFirst(a, c)
  {
    if |a| == |b| == |c| {
      LessTransitive(a, b, c);
    }
  }

  /** Two rows are tied exactly when both are null or their keys are the same. */
  lemma SingleTies(key: Record -> string, x: Option<Record>, y: Option<Record>)
    ensures Tied((p, q) => BySingle(key, p, q), x, y) <==>
              (x.None? && y.None?) || (x.Some? && y.Some? && key(x.value) == key(y.value))
  {
    if x.Some? && y.Some? {
      ShortFirstTotal(key(x.value), key(y.value));
    }
  }

  lemma SingleIsStrictWeak(key: Record -> string)
    ensures StrictWeakOrder((x, y) => BySingle(key, x, y))
  {
    var less := (x, y) => BySingle(key, x, y);
    forall x
      ensures !less(x, x)
    {
      SingleTies(key, x, x);
    }
    forall x, y, z | less(x, y) && less(y, z)
      ensures less(x, z)
    {
      if x.Some? {
        ShortFirstTransitive(key(x.value), key(y.value), key(z.value));
      }
    }
    forall x, y, z | Tied(less, x, y) && Tied(less, y, z)
      ensures Tied(less, x, z)
    {
      SingleTies(key, x, y);
      SingleTies(key, y, z);
      SingleTies(key, x, z);
    }
  }

  lemma DoubleTies(a: Record -> string, b: Record -> string, x: Option<Record>, y: Option<Record>)
    ensures Tied((p, q) => ByIntAndChar(a, b, p, q), x, y) <==>
              (x.None? && y.None?) || (x.Some? && y.Some? && a(x.value) == a(y.value) && b(x.value) == b(y.value))
  {
    if x.Some? && y.Some? {
      ShortFirstTotal(a(x.value), a(y.value));
      LessTotal(b(x.value), b(y.value));
      LessIrreflexive(b(x.value));
    }
  }

  lemma DoubleTransitive(a: Record -> string, b: Record -> string, x: Record, y: Record, z: Record)
    requires ByIntAndChar(a, b, Some(x), Some(y)) && ByIntAndChar(a, b, Some(y), Some(z))
    ensures ByIntAndChar(a, b, Some(x), Some(z))
  {
    if a(x) == a(y) == a(z) {
      LessTransitive(b(x), b(y), b(z));
    } else if a(x) != a(y) && a(y) != a(z) {
      ShortFirstTransitive(a(x), a(y), a(z));
      ShortFirstTotal(a(x), a(z));
    }
  }

  lemma DoubleIsStrictWeak(a: Record -> string, b: Record -> string)
    ensures StrictWeakOrder((x, y) => ByIntAndChar(a, b, x, y))
  {
    var less := (x, y) => ByIntAndChar(a, b, x, y);
    forall x
      ensures !less(x, x)
    {
      DoubleTies(a, b, x, x);
    }
    forall x, y, z | less(x, y) && less(y, z)
      ensures less(x, z)
    {
      if x.Some? {
        DoubleTransitive(a, b, x.value, y.value, z.value);
      }
    }
    forall x, y, z | Tied(less, x, y) && Tied(less, y, z)
      ensures Tied(less, x, z)
    {
      DoubleTies(a, b, x, y);
      DoubleTies(a, b, y, z);
      DoubleTies(a, b, x, z);
    }
  }

  // ---------- numbers ----------

  lemma {:induction false} LessLast(a: string, b: string, c: char, d: char)
    requires |a| == |b|
    ensures Less(a + [c], b + [d]) <==> Less(a, b) || (a == b && c < d)
  {
    if a == "" {
      assert (a + [c])[1..] == "" && (b + [d])[1..] == "";
      assert !Less("", "");
    } else {
      assert (a + [c])[1..] == a[1..] + [c] && (b + [d])[1..] == b[1..] + [d];
      LessLast(a[1..], b[1..], c, d);
      assert a == b <==> a[0] == b[0] && a[1..] == b[1..] by {
        assert a == [a[0]] + a[1..] && b == [b[0]] + b[1..];
      }
    }
  }

  lemma {:induction false} LongerIsMore(m: nat, n: nat)
    requires m <= n
    ensures |NumText(m)| <= |NumText(n)|
  {
    if n >= 10 && m >= 10 {
      LongerIsMore(m / 10, n / 10);
    }
  }

  lemma {:induction false} SameLength(m: nat, n: nat)
    requires |NumText(m)| == |NumText(n)|
    ensures Less(NumText(m), NumText(n)) <==> m < n
  {
    var c, d := '0' + (m % 10) as char, '0' + (n % 10) as char;
    assert c < d <==> m % 10 < n % 10;
    OneDigit(m);
    OneDigit(n);
    if m < 10 && n < 10 {
      LessLast("", "", c, d);
      assert "" + [c] == [c] && "" + [d] == [d];
    } else if m >= 10 && n >= 10 {
      var a, b := NumText(m / 10), NumText(n / 10);
      SameLength(m / 10, n / 10);
      LessLast(a, b, c, d);
      DigitsOf(m / 10);
      DigitsOf(n / 10);
      assert a == b <==> m / 10 == n / 10;
    }
  }

  lemma OneDigit(n: nat)
    ensures |NumText(n)| == 1 <==> n < 10
  {
  }

  /** On canonical decimals, length first and then text is the order of the numbers. */
  lemma NumericOrder(m: nat, n: nat)
    ensures ShortFirst(NumText(m), NumText(n)) <==> m < n
  {
    if |NumText(m)| == |NumText(n)| {
      SameLength(m, n);
    } else if m <= n {
      LongerIsMore(m, n);
    } else {
      LongerIsMore(n, m);
    }
  }

  // ---------- which row comes first ----------

  /** The texts have the same length and part where the first has the smaller character, or the first is shorter. */
  ghost predicate ShorterOrLess(a: string, b: string) {
    |a| < |b| || (|a| == |b| && exists k: nat :: PartsAt(a, b, k))
  }

  /** Null rows come first; of two numbers the smaller, and of other texts the shorter or the earlier one. */
  lemma SingleMeans(key: Record -> string, x: Record, y: Record)
    ensures BySingle(key, None, Some(y)) && !BySingle(key, Some(x), None) && !BySingle(key, None, None)
    ensures BySingle(key, Some(x), Some(y)) <==> ShorterOrLess(key(x), key(y))
    ensures forall m: nat, n: nat :: key(x) == NumText(m) && key(y) == NumText(n) ==>
              (BySingle(key, Some(x), Some(y)) <==> m < n)
  {
    LessParts(key(x), key(y));
    forall m: nat, n: nat | key(x) == NumText(m) && key(y) == NumText(n)
      ensures BySingle(key, Some(x), Some(y)) <==> m < n
    {
      NumericOrder(m, n);
    }
  }

  /** Null rows come first, then smaller numbers; rows with the same number stand in the order of their texts. */
  lemma DoubleMeans(a: Record -> string, b: Record -> string, x: Record, y: Record)
    ensures ByIntAndChar(a, b, None, Some(y)) && !ByIntAndChar(a, b, Some(x), None) && !ByIntAndChar(a, b, None, None)
    ensures a(x) != a(y) ==> (ByIntAndChar(a, b, Some(x), Some(y)) <==> ShorterOrLess(a(x), a(y)))
    ensures a(x) == a(y) ==> (ByIntAndChar(a, b, Some(x), Some(y)) <==> exists k: nat :: PartsAt(b(x), b(y), k))
    ensures forall m: nat, n: nat :: a(x) == NumText(m) && a(y) == NumText(n) && m != n ==>
              (ByIntAndChar(a, b, Some(x), Some(y)) <==> m < n)
  {
    LessParts(a(x), a(y));
    LessParts(b(x), b(y));
    forall m: nat, n: nat | a(x) == NumText(m) && a(y) == NumText(n) && m != n
      ensures ByIntAndChar(a, b, Some(x), Some(y)) <==> m < n
    {
      NumericOrder(m, n);
      DigitsOf(m);
      DigitsOf(n);
    }
  }
}
