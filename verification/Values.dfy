/** Cell values and the order every index rests on (value.h, value.cpp). */
module Values {

  type byte = x: int | 0 <= x < 256
  type int64 = x: int | -0x8000_0000_0000_0000 <= x < 0x8000_0000_0000_0000
  type Text = seq<byte>

  datatype DataType = IntType | StrType

  datatype Value = Null | Int(i: int64) | Str(s: Text) {
    /** NULL matches any column type. */
    predicate Matches(t: DataType) {
      match this
      case Null => true
      case Int(_) => t == IntType
      case Str(_) => t == StrType
    }

    /** A value that may be a key of an index over a column of type `t`. */
    predicate IsKey(t: DataType) {
      Matches(t) && !Null?
    }
  }

  /** `valid` is false when SQL would call the comparison unknown. */
  datatype Comparison = Comparison(valid: bool, sign: int)

  /** Lexicographic order of byte strings, as -1, 0 or 1. */
  function CompareText(a: Text, b: Text): (c: int)
    ensures -1 <= c <= 1
  {
    if a == [] && b == [] then 0
    else if a == [] then -1
    else if b == [] then 1
    else if a[0] < b[0] then -1
    else if a[0] > b[0] then 1
    else CompareText(a[1..], b[1..])
  }

  function Compare(a: Value, b: Value): (c: Comparison) {
    match (a, b)
    case (Int(x), Int(y)) => Comparison(true, if x < y then -1 else if x > y then 1 else 0)
    case (Str(x), Str(y)) => Comparison(true, if x == y then 0 else CompareText(x, y))
    case _ => Comparison(false, 0)
  }

  /** The strict order used to sort index entries. */
  predicate Less(a: Value, b: Value) {
    Compare(a, b).sign < 0
  }

  lemma {:induction false} TextZeroIsEqual(a: Text, b: Text)
    ensures CompareText(a, b) == 0 <==> a == b
  {
    if a != [] && b != [] {
      TextZeroIsEqual(a[1..], b[1..]);
      assert a == [a[0]] + a[1..] && b == [b[0]] + b[1..];
    }
  }

  lemma {:induction false} TextAntisymmetric(a: Text, b: Text)
    ensures CompareText(a, b) == -CompareText(b, a)
  {
    if a != [] && b != [] {
      TextAntisymmetric(a[1..], b[1..]);
    }
  }

  lemma {:induction false} TextTransitive(a: Text, b: Text, c: Text)
    requires CompareText(a, b) < 0 && CompareText(b, c) < 0
    ensures CompareText(a, c) < 0
  {
    if a != [] && b != [] && c != [] && a[0] == b[0] == c[0] {
      TextTransitive(a[1..], b[1..], c[1..]);
    }
  }

  /** On non-null values of one type, `Compare` is valid and decides a strict
      total order whose zero is equality. */
  lemma CompareIsTotalOrder(a: Value, b: Value, t: DataType)
    requires a.IsKey(t) && b.IsKey(t)
    ensures Compare(a, b).valid
    ensures Compare(a, b).sign == 0 <==> a == b
    ensures Compare(a, b).sign == -Compare(b, a).sign
  {
    if a.Str? {
      TextZeroIsEqual(a.s, b.s);
      TextAntisymmetric(a.s, b.s);
    }
  }

  lemma LessTransitive(a: Value, b: Value, c: Value)
    requires Less(a, b) && Less(b, c)
    ensures Less(a, c)
  {
    if a.Str? {
      TextTransitive(a.s, b.s, c.s);
      TextZeroIsEqual(a.s, c.s);
    }
  }

  // ---- what the order is ----

  /** In a dictionary `a` comes before `b`: after a common beginning of n bytes either
      `a` is at its end, or its next byte is the smaller one. */
  predicate PartsBelow(a: Text, b: Text, n: nat) {
    n <= |a| && n < |b| && a[..n] == b[..n] && (n == |a| || a[n] < b[n])
  }

  ghost predicate TextBelow(a: Text, b: Text) {
    exists n: nat :: PartsBelow(a, b, n)
  }

  lemma {:induction false} CompareTextIsLexicographic(a: Text, b: Text)
    ensures CompareText(a, b) < 0 <==> TextBelow(a, b)
  {
    if a == [] {
      assert b != [] ==> PartsBelow(a, b, 0);
    } else if b != [] {
      if a[0] == b[0] {
        CompareTextIsLexicographic(a[1..], b[1..]);
        TailsBelow(a, b);
      } else {
        assert a[0] < b[0] ==> PartsBelow(a, b, 0);
        assert forall n: nat :: 0 < n <= |a| && n <= |b| ==> a[..n][0] == a[0] && b[..n][0] == b[0];
      }
    }
  }

  /** Texts with the same first byte are in the order of their tails. */
  lemma TailsBelow(a: Text, b: Text)
    requires a != [] && b != [] && a[0] == b[0]
    ensures TextBelow(a, b) <==> TextBelow(a[1..], b[1..])
  {
    if n: nat :| PartsBelow(a, b, n) {
      assert n > 0 && a[1..][..n - 1] == a[..n][1..] && b[1..][..n - 1] == b[..n][1..];
      assert PartsBelow(a[1..], b[1..], n - 1);
    }
    if n: nat :| PartsBelow(a[1..], b[1..], n) {
      assert a[..n + 1] == [a[0]] + a[1..][..n] && b[..n + 1] == [b[0]] + b[1..][..n];
      assert PartsBelow(a, b, n + 1);
    }
  }

  /** The order of the indexes and of WHERE: integers by size, texts as in a
      dictionary, and nothing else is below anything. */
  lemma LessIsBelow(a: Value, b: Value)
    ensures a.Int? && b.Int? ==> (Less(a, b) <==> a.i < b.i)
    ensures a.Str? && b.Str? ==> (Less(a, b) <==> exists n: nat ::
              n <= |a.s| && n < |b.s| && a.s[..n] == b.s[..n] && (n == |a.s| || a.s[n] < b.s[n]))
    ensures Less(a, b) ==> (a.Int? && b.Int?) || (a.Str? && b.Str?)
  {
    if a.Str? && b.Str? {
      CompareTextIsLexicographic(a.s, b.s);
      TextZeroIsEqual(a.s, b.s);
      if n: nat :| n <= |a.s| && n < |b.s| && a.s[..n] == b.s[..n] && (n == |a.s| || a.s[n] < b.s[n]) {
        assert PartsBelow(a.s, b.s, n);
      }
    }
  }

  /** Outside one non-null type there is no order at all: every comparison is
      reported invalid and has sign zero. */
  lemma MixedComparisonsAreUnknown(a: Value, b: Value)
    ensures Compare(a, b).valid <==> exists t :: a.IsKey(t) && b.IsKey(t)
    ensures !Compare(a, b).valid ==> Compare(a, b).sign == 0
  {
    if Compare(a, b).valid {
      var t := if a.Int? then IntType else StrType;
      assert a.IsKey(t) && b.IsKey(t);
    }
  }
}
