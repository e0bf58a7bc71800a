/** Java's `compareTo` on strings and longs, reduced to the sign it returns,
    plus the few string operations the service and controller use. */
module Text {
  import opened Wrappers

  /** The sign of a `compareTo` result. */
  datatype Order = Less | Equal | Greater

  function Flip(o: Order): Order
  {
    match o
    case Less => Greater
    case Equal => Equal
    case Greater => Less
  }

  /** `Long.compareTo`. */
  function CompareInts(a: int, b: int): (o: Order)
    ensures o == Less <==> a < b
    ensures o == Equal <==> a == b
    ensures o == Greater <==> a > b
  {
    if a < b then Less else if a == b then Equal else Greater
  }

  /** `String.compareTo`: lexicographic on characters, and a proper prefix
      comes first. */
  function CompareStrings(a: string, b: string): Order
    decreases |a|
  {
    if |a| == 0 then (if |b| == 0 then Equal else Less)
    else if |b| == 0 then Greater
    else if a[0] < b[0] then Less
    else if a[0] > b[0] then Greater
    else CompareStrings(a[1..], b[1..])
  }

  /** `compareTo` returns zero exactly on equal strings (consistent with `equals`). */
  lemma {:induction false} CompareStringsEqual(a: string, b: string)
    ensures CompareStrings(a, b) == Equal <==> a == b
    decreases |a|
  {
    if |a| > 0 && |b| > 0 && a[0] == b[0] {
      CompareStringsEqual(a[1..], b[1..]);
      assert a == [a[0]] + a[1..] && b == [b[0]] + b[1..];
    }
  }

  /** Swapping the arguments flips the sign. */
  lemma {:induction false} CompareStringsFlip(a: string, b: string)
    ensures CompareStrings(b, a) == Flip(CompareStrings(a, b))
    decreases |a|
  {
    if |a| > 0 && |b| > 0 && a[0] == b[0] {
      CompareStringsFlip(a[1..], b[1..]);
    }
  }

  /** The string order is transitive. */
  lemma {:induction false} CompareStringsTransitive(a: string, b: string, c: string)
    requires CompareStrings(a, b) == Less && CompareStrings(b, c) == Less
    ensures CompareStrings(a, c) == Less
    decreases |a|
  {
    if |a| > 0 && |b| > 0 && |c| > 0 && a[0] == b[0] && b[0] == c[0] {
      CompareStringsTransitive(a[1..], b[1..], c[1..]);
    }
  }

  /** "Not after" on strings is transitive. */
  lemma CompareStringsTransitiveLe(a: string, b: string, c: string)
    requires CompareStrings(a, b) != Greater && CompareStrings(b, c) != Greater
    ensures CompareStrings(a, c) != Greater
  {
    CompareStringsEqual(a, b);
    CompareStringsEqual(b, c);
    if CompareStrings(a, b) == Less && CompareStrings(b, c) == Less {
      CompareStringsTransitive(a, b, c);
    }
  }

  /** Equal-length prefixes decide the comparison unless they are equal, in
      which case the suffixes decide it. */
  lemma {:induction false} CompareStringsConcat(x: string, y: string, x': string, y': string)
    requires |x| == |x'|
    ensures CompareStrings(x + y, x' + y') ==
              if x == x' then CompareStrings(y, y') else CompareStrings(x, x')
    decreases |x|
  {
    if |x| > 0 {
      assert (x + y)[0] == x[0] && (x' + y')[0] == x'[0];
      assert (x + y)[1..] == x[1..] + y && (x' + y')[1..] == x'[1..] + y';
      CompareStringsConcat(x[1..], y, x'[1..], y');
      if x[0] == x'[0] {
        assert x == x' <==> x[1..] == x'[1..] by {
          assert x == [x[0]] + x[1..] && x' == [x'[0]] + x'[1..];
        }
      }
    } else {
      assert x + y == y && x' + y' == y';
    }
  }

  // ---------------------------------------------------------------------------
  // Decimal rendering of ids (`"" + task.id`) and its inverse

  predicate IsDigit(c: char) { '0' <= c <= '9' }

  predicate AllDigits(s: string) { forall i :: 0 <= i < |s| ==> IsDigit(s[i]) }

  function DigitChar(d: nat): (c: char)
    requires d < 10
    ensures IsDigit(c)
  {
    ('0' as int + d) as char
  }

  function DigitValue(c: char): (d: nat)
    requires IsDigit(c)
    ensures d < 10
  {
    c as int - '0' as int
  }

  /** The decimal digits of `n`, most significant first, without leading zeros. */
  function NatToString(n: nat): (s: string)
    ensures |s| > 0 && AllDigits(s)
  {
    if n < 10 then [DigitChar(n)] else NatToString(n / 10) + [DigitChar(n % 10)]
  }

  /** The value of a string of decimal digits. */
  function ParseNat(s: string): nat
    requires AllDigits(s)
  {
    if |s| == 0 then 0 else ParseNat(s[..|s| - 1]) * 10 + DigitValue(s[|s| - 1])
  }

  /** Rendering an id and reading it back gives the id. */
  lemma {:induction false} ParseNatToString(n: nat)
    ensures ParseNat(NatToString(n)) == n
  {
    if n >= 10 {
      var s := NatToString(n);
      ParseNatToString(n / 10);
      assert s[..|s| - 1] == NatToString(n / 10);
    }
  }

  /** The value of two and of four digits. */
  lemma ParseNatShort(s: string)
    requires AllDigits(s)
    ensures |s| == 2 ==> ParseNat(s) == 10 * DigitValue(s[0]) + DigitValue(s[1])
    ensures |s| == 4 ==> ParseNat(s) == 1000 * DigitValue(s[0]) + 100 * DigitValue(s[1])
                                        + 10 * DigitValue(s[2]) + DigitValue(s[3])
  {
    if |s| == 2 || |s| == 4 {
      var n := |s|;
      assert AllDigits(s[..1]) && AllDigits(s[..2]);
      assert ParseNat(s[..1]) == DigitValue(s[0]) by {
        assert s[..1][..0] == [];
        assert s[..1][0] == s[0];
      }
      assert ParseNat(s[..2]) == 10 * DigitValue(s[0]) + DigitValue(s[1]) by {
        assert s[..2][..1] == s[..1];
        assert s[..2][1] == s[1];
      }
      if n == 2 {
        assert s[..2] == s;
      } else {
        assert ParseNat(s[..3]) == ParseNat(s[..2]) * 10 + DigitValue(s[2]) by {
          assert s[..3][..2] == s[..2];
          assert s[..3][2] == s[2];
        }
        assert s[..3] == s[..n - 1];
      }
    }
  }

  // ---------------------------------------------------------------------------
  // `indexOf` / `lastIndexOf` of a character

  /** `s.indexOf(c)`, absent for -1. */
  function IndexOf(s: string, c: char): (r: Option<nat>)
    ensures r.Some? ==> r.value < |s| && s[r.value] == c
                        && forall j :: 0 <= j < r.value ==> s[j] != c
    ensures r.None? ==> forall j :: 0 <= j < |s| ==> s[j] != c
  {
    if |s| == 0 then None
    else if s[0] == c then Some(0)
    else match IndexOf(s[1..], c)
      case None => None
      case Some(i) => Some(i + 1)
  }

  /** `s.lastIndexOf(c)`, absent for -1. */
  function LastIndexOf(s: string, c: char): (r: Option<nat>)
    ensures r.Some? ==> r.value < |s| && s[r.value] == c
                        && forall j :: r.value < j < |s| ==> s[j] != c
    ensures r.None? ==> forall j :: 0 <= j < |s| ==> s[j] != c
  {
    if |s| == 0 then None
    else if s[|s| - 1] == c then Some(|s| - 1)
    else LastIndexOf(s[..|s| - 1], c)
  }
}
