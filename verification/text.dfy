/**
 * Python's `str` on integers and `''.join(map(str, xs))`, which the board
 * uses to build its state key.
 */
module Text {

  /** The decimal digit character of 0 <= d <= 9. */
  function DigitChar(d: int): (c: char)
    requires 0 <= d <= 9
    ensures '0' <= c <= '9'
  {
    (48 + d) as char
  }

  /** `str(n)` for n >= 0: decimal digits without leading zero. */
  function NatToStr(n: nat): (s: string)
    ensures |s| >= 1
    ensures |s| == 1 <==> n <= 9
    decreases n
  {
    if n <= 9 then [DigitChar(n)] else NatToStr(n / 10) + [DigitChar(n % 10)]
  }

  /** `str(n)` for any integer: a minus sign in front of the digits of -n. */
  function IntToStr(n: int): (s: string)
    ensures |s| >= 1
    ensures |s| == 1 <==> 0 <= n <= 9
    ensures 0 <= n <= 9 ==> s == [DigitChar(n)]
  {
    if n < 0 then "-" + NatToStr(-n) else NatToStr(n)
  }

  /** `''.join(map(str, xs))`: the decimal strings concatenated without separator. */
  function Join(xs: seq<int>): (s: string)
  {
    if xs == [] then "" else IntToStr(xs[0]) + Join(xs[1..])
  }

  /** Joining distributes over appending one value. */
  lemma {:induction false} JoinSnoc(xs: seq<int>, x: int)
    ensures Join(xs + [x]) == Join(xs) + IntToStr(x)
  {
    if xs != [] {
      assert (xs + [x])[1..] == xs[1..] + [x];
      JoinSnoc(xs[1..], x);
    }
  }

  /** Every value is a single decimal digit. */
  predicate Digits(xs: seq<int>)
  {
    forall i :: 0 <= i < |xs| ==> 0 <= xs[i] <= 9
  }

  /** Every value contributes at least one character, and exactly one iff it is a digit. */
  lemma {:induction false} JoinLength(xs: seq<int>)
    ensures |Join(xs)| >= |xs|
    ensures |Join(xs)| == |xs| <==> Digits(xs)
  {
    if xs != [] {
      JoinLength(xs[1..]);
      if Digits(xs[1..]) && 0 <= xs[0] <= 9 {
        assert forall i :: 0 < i < |xs| ==> xs[i] == xs[1..][i - 1];
      }
    }
  }

  /** On digits the joined string is one character per value. */
  lemma {:induction false} JoinOfDigits(xs: seq<int>)
    requires Digits(xs)
    ensures |Join(xs)| == |xs|
    ensures forall i :: 0 <= i < |xs| ==> Join(xs)[i] == DigitChar(xs[i])
  {
    if xs != [] {
      assert Digits(xs[1..]) by {
        forall i | 0 <= i < |xs[1..]| ensures 0 <= xs[1..][i] <= 9 {
          assert xs[1..][i] == xs[i + 1];
        }
      }
      JoinOfDigits(xs[1..]);
    }
  }

  /**
   * Joining is injective against a digit sequence: a sequence of the same
   * length whose joined string equals that of `ys` is `ys` itself.
   */
  lemma JoinInjective(xs: seq<int>, ys: seq<int>)
    requires Digits(ys)
    requires |xs| == |ys|
    requires Join(xs) == Join(ys)
    ensures xs == ys
  {
    JoinLength(ys);
    JoinLength(xs);
    JoinOfDigits(xs);
    JoinOfDigits(ys);
    forall i | 0 <= i < |xs| ensures xs[i] == ys[i] {
      assert DigitChar(xs[i]) == Join(xs)[i] == DigitChar(ys[i]);
    }
  }
}
