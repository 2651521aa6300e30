/**
  The helpers of solver/helpful.py, also duplicated in solver/solve.py:
  clamping a number into a range, counting the one bits of a cell value, and
  a list of options that must all be resolved before the solver goes on.
*/
module Helpful {

  // ---------------------------------------------------------------------
  // bound (helpful.py lines 22-25, solve.py lines 79-80)
  // ---------------------------------------------------------------------

  /** Whether a real number has no fractional part. */
  predicate IsInt(x: real) { x.Floor as real == x }

  /**
    Python's int() applied to a float: truncation toward zero. The result
    lies between zero and x and within one of x, which fixes it uniquely.
  */
  function Trunc(x: real): (r: int)
    ensures x >= 0.0 ==> r == x.Floor
    ensures x < 0.0 ==> x <= r as real <= 0.0
    ensures r as real - 1.0 < x < r as real + 1.0
    ensures IsInt(x) ==> r as real == x
  {
    if x >= 0.0 then x.Floor
    else
      assert IsInt(x) ==> (-x).Floor == -x.Floor by {
        if IsInt(x) { assert -x == (-x.Floor) as real; }
      }
      -((-x).Floor)
  }

  /** Truncating a number that lies between two whole numbers stays between them. */
  lemma TruncBetween(x: real, lo: real, hi: real)
    requires IsInt(lo) && IsInt(hi) && lo <= x <= hi
    ensures lo <= Trunc(x) as real <= hi
  {
    if x >= 0.0 {
      assert lo.Floor <= x.Floor;
    } else {
      assert (-hi).Floor <= (-x).Floor <= (-lo).Floor;
      assert (-hi).Floor == -hi.Floor && (-lo).Floor == -lo.Floor by {
        assert -hi == (-hi.Floor) as real && -lo == (-lo.Floor) as real;
      }
    }
  }

  /** Python's min on two numbers: the first argument unless the second is smaller. */
  function Min(a: real, b: real): (m: real)
    ensures m <= a && m <= b && (m == a || m == b)
  {
    if b < a then b else a
  }

  /** Python's max on two numbers: the first argument unless the second is larger. */
  function Max(a: real, b: real): (m: real)
    ensures m >= a && m >= b && (m == a || m == b)
  {
    if b > a then b else a
  }

  /**
    bound(n, minimum, maximum) = int(max(minimum, min(maximum, n))). The
    arguments are reals because the callers pass the result of Python's true
    division; whole numbers are the reals with no fractional part.
  */
  function Bound(n: real, minimum: real, maximum: real): (r: int)
    ensures IsInt(minimum) && IsInt(maximum) && minimum <= maximum ==> minimum <= r as real <= maximum
    ensures IsInt(n) && minimum <= n <= maximum ==> r as real == n
    ensures 0.0 <= minimum <= n <= maximum ==> r == n.Floor
  {
    var clamped := Max(minimum, Min(maximum, n));
    assert IsInt(minimum) && IsInt(maximum) && minimum <= maximum ==> minimum <= Trunc(clamped) as real <= maximum by {
      if IsInt(minimum) && IsInt(maximum) && minimum <= maximum {
        TruncBetween(clamped, minimum, maximum);
      }
    }
    Trunc(clamped)
  }

  /** Below the range bound answers the minimum, above it the maximum. */
  lemma BoundSaturates(n: real, minimum: real, maximum: real)
    requires IsInt(minimum) && IsInt(maximum) && minimum <= maximum
    ensures n < minimum ==> Bound(n, minimum, maximum) as real == minimum
    ensures n > maximum ==> Bound(n, minimum, maximum) as real == maximum
  {
  }

  // ---------------------------------------------------------------------
  // hamming_weight (helpful.py lines 27-33)
  // ---------------------------------------------------------------------

  /** `n & (1 << k) != 0` for a non-negative n: bit k of n is set. */
  predicate HasBit(n: nat, k: nat)
  {
    if k == 0 then n % 2 == 1 else HasBit(n / 2, k - 1)
  }

  /** The number of one bits of n, taken from the lowest bit up. */
  function PopCount(n: nat): nat
  {
    if n == 0 then 0 else n % 2 + PopCount(n / 2)
  }

  function Ind(b: bool): nat { if b then 1 else 0 }

  /**
    The one bits of n are at least those among bits 0 to 3, and exactly those
    when n has no higher bit: for the four direction flags of a cell the
    weight is the number of open directions.
  */
  lemma PopCountLowBits(n: nat)
    ensures PopCount(n) >= Ind(HasBit(n, 0)) + Ind(HasBit(n, 1)) + Ind(HasBit(n, 2)) + Ind(HasBit(n, 3))
    ensures n < 16 ==> PopCount(n) == Ind(HasBit(n, 0)) + Ind(HasBit(n, 1)) + Ind(HasBit(n, 2)) + Ind(HasBit(n, 3))
  {
    var n1 := n / 2;
    var n2 := n1 / 2;
    var n3 := n2 / 2;
    assert HasBit(n, 1) == HasBit(n1, 0);
    assert HasBit(n, 2) == HasBit(n1, 1) == HasBit(n2, 0);
    assert HasBit(n, 3) == HasBit(n1, 2) == HasBit(n2, 1) == HasBit(n3, 0);
    assert PopCount(n) == n % 2 + n1 % 2 + n2 % 2 + PopCount(n3);
  }

  /** Only zero has no one bit. */
  lemma PopCountZero(n: nat)
    ensures PopCount(n) == 0 <==> n == 0
  {
  }

  /**
    The loop of hamming_weight: add the lowest bit, shift right, until
    nothing is left. A negative n never reaches 0 under Python's arithmetic
    shift, so the loop is only entered with n >= 0.
  */
  method HammingWeight(n: int) returns (ret: int)
    requires n >= 0
    ensures ret == PopCount(n)
  {
    ret := 0;
    var m := n;
    while m != 0
      invariant m >= 0 && ret + PopCount(m) == PopCount(n)
      decreases m
    {
      ret := ret + m % 2;
      m := m / 2;
    }
  }

  // ---------------------------------------------------------------------
  // RequiredOptions (helpful.py lines 3-20, solve.py lines 5-21)
  // ---------------------------------------------------------------------

  predicate NoDuplicates<T(==)>(s: seq<T>)
  {
    forall i, j :: 0 <= i < j < |s| ==> s[i] != s[j]
  }

  /** list.remove: drop the first occurrence of x, if there is one. */
  function RemoveFirst<T(==)>(s: seq<T>, x: T): (r: seq<T>)
    ensures x !in s ==> r == s
    ensures x in s ==> |r| == |s| - 1
    ensures multiset(r) == multiset(s) - multiset{x}
  {
    if s == [] then []
    else
      assert s == [s[0]] + s[1..];
      if s[0] == x then s[1..]
      else [s[0]] + RemoveFirst(s[1..], x)
  }

  /** Removing cuts out exactly the first occurrence and keeps the other elements in order. */
  lemma {:induction false} RemoveFirstSplits<T>(s: seq<T>, x: T, i: nat)
    requires i < |s| && s[i] == x && x !in s[..i]
    ensures RemoveFirst(s, x) == s[..i] + s[i + 1..]
  {
    if i == 0 {
      assert s[..0] + s[1..] == s[1..];
    } else {
      assert s[0] != x by { assert s[0] in s[..i]; }
      var t := s[1..];
      assert t[..i - 1] == s[1..i] && t[i..] == s[i + 1..];
      assert x !in t[..i - 1] by { assert forall y :: y in s[1..i] ==> y in s[..i]; }
      calc {
        RemoveFirst(s, x);
        [s[0]] + RemoveFirst(t, x);
        { RemoveFirstSplits(t, x, i - 1); }
        [s[0]] + (s[1..i] + s[i + 1..]);
        { assert s[..i] == [s[0]] + s[1..i]; }
        s[..i] + s[i + 1..];
      }
    }
  }

  /** In a list without duplicates, removing x leaves no x behind and keeps the list duplicate-free. */
  lemma RemoveFirstResolves<T>(s: seq<T>, x: T)
    requires NoDuplicates(s)
    ensures x !in RemoveFirst(s, x) && NoDuplicates(RemoveFirst(s, x))
  {
    if x in s {
      var i :| 0 <= i < |s| && s[i] == x;
      assert x !in s[..i];
      RemoveFirstSplits(s, x, i);
      CutKeepsDistinct(s, i);
    }
  }

  /** Cutting one element out of a duplicate-free list leaves it duplicate-free and without that element. */
  lemma CutKeepsDistinct<T>(s: seq<T>, i: nat)
    requires NoDuplicates(s) && i < |s|
    ensures s[i] !in s[..i] + s[i + 1..] && NoDuplicates(s[..i] + s[i + 1..])
  {
    var r := s[..i] + s[i + 1..];
    forall k | 0 <= k < |r|
      ensures r[k] == s[if k < i then k else k + 1]
    {
    }
    forall a, b | 0 <= a < b < |r|
      ensures r[a] != r[b]
    {
      assert r[a] == s[if a < i then a else a + 1];
      assert r[b] == s[if b < i then b else b + 1];
    }
  }

  /** Adding an option that was missing and resolving it again restores the list. */
  lemma {:induction false} AddThenResolve<T>(s: seq<T>, x: T)
    requires x !in s
    ensures RemoveFirst(s + [x], x) == s
  {
    if s != [] {
      assert (s + [x])[1..] == s[1..] + [x];
      AddThenResolve(s[1..], x);
    }
  }

  /**
    The options that must be supplied before the solver continues; add and
    resolve update the list in place.
  */
  class RequiredOptions {
    var requiredOptions: seq<string>

    /** The constructor, taking the list explicitly instead of a shared default. */
    constructor (options: seq<string>)
      ensures requiredOptions == options
    {
      requiredOptions := options;
    }

    /** add: append the option unless it is already required. */
    method Add(option: string)
      modifies this
      ensures option in requiredOptions
      ensures requiredOptions == if option in old(requiredOptions) then old(requiredOptions) else old(requiredOptions) + [option]
      ensures NoDuplicates(old(requiredOptions)) ==> NoDuplicates(requiredOptions)
    {
      if option !in requiredOptions {
        requiredOptions := requiredOptions + [option];
      }
    }

    /** resolve: remove the first occurrence of the option, if required. */
    method Resolve(option: string)
      modifies this
      ensures requiredOptions == RemoveFirst(old(requiredOptions), option)
      ensures NoDuplicates(old(requiredOptions)) ==> option !in requiredOptions && NoDuplicates(requiredOptions)
    {
      if NoDuplicates(requiredOptions) {
        RemoveFirstResolves(requiredOptions, option);
      }
      if option in requiredOptions {
        requiredOptions := RemoveFirst(requiredOptions, option);
      }
    }

    /** optionsResolved: nothing is left to supply. */
    function OptionsResolved(): (b: bool)
      reads this
      ensures b <==> forall o :: o !in requiredOptions
    {
      if |requiredOptions| == 0 then true
      else
        assert requiredOptions[0] in requiredOptions;
        false
    }
  }
}
