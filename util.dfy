/** Small sequence and text helpers shared by the treemap navigator and the disaster map. */
module Util {

  datatype Option<+T> = None | Some(value: T)

  /** `[x] * n` */
  function Repeat<T>(x: T, n: nat): (r: seq<T>)
    ensures |r| == n
    ensures forall i :: 0 <= i < n ==> r[i] == x
  {
    seq(n, _ => x)
  }

  /** No element occurs twice. */
  predicate NoDup<T(==)>(s: seq<T>) {
    forall i, j :: 0 <= i < j < |s| ==> s[i] != s[j]
  }

  /** The elements of `s` that satisfy `p`, in their original order (a boolean-mask row filter). */
  function Filter<T(==,!new)>(s: seq<T>, p: T -> bool): (r: seq<T>)
    ensures |r| <= |s|
    ensures forall x :: x in r <==> x in s && p(x)
  {
    if |s| == 0 then []
    else
      assert s == s[..|s| - 1] + [s[|s| - 1]];
      Filter(s[..|s| - 1], p) + (if p(s[|s| - 1]) then [s[|s| - 1]] else [])
  }

  /** The distinct elements of `s`, each kept at its first occurrence (a column's `unique()`). */
  function Unique<T(==,!new)>(s: seq<T>): (r: seq<T>)
    ensures NoDup(r)
    ensures forall x :: x in r <==> x in s
    ensures |r| <= |s|
    ensures |s| > 0 ==> |r| > 0 && r[0] == s[0]
  {
    if |s| == 0 then []
    else
      var u := Unique(s[..|s| - 1]);
      assert s == s[..|s| - 1] + [s[|s| - 1]];
      if s[|s| - 1] in u then u else u + [s[|s| - 1]]
  }

  /** Filtering one more element appends it exactly when it satisfies the predicate. */
  lemma FilterSnoc<T(!new)>(s: seq<T>, x: T, p: T -> bool)
    ensures Filter(s + [x], p) == Filter(s, p) + if p(x) then [x] else []
  {
    assert (s + [x])[..|s + [x]| - 1] == s;
  }

  /** Every kept element is kept as often as it occurs; every other element is dropped. */
  lemma {:induction false} FilterCount<T(!new)>(s: seq<T>, p: T -> bool, x: T)
    ensures multiset(Filter(s, p))[x] == if p(x) then multiset(s)[x] else 0
    decreases |s|
  {
    if |s| > 0 {
      var init := s[..|s| - 1];
      var last := s[|s| - 1];
      FilterCount(init, p, x);
      FilterSnoc(init, last, p);
      assert s == init + [last];
    }
  }

  /** Filtering a concatenation filters each part and keeps them in order. */
  lemma {:induction false} FilterAppend<T(!new)>(a: seq<T>, b: seq<T>, p: T -> bool)
    ensures Filter(a + b, p) == Filter(a, p) + Filter(b, p)
    decreases |b|
  {
    if |b| == 0 {
      assert a + b == a;
    } else {
      var b' := b[..|b| - 1];
      var x := b[|b| - 1];
      assert b == b' + [x];
      assert a + b == (a + b') + [x];
      FilterSnoc(a + b', x, p);
      FilterSnoc(b', x, p);
      FilterAppend(a, b', p);
    }
  }

  /** A single element is kept exactly when it satisfies the predicate. */
  lemma FilterSingle<T(!new)>(x: T, p: T -> bool)
    ensures Filter([x], p) == if p(x) then [x] else []
  {
    assert [x][..0] == [];
  }

  /** The position of the first occurrence of `x` in `s`. */
  function FirstIndex<T(==)>(s: seq<T>, x: T): (i: nat)
    requires x in s
    ensures i < |s| && s[i] == x && x !in s[..i]
  {
    if s[0] == x then 0
    else
      var i := 1 + FirstIndex(s[1..], x);
      assert s[..i] == [s[0]] + s[1..][..i - 1];
      i
  }

  /** The first occurrence is the only index holding `x` with no `x` before it. */
  lemma FirstIndexUnique<T>(s: seq<T>, x: T, i: nat)
    requires i < |s| && s[i] == x && x !in s[..i]
    ensures FirstIndex(s, x) == i
  {
  }

  /**
   * `Unique` lists the distinct elements in order of first appearance: an element listed earlier
   * first occurs earlier in `s`.
   */
  lemma {:induction false} UniqueInFirstAppearanceOrder<T(!new)>(s: seq<T>)
    ensures forall i, j :: 0 <= i < j < |Unique(s)| ==> FirstIndex(s, Unique(s)[i]) < FirstIndex(s, Unique(s)[j])
  {
    if |s| > 0 {
      var s' := s[..|s| - 1];
      var u := Unique(s');
      UniqueInFirstAppearanceOrder(s');
      // an element of the prefix first occurs at the same place in `s`
      forall x | x in s'
        ensures FirstIndex(s, x) == FirstIndex(s', x)
      {
        var k := FirstIndex(s', x);
        assert s[..k] == s'[..k];
        FirstIndexUnique(s, x, k);
      }
      assert s == s' + [s[|s| - 1]];
      if s[|s| - 1] !in u {
        var last := s[|s| - 1];
        assert last !in s';
        assert s[..|s| - 1] == s';
        FirstIndexUnique(s, last, |s| - 1);
        forall i, j | 0 <= i < j < |Unique(s)|
          ensures FirstIndex(s, Unique(s)[i]) < FirstIndex(s, Unique(s)[j])
        {
          assert Unique(s)[i] == u[i] && u[i] in s';
          if j < |u| {
            assert Unique(s)[j] == u[j] && u[j] in s';
          } else {
            assert Unique(s)[j] == last;
            assert FirstIndex(s', u[i]) < |s'|;
          }
        }
      } else {
        forall i, j | 0 <= i < j < |Unique(s)|
          ensures FirstIndex(s, Unique(s)[i]) < FirstIndex(s, Unique(s)[j])
        {
          assert Unique(s)[i] == u[i] && u[i] in s';
          assert Unique(s)[j] == u[j] && u[j] in s';
        }
      }
    }
  }

  /** Sum of the lengths of `parts`. */
  function TotalLength(parts: seq<string>): nat {
    if |parts| == 0 then 0 else |parts[0]| + TotalLength(parts[1..])
  }

  /** `sep.join(parts)` */
  function Join(parts: seq<string>, sep: string): (r: string)
    ensures |parts| == 0 ==> r == ""
    ensures |parts| > 0 ==> parts[0] <= r
    ensures |parts| > 0 ==> |r| == TotalLength(parts) + (|parts| - 1) * |sep|
  {
    if |parts| == 0 then ""
    else if |parts| == 1 then parts[0]
    else parts[0] + sep + Join(parts[1..], sep)
  }

  /** Joining a single part gives that part. */
  lemma JoinSingle(p: string, sep: string)
    ensures Join([p], sep) == p
  {
  }

  /** Appending a part appends the separator and then the part, as an accumulate-and-join loop builds it. */
  lemma {:induction false} JoinAppend(parts: seq<string>, p: string, sep: string)
    requires |parts| > 0
    ensures Join(parts + [p], sep) == Join(parts, sep) + sep + p
    decreases |parts|
  {
    assert (parts + [p])[0] == parts[0];
    if |parts| == 1 {
      assert (parts + [p])[1..] == [p];
    } else {
      assert (parts + [p])[1..] == parts[1..] + [p];
      JoinAppend(parts[1..], p, sep);
    }
  }

  predicate IsDigit(c: char) {
    '0' <= c <= '9'
  }

  function DigitChar(d: nat): (c: char)
    requires d < 10
    ensures IsDigit(c) && c as int - '0' as int == d
  {
    ('0' as int + d) as char
  }

  /** The value of a non-empty run of decimal digits, as `int(s)` reads it; None when `int(s)` would raise. */
  function DigitsValue(s: string): (r: Option<nat>)
    ensures r.Some? <==> |s| > 0 && forall i :: 0 <= i < |s| ==> IsDigit(s[i])
  {
    if |s| == 0 then None
    else if !IsDigit(s[|s| - 1]) then None
    else if |s| == 1 then Some(s[0] as int - '0' as int)
    else
      match DigitsValue(s[..|s| - 1])
      case None => None
      case Some(v) => Some(v * 10 + (s[|s| - 1] as int - '0' as int))
  }

  function Pow10(n: nat): (r: nat)
    ensures r >= 1
  {
    if n == 0 then 1 else 10 * Pow10(n - 1)
  }

  /** The positional value of a digit string: each digit weighted by ten to the number of digits after it. */
  function PositionalValue(s: string): int
    requires forall i :: 0 <= i < |s| ==> IsDigit(s[i])
  {
    if |s| == 0 then 0
    else (s[0] as int - '0' as int) * Pow10(|s| - 1) + PositionalValue(s[1..])
  }

  /** Adding a digit at the end multiplies the positional value by ten and adds that digit. */
  lemma {:induction false} PositionalValueAppend(s: string, c: char)
    requires forall i :: 0 <= i < |s| ==> IsDigit(s[i])
    requires IsDigit(c)
    ensures PositionalValue(s + [c]) == 10 * PositionalValue(s) + (c as int - '0' as int)
    decreases |s|
  {
    if |s| > 0 {
      assert (s + [c])[1..] == s[1..] + [c];
      var d := s[0] as int - '0' as int;
      PositionalValueAppend(s[1..], c);
      assert |s + [c]| - 1 == |s|;
      calc {
        d * Pow10(|s|);
        d * (10 * Pow10(|s| - 1));
        10 * (d * Pow10(|s| - 1));
      }
    } else {
      assert [c][1..] == [];
    }
  }

  /** `DigitsValue` reads a digit string as its positional decimal value. */
  lemma {:induction false} DigitsValueIsPositional(s: string)
    requires |s| > 0 && forall i :: 0 <= i < |s| ==> IsDigit(s[i])
    ensures DigitsValue(s).Some? && DigitsValue(s).value == PositionalValue(s)
    decreases |s|
  {
    if |s| == 1 {
      assert s[1..] == [];
    } else {
      var init := s[..|s| - 1];
      DigitsValueIsPositional(init);
      PositionalValueAppend(init, s[|s| - 1]);
      assert init + [s[|s| - 1]] == s;
    }
  }

  /** `f"{n:02d}"` for a number below 100: two digits, zero padded, reading back as `n`. */
  function Pad2(n: nat): (r: string)
    requires n < 100
    ensures |r| == 2
    ensures DigitsValue(r) == Some(n)
  {
    var r := [DigitChar(n / 10), DigitChar(n % 10)];
    assert r[..1] == [DigitChar(n / 10)];
    r
  }

  /** Two different numbers never print the same two digits. */
  lemma Pad2Injective(m: nat, n: nat)
    requires m < 100 && n < 100 && m != n
    ensures Pad2(m) != Pad2(n)
  {
  }
}

/** The rows of the per-year disaster tables `<year>.csv`. */
module Records {

  /**
   * One row: City, Month ("YYYY-MM"), Disaster, Severity, Scale, Value, Unit.
   * Scale and Value are numbers in the table; they are kept here as the text they print as.
   */
  datatype Record = Record(
    city: string,
    month: string,
    disaster: string,
    severity: string,
    scale: string,
    value: string,
    unit: string)
}
