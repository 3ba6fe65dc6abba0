/**
 * Content versions: dot-separated integers compared component by component,
 * the shorter one padded with zeros (CompareVersions in both updaters).
 */
module Versions {
  import opened Wrappers
  import opened Text

  const Int32Min: int := -0x8000_0000
  const Int32Max: int := 0x7FFF_FFFF

  /** The white space int.Parse skips around a number: U+0009 to U+000D and the space. */
  predicate IsParseWhite(c: char) { c == ' ' || '\t' <= c <= '\r' }

  predicate IsDigit(c: char) { '0' <= c <= '9' }

  /** The characters int.Parse accepts anywhere in its input. */
  predicate IsNumberChar(c: char) { IsDigit(c) || IsParseWhite(c) || c == '-' || c == '+' }

  predicate AllDigits(ds: string) { forall k :: 0 <= k < |ds| ==> IsDigit(ds[k]) }

  /** The value of a run of decimal digits, most significant first. */
  function DigitsValue(ds: string): nat
    requires AllDigits(ds)
  {
    if ds == [] then 0 else 10 * DigitsValue(ds[..|ds| - 1]) + (ds[|ds| - 1] as int - '0' as int)
  }

  function StripParseWhite(s: string): (r: string)
    ensures |r| <= |s|
    ensures forall k :: 0 <= k < |s| ==> IsParseWhite(s[k]) || s[k] in r
    ensures (s == [] || (!IsParseWhite(s[0]) && !IsParseWhite(s[|s| - 1]))) ==> r == s
  {
    if |s| > 0 && IsParseWhite(s[0]) then StripParseWhite(s[1..])
    else if |s| > 0 && IsParseWhite(s[|s| - 1]) then StripParseWhite(s[..|s| - 1])
    else s
  }

  /**
   * int.Parse with NumberStyles.Integer: optional white space, an optional
   * '+' or '-', one or more ASCII digits, optional white space; None where
   * .NET throws FormatException or OverflowException.
   */
  function ParseInt32(s: string): (r: Option<int>)
    ensures r.Some? ==> Int32Min <= r.value <= Int32Max
    ensures r.Some? ==> forall k :: 0 <= k < |s| ==> IsNumberChar(s[k])
  {
    var t := StripParseWhite(s);
    var signed := |t| > 0 && (t[0] == '-' || t[0] == '+');
    var digits := if signed then t[1..] else t;
    if digits == [] || !AllDigits(digits) then None
    else
      assert forall k :: 0 <= k < |t| ==> IsNumberChar(t[k]) by {
        forall k | 0 <= k < |t| ensures IsNumberChar(t[k]) {
          if signed && k > 0 {
            assert t[k] == digits[k - 1];
          }
        }
      }
      var n: int := if signed && t[0] == '-' then -(DigitsValue(digits) as int) else DigitsValue(digits);
      if Int32Min <= n <= Int32Max then Some(n) else None
  }

  /** `Select(int.Parse)` over the pieces: None as soon as one piece does not parse. */
  function ParseAll(parts: seq<string>): (r: Option<seq<int>>)
    ensures r.Some? ==> |r.value| == |parts|
    ensures r.Some? <==> forall i :: 0 <= i < |parts| ==> ParseInt32(parts[i]).Some?
    ensures r.Some? ==> forall i :: 0 <= i < |parts| ==> r.value[i] == ParseInt32(parts[i]).value
  {
    if parts == [] then Some([])
    else
      match (ParseInt32(parts[0]), ParseAll(parts[1..]))
      case (Some(n), Some(ns)) => Some([n] + ns)
      case _ => None
  }

  /** `v.Split('.').Select(int.Parse).ToArray()`. */
  function Components(v: string): (r: Option<seq<int>>)
    ensures r.Some? ==> |r.value| >= 1
  {
    ParseAll(Split(v, '.'))
  }

  predicate IsVersion(v: string) { Components(v).Some? }

  function Max(a: int, b: int): int { if a >= b then a else b }

  /** Component `i`, or 0 past the end: the zero padding of the shorter version. */
  function Pad(p: seq<int>, i: nat): int { if i < |p| then p[i] else 0 }

  /** Compares the padded components from index `i` on: -1, 0 or 1 as Int32.CompareTo answers. */
  function CompareFrom(p: seq<int>, q: seq<int>, i: nat): (r: int)
    ensures -1 <= r <= 1
    decreases Max(|p|, |q|) - i
  {
    if i >= Max(|p|, |q|) then 0
    else if Pad(p, i) != Pad(q, i) then (if Pad(p, i) < Pad(q, i) then -1 else 1)
    else CompareFrom(p, q, i + 1)
  }

  function ComparePadded(p: seq<int>, q: seq<int>): int { CompareFrom(p, q, 0) }

  /**
   * CompareVersions: None where int.Parse throws on either side; otherwise
   * the loop's answer is the zero-padded comparison of the components.
   */
  method CompareVersions(v1: string, v2: string) returns (r: Option<int>)
    ensures r.Some? <==> IsVersion(v1) && IsVersion(v2)
    ensures r.Some? ==> r.value == ComparePadded(Components(v1).value, Components(v2).value)
  {
    var c1 := Components(v1);
    var c2 := Components(v2);
    if c1.None? || c2.None? {
      return None;
    }
    var parts1, parts2 := c1.value, c2.value;
    var i := 0;
    while i < Max(|parts1|, |parts2|)
      invariant 0 <= i <= Max(|parts1|, |parts2|)
      invariant CompareFrom(parts1, parts2, i) == ComparePadded(parts1, parts2)
    {
      var p1 := if i < |parts1| then parts1[i] else 0;
      var p2 := if i < |parts2| then parts2[i] else 0;
      CompareStep(parts1, parts2, i);
      if p1 != p2 {
        return Some(if p1 < p2 then -1 else 1);
      }
      i := i + 1;
    }
    return Some(0);
  }

  /** One step of the comparison, valid at every index, past the end too. */
  lemma CompareStep(p: seq<int>, q: seq<int>, i: nat)
    ensures CompareFrom(p, q, i) ==
      if Pad(p, i) != Pad(q, i) then (if Pad(p, i) < Pad(q, i) then -1 else 1)
      else CompareFrom(p, q, i + 1)
  {
  }

  /** A version compares equal to itself. */
  lemma {:induction false} CompareReflexive(p: seq<int>, i: nat)
    ensures CompareFrom(p, p, i) == 0
    decreases |p| - i
  {
    if i < |p| {
      CompareReflexive(p, i + 1);
    }
  }

  /** Swapping the arguments flips the sign. */
  lemma {:induction false} CompareAntisymmetric(p: seq<int>, q: seq<int>, i: nat)
    ensures CompareFrom(p, q, i) == -CompareFrom(q, p, i)
    decreases Max(|p|, |q|) - i
  {
    if i < Max(|p|, |q|) {
      CompareAntisymmetric(p, q, i + 1);
    }
  }

  /** At most, at most gives at most; and the result is strict as soon as one step is. */
  lemma {:induction false} CompareTransitive(a: seq<int>, b: seq<int>, c: seq<int>, i: nat)
    ensures CompareFrom(a, b, i) <= 0 && CompareFrom(b, c, i) <= 0 ==> CompareFrom(a, c, i) <= 0
    ensures CompareFrom(a, b, i) < 0 && CompareFrom(b, c, i) <= 0 ==> CompareFrom(a, c, i) < 0
    ensures CompareFrom(a, b, i) <= 0 && CompareFrom(b, c, i) < 0 ==> CompareFrom(a, c, i) < 0
    decreases Max(Max(|a|, |b|), |c|) - i
  {
    if i < Max(Max(|a|, |b|), |c|) {
      CompareStep(a, b, i);
      CompareStep(b, c, i);
      CompareStep(a, c, i);
      CompareTransitive(a, b, c, i + 1);
    }
  }

  /** Equal exactly when the zero-padded components agree everywhere from `i` on. */
  lemma {:induction false} CompareZeroIff(p: seq<int>, q: seq<int>, i: nat)
    ensures CompareFrom(p, q, i) == 0 <==> forall j :: i <= j ==> Pad(p, j) == Pad(q, j)
    decreases Max(|p|, |q|) - i
  {
    if i < Max(|p|, |q|) {
      CompareZeroIff(p, q, i + 1);
      if Pad(p, i) == Pad(q, i) {
        forall j | i <= j && (forall j' :: i + 1 <= j' ==> Pad(p, j') == Pad(q, j'))
          ensures Pad(p, j) == Pad(q, j)
        {
          if j > i {
            assert i + 1 <= j;
          }
        }
      }
    }
  }

  /** The first component that differs decides, by its own order. */
  lemma {:induction false} CompareFirstDifference(p: seq<int>, q: seq<int>, i: nat, k: nat)
    requires i <= k
    requires forall j :: i <= j < k ==> Pad(p, j) == Pad(q, j)
    requires Pad(p, k) != Pad(q, k)
    ensures CompareFrom(p, q, i) == if Pad(p, k) < Pad(q, k) then -1 else 1
    decreases k - i
  {
    CompareStep(p, q, i);
    if i < k {
      CompareFirstDifference(p, q, i + 1, k);
    }
  }

  /** Missing trailing components count as zeros: "3.2" and "3.2.0" are equal. */
  lemma CompareZeroPadding(p: seq<int>, zeros: seq<int>)
    requires forall k :: 0 <= k < |zeros| ==> zeros[k] == 0
    ensures ComparePadded(p, p + zeros) == 0
  {
    CompareZeroIff(p, p + zeros, 0);
  }

  /** A bare run of digits parses to its value. */
  lemma ParseDigits(ds: string)
    requires ds != [] && AllDigits(ds) && DigitsValue(ds) <= Int32Max
    ensures ParseInt32(ds) == Some(DigitsValue(ds))
  {
    assert !IsParseWhite(ds[0]) && !IsParseWhite(ds[|ds| - 1]);
    assert StripParseWhite(ds) == ds;
    assert ds[0] != '-' && ds[0] != '+';
  }

  /** Dotted digit runs parse to their values, one component per run. */
  lemma ComponentsOfDigitRuns(parts: seq<string>)
    requires |parts| >= 1
    requires forall i :: 0 <= i < |parts| ==> parts[i] != [] && AllDigits(parts[i]) && DigitsValue(parts[i]) <= Int32Max
    ensures Components(Join(parts, '.')).Some?
    ensures |Components(Join(parts, '.')).value| == |parts|
    ensures forall i :: 0 <= i < |parts| ==> Components(Join(parts, '.')).value[i] == DigitsValue(parts[i])
  {
    assert forall i :: 0 <= i < |parts| ==> '.' !in parts[i];
    SplitJoin(parts, '.');
    forall i | 0 <= i < |parts| ensures ParseInt32(parts[i]) == Some(DigitsValue(parts[i]) as int) {
      ParseDigits(parts[i]);
    }
  }

  /** A single digit's value. */
  lemma SingleDigit(x: char)
    requires IsDigit(x)
    ensures AllDigits([x]) && DigitsValue([x]) == x as int - '0' as int
  {
    assert [x][..0] == [];
  }

  lemma ThreeElements(c: seq<int>, a: int, b: int, d: int)
    requires |c| == 3 && c[0] == a && c[1] == b && c[2] == d
    ensures c == [a, b, d]
  {
  }

  /** A two-part version of single digits, such as "3.2", parses to the digits' values. */
  lemma ComponentsOfTwoDigits(x: char, y: char)
    requires IsDigit(x) && IsDigit(y)
    ensures Components([x, '.', y]) == Some([x as int - '0' as int, y as int - '0' as int])
  {
    var runs := [[x], [y]];
    SingleDigit(x);
    SingleDigit(y);
    var v := Join(runs, '.');
    assert v == [x, '.', y] by {
      assert runs[1..] == [[y]];
      assert Join([[y]], '.') == [y];
    }
    ComponentsOfDigitRuns(runs);
    var c := Components(v).value;
    assert |c| == 2 && c[0] == DigitsValue(runs[0]) && c[1] == DigitsValue(runs[1]);
    assert c == [x as int - '0' as int, y as int - '0' as int];
  }

  /** A three-part version of single digits, such as "3.2.6", parses to the digits' values. */
  lemma ComponentsOfThreeDigits(x: char, y: char, z: char)
    requires IsDigit(x) && IsDigit(y) && IsDigit(z)
    ensures Components([x, '.', y, '.', z]) == Some([x as int - '0' as int, y as int - '0' as int, z as int - '0' as int])
  {
    var runs := [[x], [y], [z]];
    SingleDigit(x);
    SingleDigit(y);
    SingleDigit(z);
    var v := Join(runs, '.');
    assert v == [x, '.', y, '.', z] by {
      assert runs[1..] == [[y], [z]];
      assert Join([[y], [z]], '.') == [y, '.', z] by {
        assert [[y], [z]][1..] == [[z]];
        assert Join([[z]], '.') == [z];
      }
    }
    ComponentsOfDigitRuns(runs);
    var c := Components(v).value;
    assert |c| == 3 && c[0] == DigitsValue(runs[0]) && c[1] == DigitsValue(runs[1]) && c[2] == DigitsValue(runs[2]);
    ThreeElements(c, x as int - '0' as int, y as int - '0' as int, z as int - '0' as int);
  }

  /** The incremental-update floor "3.2.6" parses to [3, 2, 6]. */
  lemma ComponentsOfFloor()
    ensures Components("3.2.6") == Some([3, 2, 6])
  {
    ComponentsOfThreeDigits('3', '2', '6');
  }

  /** Text made of the characters int.Parse accepts and the dot. */
  predicate VersionText(s: string) { forall k :: 0 <= k < |s| ==> IsNumberChar(s[k]) || s[k] == '.' }

  lemma VersionTextConcat(a: string, b: string)
    requires VersionText(a) && VersionText(b)
    ensures VersionText(a + ['.'] + b)
  {
    forall k | |a| < k < |a + ['.'] + b| ensures (a + ['.'] + b)[k] == b[k - |a| - 1] {}
  }

  /** Every character of a joined list of parseable pieces is a number character or the dot. */
  lemma {:induction false} JoinedNumberChars(parts: seq<string>)
    requires ParseAll(parts).Some?
    ensures VersionText(Join(parts, '.'))
  {
    if |parts| > 0 {
      assert ParseInt32(parts[0]).Some?;
      assert VersionText(parts[0]);
    }
    if |parts| > 1 {
      JoinedNumberChars(parts[1..]);
      VersionTextConcat(parts[0], Join(parts[1..], '.'));
    }
  }

  /** A version string that parses holds only digits, signs, white space and dots. */
  lemma VersionChars(v: string)
    requires IsVersion(v)
    ensures forall k :: 0 <= k < |v| ==> IsNumberChar(v[k]) || v[k] == '.'
  {
    JoinSplit(v, '.');
    JoinedNumberChars(Split(v, '.'));
  }
}
