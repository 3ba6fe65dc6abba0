/**
 * The members of System.String the updater relies on, as functions on
 * `seq<char>`: Split on one separator character (all pieces, at most `count`
 * pieces, or with empty pieces removed) and Trim.
 */
module Text {

  function Min(a: int, b: int): int { if a <= b then a else b }

  /** char.IsWhiteSpace: the characters Unicode classes as White_Space. */
  predicate IsWhiteSpace(c: char)
  {
    || c == ' ' || '\t' <= c <= '\r'
    || c == '\U{0085}' || c == '\U{00A0}' || c == '\U{1680}'
    || '\U{2000}' <= c <= '\U{200A}'
    || c == '\U{2028}' || c == '\U{2029}' || c == '\U{202F}' || c == '\U{205F}' || c == '\U{3000}'
  }

  /** Concatenation is associative; stated once so that proofs need not rediscover it for each element type. */
  lemma ConcatAssociates<T>(x: seq<T>, y: seq<T>, z: seq<T>)
    ensures (x + y) + z == x + (y + z)
  {
  }

  /** Four pieces joined by a separator, regrouped from the right. */
  lemma JoinedFourAssociates<T>(a: seq<T>, b: seq<T>, c: seq<T>, d: seq<T>, s: seq<T>)
    ensures a + s + b + s + c + s + d == a + s + (b + s + (c + s + d))
  {
  }

  /** Where TrimStart stops: the first position from `i` on that is not white space. */
  function TrimStartIndex(s: string, i: nat): (j: nat)
    requires i <= |s|
    ensures i <= j <= |s|
    ensures j < |s| ==> !IsWhiteSpace(s[j])
    decreases |s| - i
  {
    if i < |s| && IsWhiteSpace(s[i]) then TrimStartIndex(s, i + 1) else i
  }

  /** Where TrimEnd stops: the end of the text before its trailing white space, not below `lo`. */
  function TrimEndIndex(s: string, lo: nat, j: nat): (e: nat)
    requires lo <= j <= |s|
    ensures lo <= e <= j
    ensures lo < e ==> !IsWhiteSpace(s[e - 1])
    decreases j
  {
    if lo < j && IsWhiteSpace(s[j - 1]) then TrimEndIndex(s, lo, j - 1) else j
  }

  /** TrimStart drops white space only. */
  lemma {:induction false} TrimStartDropsWhiteSpace(s: string, i: nat)
    requires i <= |s|
    decreases |s| - i
    ensures forall k :: i <= k < TrimStartIndex(s, i) ==> IsWhiteSpace(s[k])
  {
    if i < |s| && IsWhiteSpace(s[i]) {
      TrimStartDropsWhiteSpace(s, i + 1);
    }
  }

  /** TrimEnd drops white space only. */
  lemma {:induction false} TrimEndDropsWhiteSpace(s: string, lo: nat, j: nat)
    requires lo <= j <= |s|
    decreases j
    ensures forall k :: TrimEndIndex(s, lo, j) <= k < j ==> IsWhiteSpace(s[k])
  {
    if lo < j && IsWhiteSpace(s[j - 1]) {
      TrimEndDropsWhiteSpace(s, lo, j - 1);
    }
  }

  /**
   * String.Trim(): the slice between the leading and the trailing white
   * space; it neither starts nor ends with white space.
   */
  function Trim(s: string): (r: string)
    ensures r == [] || (!IsWhiteSpace(r[0]) && !IsWhiteSpace(r[|r| - 1]))
  {
    var a := TrimStartIndex(s, 0);
    s[a..TrimEndIndex(s, a, |s|)]
  }

  /** Trimming adds no character: what is trimmed is a slice of the text. */
  lemma TrimAddsNothing(s: string, c: char)
    requires c !in s
    ensures c !in Trim(s)
  {
    var a := TrimStartIndex(s, 0);
    var r := Trim(s);
    assert forall k :: 0 <= k < |r| ==> r[k] == s[a + k];
  }

  /** Text without white space at either end is its own trim. */
  lemma TrimClean(s: string)
    requires s == [] || (!IsWhiteSpace(s[0]) && !IsWhiteSpace(s[|s| - 1]))
    ensures Trim(s) == s
  {
    if s != [] {
      assert TrimStartIndex(s, 0) == 0;
      assert TrimEndIndex(s, 0, |s|) == |s|;
    }
    assert s[0..|s|] == s;
  }

  /**
   * String.Split(sep): the maximal runs between separators, empty runs
   * included; there is always one more piece than there are separators.
   */
  function Split(s: string, sep: char): (parts: seq<string>)
    ensures |parts| >= 1
    ensures forall i :: 0 <= i < |parts| ==> sep !in parts[i]
  {
    if s == [] then [""]
    else
      var rest := Split(s[1..], sep);
      if s[0] == sep then [""] + rest
      else [[s[0]] + rest[0]] + rest[1..]
  }

  /** There is always one more piece than there are separators. */
  lemma {:induction false} SplitCount(s: string, sep: char)
    ensures |Split(s, sep)| == multiset(s)[sep] + 1
  {
    if s != [] {
      assert s == [s[0]] + s[1..];
      SplitCount(s[1..], sep);
    }
  }

  /** String.Join(sep, parts), the inverse of Split. */
  function Join(parts: seq<string>, sep: char): string
  {
    if parts == [] then ""
    else if |parts| == 1 then parts[0]
    else parts[0] + [sep] + Join(parts[1..], sep)
  }

  /** Joining the pieces of a split gives the original text back. */
  lemma {:induction false} JoinSplit(s: string, sep: char)
    ensures Join(Split(s, sep), sep) == s
  {
    if s != [] {
      JoinSplit(s[1..], sep);
      var rest := Split(s[1..], sep);
      if s[0] != sep {
        if |rest| > 1 {
          assert Join(rest, sep) == rest[0] + [sep] + Join(rest[1..], sep);
        }
      }
    }
  }

  lemma JoinFour(p: seq<string>, sep: char)
    requires |p| == 4
    ensures Join(p, sep) == p[0] + [sep] + p[1] + [sep] + p[2] + [sep] + p[3]
  {
    assert p[1..][1..] == p[2..] && p[2..][1..] == p[3..];
    var tail := p[2] + [sep] + p[3];
    assert Join(p[2..], sep) == tail;
    assert Join(p[1..], sep) == p[1] + [sep] + tail;
  }

  /** Splitting at a separator splits the two sides independently. */
  lemma {:induction false} SplitConcat(a: string, sep: char, b: string)
    ensures Split(a + [sep] + b, sep) == Split(a, sep) + Split(b, sep)
  {
    if a == [] {
      assert a + [sep] + b == [sep] + b;
      assert ([sep] + b)[1..] == b;
    } else {
      assert (a + [sep] + b)[1..] == a[1..] + [sep] + b;
      SplitConcat(a[1..], sep, b);
    }
  }

  /** Splitting a joined list of separator-free pieces gives the pieces back. */
  lemma {:induction false} SplitJoin(parts: seq<string>, sep: char)
    requires |parts| >= 1
    requires forall i :: 0 <= i < |parts| ==> sep !in parts[i]
    ensures Split(Join(parts, sep), sep) == parts
  {
    assert multiset(parts[0])[sep] == 0;
    var head := Split(parts[0], sep);
    JoinSplit(parts[0], sep);
    assert |head| == 1 && Join(head, sep) == head[0];
    if |parts| > 1 {
      SplitJoin(parts[1..], sep);
      SplitConcat(parts[0], sep, Join(parts[1..], sep));
      assert parts == [parts[0]] + parts[1..];
    }
  }

  /**
   * String.Split(new[] { sep }, count): like Split, but the last of at most
   * `count` pieces keeps the rest of the text, separators included.
   */
  function SplitAtMost(s: string, sep: char, count: nat): (parts: seq<string>)
    requires count >= 1
    ensures 1 <= |parts| <= count
    ensures forall i :: 0 <= i < |parts| - 1 ==> sep !in parts[i]
    ensures |parts| < count ==> sep !in parts[|parts| - 1]
  {
    if s == [] then [s]
    else if count == 1 then [s]
    else
      if s[0] == sep then [""] + SplitAtMost(s[1..], sep, count - 1)
      else
        var rest := SplitAtMost(s[1..], sep, count);
        [[s[0]] + rest[0]] + rest[1..]
  }

  /** A limited split has one more piece than there are separators, up to `count`. */
  lemma {:induction false} SplitAtMostCount(s: string, sep: char, count: nat)
    requires count >= 1
    ensures |SplitAtMost(s, sep, count)| == Min(count, multiset(s)[sep] + 1)
  {
    if s != [] && count > 1 {
      assert s == [s[0]] + s[1..];
      if s[0] == sep {
        SplitAtMostCount(s[1..], sep, count - 1);
      } else {
        SplitAtMostCount(s[1..], sep, count);
      }
    }
  }

  /** The pieces of a limited split join back to the original text. */
  lemma {:induction false} JoinSplitAtMost(s: string, sep: char, count: nat)
    requires count >= 1
    ensures Join(SplitAtMost(s, sep, count), sep) == s
  {
    if s != [] && count > 1 {
      if s[0] == sep {
        JoinSplitAtMost(s[1..], sep, count - 1);
        JoinSplitAtMostSep(s, sep, count);
      } else {
        JoinSplitAtMost(s[1..], sep, count);
        JoinSplitAtMostChar(s, sep, count);
      }
    }
  }

  lemma JoinSplitAtMostSep(s: string, sep: char, count: nat)
    requires count > 1 && s != [] && s[0] == sep
    requires Join(SplitAtMost(s[1..], sep, count - 1), sep) == s[1..]
    ensures Join(SplitAtMost(s, sep, count), sep) == s
  {
    var rest := SplitAtMost(s[1..], sep, count - 1);
    assert SplitAtMost(s, sep, count) == [""] + rest;
    assert ([""] + rest)[1..] == rest;
    assert s == [sep] + s[1..];
  }

  lemma JoinSplitAtMostChar(s: string, sep: char, count: nat)
    requires count > 1 && s != [] && s[0] != sep
    requires Join(SplitAtMost(s[1..], sep, count), sep) == s[1..]
    ensures Join(SplitAtMost(s, sep, count), sep) == s
  {
    var rest := SplitAtMost(s[1..], sep, count);
    var parts := [[s[0]] + rest[0]] + rest[1..];
    assert SplitAtMost(s, sep, count) == parts;
    JoinConsChar(s[0], rest, sep);
    assert s == [s[0]] + s[1..];
  }

  lemma JoinConsChar(c: char, rest: seq<string>, sep: char)
    requires |rest| >= 1
    ensures Join([[c] + rest[0]] + rest[1..], sep) == [c] + Join(rest, sep)
  {
    var parts := [[c] + rest[0]] + rest[1..];
    if |rest| > 1 {
      assert parts[0] == [c] + rest[0] && parts[1..] == rest[1..];
      var tail := Join(rest[1..], sep);
      calc {
        Join(parts, sep);
        ([c] + rest[0]) + [sep] + tail;
        [c] + (rest[0] + [sep] + tail);
        [c] + Join(rest, sep);
      }
    }
  }

  /** A separator-free first piece is split off whole, and the count drops by one. */
  lemma {:induction false} SplitAtMostFirst(a: string, sep: char, rest: string, count: nat)
    requires count >= 2 && sep !in a
    ensures SplitAtMost(a + [sep] + rest, sep, count) == [a] + SplitAtMost(rest, sep, count - 1)
  {
    if a == [] {
      assert (a + [sep] + rest)[1..] == rest;
    } else {
      var s := a + [sep] + rest;
      assert s[0] == a[0] && s[1..] == a[1..] + [sep] + rest;
      SplitAtMostFirst(a[1..], sep, rest, count);
      var r := SplitAtMost(s[1..], sep, count);
      assert r[0] == a[1..] && r[1..] == SplitAtMost(rest, sep, count - 1);
      assert [a[0]] + a[1..] == a;
    }
  }

  /** StringSplitOptions.RemoveEmptyEntries: the non-empty pieces, in order. */
  function NonEmpty(parts: seq<string>): (r: seq<string>)
    ensures |r| <= |parts|
    ensures forall i :: 0 <= i < |r| ==> r[i] != [] && r[i] in parts
    ensures forall p :: p in parts && p != [] ==> p in r
  {
    if parts == [] then []
    else if parts[0] == [] then NonEmpty(parts[1..])
    else [parts[0]] + NonEmpty(parts[1..])
  }

  lemma {:induction false} NonEmptyConcat(a: seq<string>, b: seq<string>)
    ensures NonEmpty(a + b) == NonEmpty(a) + NonEmpty(b)
  {
    if a != [] {
      assert (a + b)[1..] == a[1..] + b;
      NonEmptyConcat(a[1..], b);
    } else {
      assert a + b == b;
    }
  }
}
