/**
 * The few pieces of Python's str behaviour the scripts rely on: startswith, substring
 * test, str(int), int(str), split, join, strip, upper, code-point ordering and sorted().
 */
module Strings {
  import opened Wrappers

  // ---------------------------------------------------------------------------
  // startswith and `in`

  /** Regrouping a concatenation of four texts, stated on names so literals need not be spelled out. */
  lemma ConcatRegroup(a: string, b: string, c: string, d: string)
    ensures a + b + c + d == a + (b + c + d)
  {
  }

  /** Python's s.startswith(prefix). */
  predicate StartsWith(s: string, prefix: string) {
    |prefix| <= |s| && s[..|prefix|] == prefix
  }

  /** Python's `t in s` on strings: some position of s starts with t. */
  predicate Contains(s: string, t: string)
    decreases |s|
  {
    StartsWith(s, t) || (|s| > 0 && Contains(s[1..], t))
  }

  lemma {:induction false} ContainsSuffix(s: string, t: string)
    ensures Contains(s + t, t)
    decreases |s|
  {
    if |s| == 0 {
      assert s + t == t;
      assert (s + t)[..|t|] == t;
    } else {
      assert (s + t)[1..] == s[1..] + t;
      ContainsSuffix(s[1..], t);
    }
  }

  lemma {:induction false} ContainsExtend(s: string, u: string, t: string)
    requires Contains(s, t)
    ensures Contains(s + u, t)
    decreases |s|
  {
    if StartsWith(s, t) {
      assert (s + u)[..|t|] == s[..|t|];
    } else {
      assert (s + u)[1..] == s[1..] + u;
      ContainsExtend(s[1..], u, t);
    }
  }

  /** A string that does not hold t's first character cannot hold t. */
  lemma {:induction false} MissingFirstChar(s: string, t: string)
    requires |t| > 0 && t[0] !in s
    ensures !Contains(s, t)
    decreases |s|
  {
    if |s| > 0 {
      assert s[0] != t[0];
      assert !StartsWith(s, t);
      assert forall i :: 0 <= i < |s[1..]| ==> s[1..][i] == s[i + 1];
      MissingFirstChar(s[1..], t);
    }
  }

  // ---------------------------------------------------------------------------
  // str(int) and int(str)

  predicate IsDigit(c: char) { '0' <= c <= '9' }

  predicate AllDigits(s: string) { forall i :: 0 <= i < |s| ==> IsDigit(s[i]) }

  function DigitChar(d: nat): char
    requires d < 10
  {
    (48 + d) as char
  }

  function DigitValue(c: char): nat
    requires IsDigit(c)
  {
    var v := c as int - '0' as int;
    assert 0 <= v;
    v
  }

  /** Decimal digits of n, most significant first, as Python's str(n). */
  function NatToString(n: nat): (r: string)
    ensures |r| >= 1 && AllDigits(r)
    decreases n
  {
    if n < 10 then [DigitChar(n)] else NatToString(n / 10) + [DigitChar(n % 10)]
  }

  /** Python's str(i) for an int. */
  function IntToString(i: int): (r: string)
  {
    if i < 0 then "-" + NatToString(-i) else NatToString(i)
  }

  /** The value of a run of decimal digits. */
  function DigitsValue(s: string): nat
    requires AllDigits(s)
    decreases |s|
  {
    if |s| == 0 then 0 else DigitsValue(s[..|s| - 1]) * 10 + DigitValue(s[|s| - 1])
  }

  /**
   * Python's int(s) on text: surrounding white space is dropped, an optional sign and
   * then one or more decimal digits; anything else raises ValueError.
   */
  function PyInt(s: string): (r: Option<int>)
  {
    var t := Strip(s);
    if |t| >= 2 && (t[0] == '-' || t[0] == '+') && AllDigits(t[1..]) then
      var v: int := DigitsValue(t[1..]);
      Some(if t[0] == '-' then -v else v)
    else if |t| >= 1 && AllDigits(t) then
      Some(DigitsValue(t))
    else
      None
  }

  lemma {:induction false} DigitsOfNat(n: nat)
    ensures DigitsValue(NatToString(n)) == n
    decreases n
  {
    var s := NatToString(n);
    if n >= 10 {
      DigitsOfNat(n / 10);
      assert s[..|s| - 1] == NatToString(n / 10);
    }
  }

  lemma StripUnspaced(s: string)
    requires |s| > 0 && !IsSpace(s[0]) && !IsSpace(s[|s| - 1])
    ensures Strip(s) == s
  {
  }

  /** int(str(i)) == i: the text written for a year reads back as the same year. */
  lemma PyIntOfIntToString(i: int)
    ensures PyInt(IntToString(i)) == Some(i)
  {
    var s := IntToString(i);
    var digits := NatToString(if i < 0 then -i else i);
    assert IsDigit(digits[0]) && IsDigit(digits[|digits| - 1]);
    assert s[|s| - 1] == digits[|digits| - 1];
    StripUnspaced(s);
    DigitsOfNat(if i < 0 then -i else i);
    if i < 0 {
      assert s[1..] == digits;
    }
  }

  /** Different ints print differently. */
  lemma IntToStringInjective(i: int, j: int)
    requires IntToString(i) == IntToString(j)
    ensures i == j
  {
    PyIntOfIntToString(i);
    PyIntOfIntToString(j);
  }

  lemma IntToStringChars(i: int)
    ensures forall k :: 0 <= k < |IntToString(i)| ==> IsDigit(IntToString(i)[k]) || IntToString(i)[k] == '-'
  {
  }

  // ---------------------------------------------------------------------------
  // split and join

  /** Python's s.split(sep) for a one-character separator. */
  function Split(s: string, sep: char): (r: seq<string>)
    ensures |r| >= 1
    decreases |s|
  {
    if |s| == 0 then [""]
    else
      var rest := Split(s[1..], sep);
      if s[0] == sep then [""] + rest else [[s[0]] + rest[0]] + rest[1..]
  }

  /** Python's sep.join(parts). */
  function Join(parts: seq<string>, sep: string): string
    decreases |parts|
  {
    if |parts| == 0 then ""
    else if |parts| == 1 then parts[0]
    else parts[0] + sep + Join(parts[1..], sep)
  }

  /** Split then join with the same separator gives the text back. */
  lemma {:induction false} JoinSplit(s: string, sep: char)
    ensures Join(Split(s, sep), [sep]) == s
    decreases |s|
  {
    if |s| > 0 {
      var rest := Split(s[1..], sep);
      JoinSplit(s[1..], sep);
      if s[0] == sep {
        assert Split(s, sep) == [""] + rest;
        assert (([""] + rest)[1..]) == rest;
      } else {
        var parts := Split(s, sep);
        assert parts == [[s[0]] + rest[0]] + rest[1..];
        if |rest| == 1 {
          assert Join(parts, [sep]) == [s[0]] + rest[0];
        } else {
          assert parts[1..] == rest[1..];
          assert Join(rest, [sep]) == rest[0] + [sep] + Join(rest[1..], [sep]);
          assert Join(parts, [sep]) == ([s[0]] + rest[0]) + [sep] + Join(rest[1..], [sep]);
        }
        assert s == [s[0]] + s[1..];
      }
    }
  }

  /** No piece of a split holds the separator. */
  lemma {:induction false} SplitPiecesFree(s: string, sep: char)
    ensures forall k :: 0 <= k < |Split(s, sep)| ==> sep !in Split(s, sep)[k]
    decreases |s|
  {
    if |s| > 0 {
      SplitPiecesFree(s[1..], sep);
    }
  }

  lemma {:induction false} SplitNoSeparator(s: string, sep: char)
    requires sep !in s
    ensures Split(s, sep) == [s]
    decreases |s|
  {
    if |s| > 0 {
      assert s[0] != sep;
      SplitNoSeparator(s[1..], sep);
      assert s == [s[0]] + s[1..];
    }
  }

  /** The pieces a split produces after reading one more character c in front. */
  function ConsPiece(c: char, sep: char, p: seq<string>): seq<string>
    requires |p| >= 1
  {
    if c == sep then [""] + p else [[c] + p[0]] + p[1..]
  }

  /** One step of the split, at the text's first character. */
  lemma SplitCons(c: char, s: string, sep: char)
    ensures Split([c] + s, sep) == ConsPiece(c, sep, Split(s, sep))
  {
    assert ([c] + s)[0] == c;
    assert ([c] + s)[1..] == s;
  }

  /** Reading a character in front only touches the first piece. */
  lemma ConsPieceAppend(c: char, sep: char, p: seq<string>, q: seq<string>)
    requires |p| >= 1
    ensures ConsPiece(c, sep, p + q) == ConsPiece(c, sep, p) + q
  {
    if c != sep {
      assert (p + q)[0] == p[0];
      assert (p + q)[1..] == p[1..] + q;
    }
  }

  /** Splitting at a separator splits the two halves independently. */
  lemma {:induction false} SplitAround(x: string, sep: char, y: string)
    ensures Split(x + [sep] + y, sep) == Split(x, sep) + Split(y, sep)
    decreases |x|
  {
    if |x| == 0 {
      assert x + [sep] + y == [sep] + y;
      SplitCons(sep, y, sep);
    } else {
      var t := x[1..] + [sep] + y;
      assert x + [sep] + y == [x[0]] + t;
      assert x == [x[0]] + x[1..];
      SplitAround(x[1..], sep, y);
      SplitCons(x[0], t, sep);
      SplitCons(x[0], x[1..], sep);
      ConsPieceAppend(x[0], sep, Split(x[1..], sep), Split(y, sep));
    }
  }

  /** The last piece of s.split(sep), as `s.split(sep)[-1]`. */
  function LastSegment(s: string, sep: char): string
  {
    var parts := Split(s, sep);
    parts[|parts| - 1]
  }

  lemma LastSegmentOf(x: string, sep: char, y: string)
    requires sep !in y
    ensures LastSegment(x + [sep] + y, sep) == y
  {
    SplitAround(x, sep, y);
    SplitNoSeparator(y, sep);
  }

  // ---------------------------------------------------------------------------
  // strip and upper

  /** Python's str.isspace for one character (the Unicode white space Python strips). */
  predicate IsSpace(c: char) {
    var n := c as int;
    (9 <= n <= 13) || (28 <= n <= 32) || n == 133 || n == 160 || n == 5760
    || (8192 <= n <= 8202) || n == 8232 || n == 8233 || n == 8239 || n == 8287 || n == 12288
  }

  function LStrip(s: string): (r: string)
    ensures |r| <= |s|
    ensures |r| == 0 || !IsSpace(r[0])
    ensures r == s[|s| - |r|..]
    decreases |s|
  {
    if |s| > 0 && IsSpace(s[0]) then LStrip(s[1..]) else s
  }

  function RStrip(s: string): (r: string)
    ensures |r| <= |s|
    ensures |r| == 0 || !IsSpace(r[|r| - 1])
    ensures r == s[..|r|]
    decreases |s|
  {
    if |s| > 0 && IsSpace(s[|s| - 1]) then RStrip(s[..|s| - 1]) else s
  }

  /** Python's str.strip() with no argument. */
  function Strip(s: string): (r: string)
  {
    RStrip(LStrip(s))
  }

  lemma StripEnds(s: string)
    ensures |Strip(s)| == 0 || (!IsSpace(Strip(s)[0]) && !IsSpace(Strip(s)[|Strip(s)| - 1]))
  {
    var l := LStrip(s);
    var r := RStrip(l);
    if |r| > 0 {
      assert r[0] == l[0];
    }
  }

  function UpperChar(c: char): char {
    if 'a' <= c <= 'z' then (c as int - 32) as char else c
  }

  /** str.upper() on ASCII letters. */
  function Upper(s: string): string {
    seq(|s|, i requires 0 <= i < |s| => UpperChar(s[i]))
  }

  function LowerChar(c: char): char {
    if 'A' <= c <= 'Z' then (c as int + 32) as char else c
  }

  /** str.lower() on ASCII letters. */
  function Lower(s: string): (r: string)
    ensures |r| == |s|
  {
    seq(|s|, i requires 0 <= i < |s| => LowerChar(s[i]))
  }

  /** Lower-casing leaves the digits and '-' of a number as they are. */
  lemma LowerNumber(a: string, i: int)
    ensures Lower(a + IntToString(i)) == Lower(a) + IntToString(i)
  {
    IntToStringChars(i);
    var b := IntToString(i);
    assert forall k :: 0 <= k < |b| ==> LowerChar(b[k]) == b[k];
  }

  // ---------------------------------------------------------------------------
  // code-point order and sorted()

  /** Python's `a < b` on str: code-point lexicographic order. */
  predicate Less(a: string, b: string)
    decreases |a|
  {
    if |a| == 0 then |b| > 0
    else if |b| == 0 then false
    else if a[0] != b[0] then a[0] < b[0]
    else Less(a[1..], b[1..])
  }

  lemma {:induction false} LessIrreflexive(a: string)
    ensures !Less(a, a)
    decreases |a|
  {
    if |a| > 0 { LessIrreflexive(a[1..]); }
  }

  lemma {:induction false} LessTransitive(a: string, b: string, c: string)
    requires Less(a, b) && Less(b, c)
    ensures Less(a, c)
    decreases |a|
  {
    if |a| > 0 && |b| > 0 && |c| > 0 && a[0] == b[0] && b[0] == c[0] {
      LessTransitive(a[1..], b[1..], c[1..]);
    }
  }

  lemma {:induction false} LessTotal(a: string, b: string)
    requires a != b
    ensures Less(a, b) || Less(b, a)
    decreases |a|
  {
    if |a| > 0 && |b| > 0 && a[0] == b[0] {
      assert a == [a[0]] + a[1..] && b == [b[0]] + b[1..];
      LessTotal(a[1..], b[1..]);
    }
  }

  lemma LessAsymmetric(a: string, b: string)
    requires Less(a, b)
    ensures !Less(b, a)
  {
    if Less(b, a) {
      LessTransitive(a, b, a);
      LessIrreflexive(a);
    }
  }

  /** `a <= b` on str is transitive. */
  lemma AtMostTransitive(a: string, b: string, c: string)
    requires !Less(b, a) && !Less(c, b)
    ensures !Less(c, a)
  {
    if Less(c, a) {
      if a == b {
      } else {
        LessTotal(a, b);
        if Less(c, b) {
        } else {
          LessTransitive(a, b, c);
          LessAsymmetric(a, c);
        }
      }
    }
  }

  /** `a < b <= c` gives `a < c`. */
  lemma LessAtMost(a: string, b: string, c: string)
    requires Less(a, b) && !Less(c, b)
    ensures Less(a, c)
  {
    if b != c {
      LessTotal(b, c);
      LessTransitive(a, b, c);
    }
  }

  /** Non-decreasing by key, as sorted(s, key=key) leaves it. */
  predicate SortedBy<T>(s: seq<T>, key: T -> string) {
    forall i, j :: 0 <= i < j < |s| ==> !Less(key(s[j]), key(s[i]))
  }

  /** Dropping the head keeps a list sorted. */
  lemma TailSorted<T>(s: seq<T>, key: T -> string)
    requires |s| > 0 && SortedBy(s, key)
    ensures SortedBy(s[1..], key)
  {
    forall i, j | 0 <= i < j < |s[1..]| ensures !Less(key(s[1..][j]), key(s[1..][i])) {
      assert s[1..][j] == s[j + 1] && s[1..][i] == s[i + 1];
    }
  }

  /** A head whose key is at most every other key keeps a sorted list sorted. */
  lemma ConsSorted<T>(x: T, s: seq<T>, key: T -> string)
    requires SortedBy(s, key)
    requires forall j :: 0 <= j < |s| ==> !Less(key(s[j]), key(x))
    ensures SortedBy([x] + s, key)
  {
    var r := [x] + s;
    forall i, j | 0 <= i < j < |r| ensures !Less(key(r[j]), key(r[i])) {
      assert r[j] == s[j - 1];
      if i > 0 { assert r[i] == s[i - 1]; }
    }
  }

  /** x placed in front of a sorted list whose head key is not smaller. */
  lemma InsertFrontSorted<T>(x: T, s: seq<T>, key: T -> string)
    requires SortedBy(s, key)
    requires |s| == 0 || !Less(key(s[0]), key(x))
    ensures SortedBy([x] + s, key)
  {
    forall j | 0 <= j < |s| ensures !Less(key(s[j]), key(x)) {
      if j > 0 { AtMostTransitive(key(x), key(s[0]), key(s[j])); }
    }
    ConsSorted(x, s, key);
  }

  /** The head of a sorted list stays in front of x inserted after it. */
  lemma InsertAfterSorted<T>(x: T, s: seq<T>, rest: seq<T>, key: T -> string)
    requires |s| > 0 && SortedBy(s, key) && Less(key(s[0]), key(x))
    requires multiset(rest) == multiset(s[1..]) + multiset{x}
    requires SortedBy(rest, key)
    ensures SortedBy([s[0]] + rest, key)
  {
    forall j | 0 <= j < |rest| ensures !Less(key(rest[j]), key(s[0])) {
      assert rest[j] in multiset(rest);
      if rest[j] == x {
        LessAsymmetric(key(s[0]), key(x));
      } else {
        assert rest[j] in multiset(s[1..]);
        var k :| 0 <= k < |s[1..]| && s[1..][k] == rest[j];
        assert s[k + 1] == rest[j];
      }
    }
    ConsSorted(s[0], rest, key);
  }

  /** Puts x before the first element whose key is not smaller, so ties keep their order. */
  function InsertBy<T>(x: T, s: seq<T>, key: T -> string): (r: seq<T>)
    ensures multiset(r) == multiset(s) + multiset{x}
    ensures SortedBy(s, key) ==> SortedBy(r, key)
    decreases |s|
  {
    if |s| == 0 || !Less(key(s[0]), key(x)) then
      assert SortedBy(s, key) ==> SortedBy([x] + s, key) by {
        if SortedBy(s, key) { InsertFrontSorted(x, s, key); }
      }
      [x] + s
    else
      var rest := InsertBy(x, s[1..], key);
      assert s == [s[0]] + s[1..];
      assert SortedBy(s, key) ==> SortedBy([s[0]] + rest, key) by {
        if SortedBy(s, key) {
          TailSorted(s, key);
          InsertAfterSorted(x, s, rest, key);
        }
      }
      [s[0]] + rest
  }

  /** Python's sorted(s, key=key): stable insertion sort. */
  function SortBy<T>(s: seq<T>, key: T -> string): (r: seq<T>)
    ensures multiset(r) == multiset(s)
    ensures SortedBy(r, key)
    decreases |s|
  {
    if |s| == 0 then []
    else
      assert s == [s[0]] + s[1..];
      InsertBy(s[0], SortBy(s[1..], key), key)
  }

  function Identity(s: string): string { s }

  /** sorted() keeps the length. */
  lemma SortLength<T>(s: seq<T>, key: T -> string)
    ensures |SortBy(s, key)| == |s|
  {
    assert |SortBy(s, key)| == |multiset(SortBy(s, key))| == |multiset(s)| == |s|;
  }

  /** Python's sorted() on a list of strings. */
  function Sort(s: seq<string>): seq<string> {
    SortBy(s, Identity)
  }

  /** A list already in order is what sorted() returns for it. */
  lemma {:induction false} SortOfSorted<T>(s: seq<T>, key: T -> string)
    requires SortedBy(s, key)
    ensures SortBy(s, key) == s
    decreases |s|
  {
    if |s| > 0 {
      var t := s[1..];
      assert SortedBy(t, key) by {
        forall i, j | 0 <= i < j < |t| ensures !Less(key(t[j]), key(t[i])) {
          assert t[j] == s[j + 1] && t[i] == s[i + 1];
        }
      }
      SortOfSorted(t, key);
      if |t| > 0 {
        assert !Less(key(t[0]), key(s[0])) by { assert t[0] == s[1]; }
      }
      assert s == [s[0]] + t;
    }
  }

  /** `s == sorted(s)` holds exactly when s is already in order. */
  lemma SortedIffFixed<T>(s: seq<T>, key: T -> string)
    ensures SortBy(s, key) == s <==> SortedBy(s, key)
  {
    if SortedBy(s, key) { SortOfSorted(s, key); }
  }

  predicate StrictlySorted(s: seq<string>) {
    forall i, j :: 0 <= i < j < |s| ==> Less(s[i], s[j])
  }

  /** Drops an element equal to its successor. */
  function Dedup(s: seq<string>): (r: seq<string>)
    ensures forall x :: x in r <==> x in s
    ensures SortedBy(s, Identity) ==> StrictlySorted(r)
    decreases |s|
  {
    if |s| <= 1 then s
    else
      var rest := Dedup(s[1..]);
      assert s == [s[0]] + s[1..];
      assert SortedBy(s, Identity) ==> SortedBy(s[1..], Identity) by {
        if SortedBy(s, Identity) {
          forall i, j | 0 <= i < j < |s[1..]|
            ensures !Less(Identity(s[1..][j]), Identity(s[1..][i]))
          {
            assert s[1..][j] == s[j + 1] && s[1..][i] == s[i + 1];
          }
        }
      }
      if s[0] == s[1] then rest
      else
        var r := [s[0]] + rest;
        assert SortedBy(s, Identity) ==> StrictlySorted(r) by {
          if SortedBy(s, Identity) {
            assert !Less(s[1], s[0]) by { assert Identity(s[1]) == s[1]; }
            LessTotal(s[0], s[1]);
            forall j | 0 <= j < |rest| ensures Less(s[0], rest[j]) {
              assert rest[j] in s[1..];
              var k :| 0 <= k < |s[1..]| && s[1..][k] == rest[j];
              if k > 0 { assert !Less(Identity(s[k + 1]), Identity(s[1])); }
              else { LessIrreflexive(s[1]); }
              LessAtMost(s[0], s[1], rest[j]);
            }
            forall i, j | 0 <= i < j < |r| ensures Less(r[i], r[j]) {
              if i > 0 { assert r[i] == rest[i - 1] && r[j] == rest[j - 1]; }
              else { assert r[j] == rest[j - 1]; }
            }
          }
        }
        r
  }

  /** Python's sorted(set(xs)) on strings: strictly increasing, the same elements. */
  function SortedSet(xs: seq<string>): (r: seq<string>)
    ensures StrictlySorted(r)
    ensures forall x :: x in r <==> x in xs
  {
    var sorted := Sort(xs);
    assert forall x :: x in sorted <==> x in xs by {
      forall x ensures x in sorted <==> x in xs {
        assert x in sorted <==> x in multiset(sorted);
        assert x in xs <==> x in multiset(xs);
      }
    }
    Dedup(sorted)
  }
}
