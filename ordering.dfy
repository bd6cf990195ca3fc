/**
 * Go's `<` on strings and the contract of `sort.Slice`, shared by the file
 * listing (folder.go) and the folder listing (user.go).
 */
module Ordering {

  /**
   * Go's `a < b` on strings: bytewise lexicographic order. UTF-8 preserves the
   * order of code points, so on Dafny's `char` (a Unicode scalar value) this is
   * lexicographic order on characters, a proper prefix coming first.
   */
  predicate Less(a: string, b: string)
    ensures |a| < |b| && a == b[..|a|] ==> Less(a, b)
    decreases |a|
  {
    assert |a| < |b| && a == b[..|a|] && |a| > 0 ==> a[1..] == b[1..][..|a| - 1];
    if |a| == 0 then |b| > 0
    else if |b| == 0 then false
    else if a[0] != b[0] then a[0] < b[0]
    else Less(a[1..], b[1..])
  }

  /** `a <= b` in Go. */
  predicate LessEq(a: string, b: string) {
    a == b || Less(a, b)
  }

  lemma {:induction false} LessIrreflexive(a: string)
    ensures !Less(a, a)
    decreases |a|
  {
    if |a| > 0 {
      LessIrreflexive(a[1..]);
    }
  }

  lemma {:induction false} LessTransitive(a: string, b: string, c: string)
    requires Less(a, b) && Less(b, c)
    ensures Less(a, c)
    decreases |a|
  {
    if |a| > 0 && a[0] == b[0] && b[0] == c[0] {
      LessTransitive(a[1..], b[1..], c[1..]);
    }
  }

  /** Two different strings are always ordered one way or the other. */
  lemma {:induction false} LessTotal(a: string, b: string)
    requires a != b
    ensures Less(a, b) || Less(b, a)
    decreases |a|
  {
    if |a| > 0 && |b| > 0 && a[0] == b[0] {
      assert a == [a[0]] + a[1..] && b == [b[0]] + b[1..];
      LessTotal(a[1..], b[1..]);
    }
  }

  lemma LessAsymmetric(a: string, b: string)
    requires Less(a, b)
    ensures !Less(b, a)
  {
    if Less(b, a) {
      LessTransitive(a, b, a);
      LessIrreflexive(a);
    }
  }

  // ---------------------------------------------------------------------
  // UTF-8
  //
  // Go compares strings byte by byte on their UTF-8 encoding. `Less` compares
  // characters; the lemmas below prove the two orders agree.
  // ---------------------------------------------------------------------

  type Byte = x: int | 0 <= x < 256

  /** The UTF-8 encoding of one Unicode scalar value: one to four bytes. */
  function Utf8(c: char): (bs: seq<Byte>)
    ensures 1 <= |bs| <= 4
  {
    var n := c as int;
    if n < 0x80 then [n]
    else if n < 0x800 then [0xC0 + n / 64, 0x80 + n % 64]
    else if n < 0x1_0000 then [0xE0 + n / 4096, 0x80 + n / 64 % 64, 0x80 + n % 64]
    else [0xF0 + n / 0x4_0000, 0x80 + n / 4096 % 64, 0x80 + n / 64 % 64, 0x80 + n % 64]
  }

  /** The UTF-8 encoding of a string, as Go stores it. */
  function Encode(s: string): (bs: seq<Byte>)
    ensures |bs| == 0 <==> |s| == 0
  {
    if |s| == 0 then [] else Utf8(s[0]) + Encode(s[1..])
  }

  /** Go's `<` on the bytes of two strings: lexicographic, a proper prefix first. */
  predicate ByteLess(x: seq<Byte>, y: seq<Byte>)
    decreases |x|
  {
    if |x| == 0 then |y| > 0
    else if |y| == 0 then false
    else if x[0] != y[0] then x[0] < y[0]
    else ByteLess(x[1..], y[1..])
  }

  /** The first byte where two sequences differ decides their order. */
  lemma {:induction false} ByteLessFirstDiff(x: seq<Byte>, y: seq<Byte>, j: nat)
    requires j < |x| && j < |y| && x[..j] == y[..j] && x[j] < y[j]
    ensures ByteLess(x, y) && !ByteLess(y, x)
  {
    if j > 0 {
      assert x[0] == x[..j][0] == y[..j][0] == y[0];
      assert x[1..][..j - 1] == x[1..j] == y[1..j] == y[1..][..j - 1];
      ByteLessFirstDiff(x[1..], y[1..], j - 1);
    }
  }

  /** A common prefix does not change the order. */
  lemma {:induction false} ByteLessCommonPrefix(p: seq<Byte>, x: seq<Byte>, y: seq<Byte>)
    ensures ByteLess(p + x, p + y) == ByteLess(x, y)
  {
    if |p| == 0 {
      assert p + x == x && p + y == y;
    } else {
      assert (p + x)[0] == p[0] == (p + y)[0];
      assert (p + x)[1..] == p[1..] + x && (p + y)[1..] == p[1..] + y;
      ByteLessCommonPrefix(p[1..], x, y);
    }
  }

  /** Digits of a smaller number in base `64` are lexicographically smaller. */
  lemma Base64Digit(n: int, m: int)
    requires 0 <= n <= m
    ensures n / 64 <= m / 64
    ensures n < m && n / 64 == m / 64 ==> n % 64 < m % 64
  {
  }

  /** A larger character never has a shorter encoding. */
  lemma Utf8LengthMonotone(c: char, d: char)
    requires c <= d
    ensures |Utf8(c)| <= |Utf8(d)|
  {
  }

  /** When the encodings differ in length, the lead bytes already differ. */
  lemma Utf8LeadOrder(c: char, d: char)
    requires |Utf8(c)| < |Utf8(d)|
    ensures Utf8(c)[0] < Utf8(d)[0]
  {
  }

  /** Two-byte encodings of the same length compare as their base-64 digits. */
  lemma Utf8Order2(c: char, d: char) returns (j: nat)
    requires c < d && |Utf8(c)| == |Utf8(d)| == 2
    ensures j < 2 && Utf8(c)[..j] == Utf8(d)[..j] && Utf8(c)[j] < Utf8(d)[j]
  {
    var n, m := c as int, d as int;
    Base64Digit(n, m);
    if n / 64 < m / 64 { j := 0; } else { j := 1; }
  }

  lemma Utf8Order3(c: char, d: char) returns (j: nat)
    requires c < d && |Utf8(c)| == |Utf8(d)| == 3
    ensures j < 3 && Utf8(c)[..j] == Utf8(d)[..j] && Utf8(c)[j] < Utf8(d)[j]
  {
    var n, m := c as int, d as int;
    Base64Digit(n, m);
    Base64Digit(n / 64, m / 64);
    assert n / 64 / 64 == n / 4096 && m / 64 / 64 == m / 4096;
    if n / 4096 < m / 4096 { j := 0; }
    else if n / 64 < m / 64 { j := 1; }
    else { j := 2; }
  }

  lemma Utf8Order4(c: char, d: char) returns (j: nat)
    requires c < d && |Utf8(c)| == |Utf8(d)| == 4
    ensures j < 4 && Utf8(c)[..j] == Utf8(d)[..j] && Utf8(c)[j] < Utf8(d)[j]
  {
    var n, m := c as int, d as int;
    Base64Digit(n, m);
    Base64Digit(n / 64, m / 64);
    Base64Digit(n / 4096, m / 4096);
    assert n / 64 / 64 == n / 4096 && m / 64 / 64 == m / 4096;
    assert n / 4096 / 64 == n / 0x4_0000 && m / 4096 / 64 == m / 0x4_0000;
    if n / 0x4_0000 < m / 0x4_0000 { j := 0; }
    else if n / 4096 < m / 4096 { j := 1; }
    else if n / 64 < m / 64 { j := 2; }
    else { j := 3; }
  }

  /**
   * Of two characters, the smaller one's encoding is below at the first byte
   * where the two encodings differ, and that byte lies inside both.
   */
  lemma Utf8Order(c: char, d: char) returns (j: nat)
    requires c < d
    ensures j < |Utf8(c)| && j < |Utf8(d)|
    ensures Utf8(c)[..j] == Utf8(d)[..j] && Utf8(c)[j] < Utf8(d)[j]
  {
    Utf8LengthMonotone(c, d);
    if |Utf8(c)| < |Utf8(d)| {
      Utf8LeadOrder(c, d);
      j := 0;
    } else if |Utf8(c)| == 1 {
      j := 0;
    } else if |Utf8(c)| == 2 {
      j := Utf8Order2(c, d);
    } else if |Utf8(c)| == 3 {
      j := Utf8Order3(c, d);
    } else {
      j := Utf8Order4(c, d);
    }
  }

  /**
   * `Less` is Go's `<`: on characters it orders two strings exactly as their
   * UTF-8 encodings compare byte by byte.
   */
  lemma {:induction false} LessIsByteOrder(a: string, b: string)
    ensures Less(a, b) <==> ByteLess(Encode(a), Encode(b))
    decreases |a|
  {
    if |a| > 0 && |b| > 0 {
      var x, y := Encode(a[1..]), Encode(b[1..]);
      assert Encode(a) == Utf8(a[0]) + x && Encode(b) == Utf8(b[0]) + y;
      if a[0] == b[0] {
        ByteLessCommonPrefix(Utf8(a[0]), x, y);
        LessIsByteOrder(a[1..], b[1..]);
      } else if a[0] < b[0] {
        var j := Utf8Order(a[0], b[0]);
        assert Encode(a)[..j] == Utf8(a[0])[..j] && Encode(b)[..j] == Utf8(b[0])[..j];
        ByteLessFirstDiff(Encode(a), Encode(b), j);
      } else {
        var j := Utf8Order(b[0], a[0]);
        assert Encode(a)[..j] == Utf8(a[0])[..j] && Encode(b)[..j] == Utf8(b[0])[..j];
        ByteLessFirstDiff(Encode(b), Encode(a), j);
      }
    }
  }

  /**
   * The comparator the source hands to `sort.Slice`: `less(i, j)` is
   * `key(i) < key(j)` for "asc" and `key(i) > key(j)` for "desc".
   */
  predicate Precedes(a: string, b: string, asc: bool) {
    if asc then Less(a, b) else Less(b, a)
  }

  lemma PrecedesIrreflexive(a: string, asc: bool)
    ensures !Precedes(a, a, asc)
  {
    LessIrreflexive(a);
  }

  lemma PrecedesTransitive(a: string, b: string, c: string, asc: bool)
    requires Precedes(a, b, asc) && Precedes(b, c, asc)
    ensures Precedes(a, c, asc)
  {
    if asc { LessTransitive(a, b, c); } else { LessTransitive(c, b, a); }
  }

  /**
   * What `sort.Slice` promises on return: no element is `less` than one
   * before it. Elements with equal keys may come in any order.
   */
  ghost predicate SortedBy<T>(s: seq<T>, key: T -> string, asc: bool) {
    forall i, j :: 0 <= i < j < |s| ==> !Precedes(key(s[j]), key(s[i]), asc)
  }

  /** No two elements share a key. */
  ghost predicate DistinctKeys<T>(s: seq<T>, key: T -> string) {
    forall i, j :: 0 <= i < j < |s| ==> key(s[i]) != key(s[j])
  }

  /** Sorted "asc" means keys are non-decreasing in Go's `<=`, and conversely. */
  lemma SortedAscIsNonDecreasing<T>(s: seq<T>, key: T -> string)
    ensures SortedBy(s, key, true) <==>
            forall i, j :: 0 <= i < j < |s| ==> LessEq(key(s[i]), key(s[j]))
  {
    if SortedBy(s, key, true) {
      forall i, j | 0 <= i < j < |s| ensures LessEq(key(s[i]), key(s[j])) {
        if key(s[i]) != key(s[j]) { LessTotal(key(s[i]), key(s[j])); }
      }
    }
    if forall i, j :: 0 <= i < j < |s| ==> LessEq(key(s[i]), key(s[j])) {
      forall i, j | 0 <= i < j < |s| ensures !Less(key(s[j]), key(s[i])) {
        if key(s[i]) == key(s[j]) {
          LessIrreflexive(key(s[i]));
        } else {
          LessAsymmetric(key(s[i]), key(s[j]));
        }
      }
    }
  }

  /** Sorted "desc" means keys are non-increasing in Go's `>=`, and conversely. */
  lemma SortedDescIsNonIncreasing<T>(s: seq<T>, key: T -> string)
    ensures SortedBy(s, key, false) <==>
            forall i, j :: 0 <= i < j < |s| ==> LessEq(key(s[j]), key(s[i]))
  {
    if SortedBy(s, key, false) {
      forall i, j | 0 <= i < j < |s| ensures LessEq(key(s[j]), key(s[i])) {
        if key(s[i]) != key(s[j]) { LessTotal(key(s[i]), key(s[j])); }
      }
    }
    if forall i, j :: 0 <= i < j < |s| ==> LessEq(key(s[j]), key(s[i])) {
      forall i, j | 0 <= i < j < |s| ensures !Less(key(s[i]), key(s[j])) {
        if key(s[i]) == key(s[j]) {
          LessIrreflexive(key(s[i]));
        } else {
          LessAsymmetric(key(s[j]), key(s[i]));
        }
      }
    }
  }

  /** Placing `x` after every element it does not precede keeps `r` sorted. */
  lemma InsertKeepsSorted<T>(r: seq<T>, j: nat, x: T, key: T -> string, asc: bool)
    requires SortedBy(r, key, asc)
    requires j <= |r|
    requires forall k :: 0 <= k < j ==> !Precedes(key(x), key(r[k]), asc)
    requires j < |r| ==> Precedes(key(x), key(r[j]), asc)
    ensures SortedBy(r[..j] + [x] + r[j..], key, asc)
  {
    var r' := r[..j] + [x] + r[j..];
    forall p, q | 0 <= p < q < |r'| ensures !Precedes(key(r'[q]), key(r'[p]), asc) {
      if q <= j {
        assert r'[q] == if q == j then x else r[q];
        assert r'[p] == r[p];
      } else if p == j {
        assert r'[p] == x && r'[q] == r[q - 1];
        if Precedes(key(r[q - 1]), key(x), asc) {
          PrecedesTransitive(key(r[q - 1]), key(x), key(r[j]), asc);
          if q - 1 == j {
            PrecedesIrreflexive(key(r[j]), asc);
          }
          assert false;
        }
      } else {
        assert r'[p] == (if p < j then r[p] else r[p - 1]) && r'[q] == r[q - 1];
      }
    }
  }

  /** Inserts `x` into sorted `r` after every element it does not precede. */
  method Insert<T(==)>(r: seq<T>, x: T, key: T -> string, asc: bool) returns (r': seq<T>)
    requires SortedBy(r, key, asc)
    ensures multiset(r') == multiset(r) + multiset{x}
    ensures SortedBy(r', key, asc)
  {
    var j := 0;
    while j < |r| && !Precedes(key(x), key(r[j]), asc)
      invariant 0 <= j <= |r|
      invariant forall k :: 0 <= k < j ==> !Precedes(key(x), key(r[k]), asc)
    {
      j := j + 1;
    }
    InsertKeepsSorted(r, j, x, key, asc);
    r' := r[..j] + [x] + r[j..];
    assert r == r[..j] + r[j..];
  }

  /**
   * `sort.Slice(s, less)` on a copy: returns a permutation of `s` that is
   * sorted by `key` in the given direction. The tie order is not specified
   * (Go's sort is not stable); this body happens to be an insertion sort.
   */
  method SortBy<T(==)>(s: seq<T>, key: T -> string, asc: bool) returns (r: seq<T>)
    ensures multiset(r) == multiset(s)
    ensures SortedBy(r, key, asc)
  {
    r := [];
    for i := 0 to |s|
      invariant multiset(r) == multiset(s[..i])
      invariant SortedBy(r, key, asc)
    {
      assert s[..i + 1] == s[..i] + [s[i]];
      r := Insert(r, s[i], key, asc);
    }
    assert s[..|s|] == s;
  }

  /** Two equal elements at different positions occur at least twice. */
  lemma CountOfRepeated<T>(b: seq<T>, i: nat, j: nat)
    requires i < j < |b| && b[i] == b[j]
    ensures multiset(b)[b[i]] >= 2
  {
    assert b == b[..j] + b[j..];
    assert b[i] in b[..j];
    assert b[j..][0] == b[j];
    assert multiset(b) == multiset(b[..j]) + multiset(b[j..]);
  }

  /** With distinct keys, no element occurs twice. */
  lemma {:induction false} CountWithDistinctKeys<T>(a: seq<T>, key: T -> string, x: T)
    requires DistinctKeys(a, key)
    ensures multiset(a)[x] <= 1
    decreases |a|
  {
    if |a| > 0 {
      assert a == [a[0]] + a[1..];
      DistinctTail(a, key);
      CountWithDistinctKeys(a[1..], key, x);
      if a[0] == x {
        assert x !in a[1..] by {
          forall k | 0 <= k < |a[1..]| ensures a[1..][k] != x {
            assert key(a[0]) != key(a[k + 1]);
          }
        }
      }
    }
  }

  /** Reordering keeps keys distinct. */
  lemma PermutationKeepsDistinctKeys<T>(a: seq<T>, b: seq<T>, key: T -> string)
    requires multiset(a) == multiset(b)
    requires DistinctKeys(a, key)
    ensures DistinctKeys(b, key)
  {
    forall i, j | 0 <= i < j < |b| ensures key(b[i]) != key(b[j]) {
      assert b[i] in multiset(a) && b[j] in multiset(a);
      var p :| 0 <= p < |a| && a[p] == b[i];
      var q :| 0 <= q < |a| && a[q] == b[j];
      if p == q {
        CountOfRepeated(b, i, j);
        CountWithDistinctKeys(a, key, b[i]);
        assert false;
      } else if p < q {
        assert key(a[p]) != key(a[q]);
      } else {
        assert key(a[q]) != key(a[p]);
      }
    }
  }

  lemma SortedTail<T>(a: seq<T>, key: T -> string, asc: bool)
    requires |a| > 0 && SortedBy(a, key, asc)
    ensures SortedBy(a[1..], key, asc)
  {
    forall i, j | 0 <= i < j < |a[1..]| ensures !Precedes(key(a[1..][j]), key(a[1..][i]), asc) {
      assert a[1..][i] == a[i + 1] && a[1..][j] == a[j + 1];
    }
  }

  lemma DistinctTail<T>(a: seq<T>, key: T -> string)
    requires |a| > 0 && DistinctKeys(a, key)
    ensures DistinctKeys(a[1..], key)
  {
    forall i, j | 0 <= i < j < |a[1..]| ensures key(a[1..][i]) != key(a[1..][j]) {
      assert a[1..][i] == a[i + 1] && a[1..][j] == a[j + 1];
    }
  }

  /** Two sorted permutations with distinct keys start with the same element. */
  lemma HeadsAgree<T>(a: seq<T>, b: seq<T>, key: T -> string, asc: bool)
    requires |a| > 0 && multiset(a) == multiset(b)
    requires SortedBy(a, key, asc) && SortedBy(b, key, asc)
    requires DistinctKeys(a, key)
    ensures |b| > 0 && a[0] == b[0]
  {
    assert a[0] in multiset(b);
    var k :| 0 <= k < |b| && b[k] == a[0];
    if a[0] != b[0] {
      assert b[0] in multiset(a);
      var m :| 0 <= m < |a| && a[m] == b[0];
      assert key(a[0]) != key(a[m]);
      assert !Precedes(key(a[m]), key(a[0]), asc);
      assert !Precedes(key(b[k]), key(b[0]), asc);
      LessTotal(key(a[0]), key(a[m]));
    }
  }

  /**
   * With distinct keys a listing is determined: two sorted permutations of
   * the same elements are equal, whatever order the sort started from.
   */
  lemma {:induction false} SortedPermutationUnique<T>(a: seq<T>, b: seq<T>, key: T -> string, asc: bool)
    requires multiset(a) == multiset(b)
    requires SortedBy(a, key, asc) && SortedBy(b, key, asc)
    requires DistinctKeys(a, key)
    ensures a == b
    decreases |a|
  {
    assert |a| == |multiset(a)| == |multiset(b)| == |b|;
    if |a| > 0 {
      HeadsAgree(a, b, key, asc);
      assert multiset(a[1..]) == multiset(b[1..]) by {
        assert a == [a[0]] + a[1..] && b == [b[0]] + b[1..];
        assert multiset(a) == multiset([a[0]]) + multiset(a[1..]);
        assert multiset(b) == multiset([b[0]]) + multiset(b[1..]);
        forall x ensures multiset(a[1..])[x] == multiset(b[1..])[x] {
          assert multiset(a)[x] == multiset([a[0]])[x] + multiset(a[1..])[x];
          assert multiset(b)[x] == multiset([b[0]])[x] + multiset(b[1..])[x];
        }
      }
      SortedTail(a, key, asc);
      SortedTail(b, key, asc);
      DistinctTail(a, key);
      SortedPermutationUnique(a[1..], b[1..], key, asc);
      assert a == [a[0]] + a[1..] && b == [b[0]] + b[1..];
    }
  }

  function Reverse<T>(s: seq<T>): (r: seq<T>)
    ensures |r| == |s|
    ensures forall i :: 0 <= i < |s| ==> r[i] == s[|s| - 1 - i]
  {
    if s == [] then [] else Reverse(s[1..]) + [s[0]]
  }

  lemma {:induction false} ReverseIsPermutation<T>(s: seq<T>)
    ensures multiset(Reverse(s)) == multiset(s)
  {
    if s != [] {
      assert s == [s[0]] + s[1..];
      ReverseIsPermutation(s[1..]);
    }
  }

  /**
   * With distinct keys, the "desc" listing is the "asc" listing reversed, for
   * any two runs of the sort over the same elements.
   */
  lemma DescIsReverseOfAsc<T>(s: seq<T>, up: seq<T>, down: seq<T>, key: T -> string)
    requires DistinctKeys(s, key)
    requires multiset(up) == multiset(s) && SortedBy(up, key, true)
    requires multiset(down) == multiset(s) && SortedBy(down, key, false)
    ensures down == Reverse(up)
  {
    PermutationKeepsDistinctKeys(s, down, key);
    ReverseIsPermutation(up);
    var rev := Reverse(up);
    assert SortedBy(rev, key, false) by {
      forall i, j | 0 <= i < j < |rev| ensures !Less(key(rev[i]), key(rev[j])) {
        assert rev[i] == up[|up| - 1 - i] && rev[j] == up[|up| - 1 - j];
      }
    }
    SortedPermutationUnique(down, rev, key, false);
  }
}
