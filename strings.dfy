/** The pieces of Python's `str` and `list` that the messenger relies on:
    the ordering `list.sort()` uses on strings, the sort itself, and `str.strip()`. */
module Strings {

  // ---------- Python's ordering of str values ----------

  /** `a < b` on Python strings: lexicographic by code point, a proper prefix first. */
  predicate Less(a: string, b: string)
  {
    if a == [] then b != []
    else if b == [] then false
    else a[0] < b[0] || (a[0] == b[0] && Less(a[1..], b[1..]))
  }

  predicate LessEq(a: string, b: string)
  {
    a == b || Less(a, b)
  }

  lemma {:induction false} LessIrreflexive(a: string)
    ensures !Less(a, a)
  {
    if a != [] {
      LessIrreflexive(a[1..]);
    }
  }

  lemma {:induction false} LessTransitive(a: string, b: string, c: string)
    requires Less(a, b) && Less(b, c)
    ensures Less(a, c)
  {
    if a != [] && a[0] == b[0] && b[0] == c[0] {
      LessTransitive(a[1..], b[1..], c[1..]);
    }
  }

  lemma {:induction false} LessTotal(a: string, b: string)
    requires a != b
    ensures Less(a, b) || Less(b, a)
  {
    if a != [] && b != [] && a[0] == b[0] {
      assert a == [a[0]] + a[1..] && b == [b[0]] + b[1..];
      LessTotal(a[1..], b[1..]);
    }
  }

  lemma LessAsymmetric(a: string, b: string)
    requires Less(a, b)
    ensures !Less(b, a)
  {
    if Less(b, a) {
      LessTransitive(a, b, a);
      LessIrreflexive(a);
    }
  }

  lemma LessEqTransitive(a: string, b: string, c: string)
    requires LessEq(a, b) && LessEq(b, c)
    ensures LessEq(a, c)
  {
    if a != b && b != c {
      LessTransitive(a, b, c);
    }
  }

  // ---------- list.sort() on a list of str ----------

  /** Non-decreasing: what `list.sort()` leaves behind. */
  predicate Ascending(s: seq<string>)
  {
    forall i, j :: 0 <= i < j < |s| ==> LessEq(s[i], s[j])
  }

  predicate StrictlyAscending(s: seq<string>)
  {
    forall i, j :: 0 <= i < j < |s| ==> Less(s[i], s[j])
  }

  /** No value occurs twice. */
  ghost predicate Distinctive(s: seq<string>)
  {
    forall x :: multiset(s)[x] <= 1
  }

  /** Places `x` into the sorted list `s`, before the first element it does not exceed. */
  function Insert(x: string, s: seq<string>): (r: seq<string>)
    requires Ascending(s)
    ensures Ascending(r)
    ensures multiset(r) == multiset(s) + multiset{x}
  {
    if s == [] then [x]
    else if LessEq(x, s[0]) then
      assert forall j :: 0 < j < |s| ==> LessEq(x, s[j]) by {
        forall j | 0 < j < |s| ensures LessEq(x, s[j]) {
          LessEqTransitive(x, s[0], s[j]);
        }
      }
      [x] + s
    else
      var rest := Insert(x, s[1..]);
      assert s == [s[0]] + s[1..];
      assert Less(s[0], x) by { LessTotal(x, s[0]); }
      assert forall y :: y in rest ==> LessEq(s[0], y) by {
        forall y | y in rest ensures LessEq(s[0], y) {
          assert y in multiset(rest);
          if y != x {
            assert y in multiset(s[1..]);
            var j :| 0 <= j < |s[1..]| && s[1..][j] == y;
            assert s[j + 1] == y;
          }
        }
      }
      [s[0]] + rest
  }

  /** `list.sort()`: the same elements, rearranged into non-decreasing order. */
  function Sort(s: seq<string>): (r: seq<string>)
    ensures Ascending(r)
    ensures multiset(r) == multiset(s)
  {
    if s == [] then []
    else
      assert s == [s[0]] + s[1..];
      Insert(s[0], Sort(s[1..]))
  }

  /** A sorted list in which no value repeats is strictly increasing. */
  lemma AscendingDistinctiveIsStrict(s: seq<string>)
    requires Ascending(s) && Distinctive(s)
    ensures StrictlyAscending(s)
  {
    forall i, j | 0 <= i < j < |s| ensures Less(s[i], s[j]) {
      if s[i] == s[j] {
        RepeatedCounts(s, i, j);
        assert false;
      }
    }
  }

  lemma RepeatedCounts(s: seq<string>, i: nat, j: nat)
    requires i < j < |s| && s[i] == s[j]
    ensures multiset(s)[s[j]] >= 2
  {
    assert s == s[..j] + [s[j]] + s[j + 1..];
    assert s[..j][i] == s[i];
  }

  /** Two strictly increasing lists holding the same names are the same list:
      a sorted, distinct list is determined by its set of elements. */
  lemma {:induction false} StrictlyAscendingUnique(s: seq<string>, t: seq<string>)
    requires StrictlyAscending(s) && StrictlyAscending(t)
    requires forall x :: x in s <==> x in t
    ensures s == t
  {
    if s == [] {
      assert forall i :: 0 <= i < |t| ==> t[i] !in s;
    } else {
      assert s[0] in t;
      assert t[0] in s;
      var k :| 0 <= k < |t| && t[k] == s[0];
      var j :| 0 <= j < |s| && s[j] == t[0];
      if k > 0 {
        if j == 0 {
          LessIrreflexive(t[0]);
        } else {
          LessAsymmetric(t[0], t[k]);
        }
        assert false;
      }
      forall x ensures x in s[1..] <==> x in t[1..] {
        if x in s[1..] {
          var i' :| 0 <= i' < |s[1..]| && s[1..][i'] == x;
          var i := i' + 1;
          assert s[i] == x;
          LessIrreflexive(x);
          assert x != t[0] && x in t;
          assert t == [t[0]] + t[1..];
          assert x in t[1..];
        }
        if x in t[1..] {
          var i' :| 0 <= i' < |t[1..]| && t[1..][i'] == x;
          var i := i' + 1;
          assert t[i] == x;
          LessIrreflexive(x);
          assert x != s[0] && x in s;
          assert s == [s[0]] + s[1..];
          assert x in s[1..];
        }
      }
      StrictlyAscendingUnique(s[1..], t[1..]);
      assert s == [s[0]] + s[1..] && t == [t[0]] + t[1..];
    }
  }

  // ---------- str.strip() ----------

  /** The characters for which Python's `str.isspace()` holds, which are the ones
      `str.strip()` with no argument removes. */
  predicate IsSpace(ch: char)
  {
    ('\t' <= ch <= '\r')                     // tab, line feed, vertical tab, form feed, carriage return
    || ('\U{1C}' <= ch <= '\U{1F}')          // file, group, record and unit separators
    || ch == ' '
    || ch == '\U{85}' || ch == '\U{A0}' || ch == '\U{1680}'
    || ('\U{2000}' <= ch <= '\U{200A}')
    || ch == '\U{2028}' || ch == '\U{2029}' || ch == '\U{202F}' || ch == '\U{205F}'
    || ch == '\U{3000}'
  }

  predicate AllSpace(s: string)
  {
    forall k :: 0 <= k < |s| ==> IsSpace(s[k])
  }

  /** `str.lstrip()`: drops the leading white space and keeps the rest. */
  function StripStart(s: string): (r: string)
    ensures |r| <= |s| && r == s[|s| - |r|..]
    ensures AllSpace(s[..|s| - |r|])
    ensures r != [] ==> !IsSpace(r[0])
  {
    if s != [] && IsSpace(s[0]) then
      var r := StripStart(s[1..]);
      assert s[..|s| - |r|] == [s[0]] + s[1..][..|s| - 1 - |r|];
      r
    else s
  }

  /** `str.rstrip()`: drops the trailing white space and keeps the rest. */
  function StripEnd(s: string): (r: string)
    ensures |r| <= |s| && r == s[..|r|]
    ensures AllSpace(s[|r|..])
    ensures r != [] ==> !IsSpace(r[|r| - 1])
  {
    if s != [] && IsSpace(s[|s| - 1]) then
      var r := StripEnd(s[..|s| - 1]);
      assert s[|r|..] == s[..|s| - 1][|r|..] + [s[|s| - 1]];
      r
    else s
  }

  /** `str.strip()`: empty exactly when `s` is all white space, and otherwise
      neither starting nor ending with white space. */
  function Strip(s: string): (r: string)
    ensures r == [] <==> AllSpace(s)
    ensures r != [] ==> !IsSpace(r[0]) && !IsSpace(r[|r| - 1])
  {
    var t := StripStart(s);
    var r := StripEnd(t);
    assert r == [] ==> AllSpace(s) by {
      if r == [] {
        AllSpaceConcat(s[..|s| - |t|], t);
        assert s == s[..|s| - |t|] + t;
      }
    }
    assert r != [] ==> r[0] == t[0];
    r
  }

  lemma AllSpaceConcat(a: string, b: string)
    requires AllSpace(a) && AllSpace(b)
    ensures AllSpace(a + b)
  {
    assert forall k :: |a| <= k < |a + b| ==> (a + b)[k] == b[k - |a|];
  }

  /** `Strip` is `StripEnd` after `StripStart`. */
  lemma StripUnfold(s: string)
    ensures Strip(s) == StripEnd(StripStart(s))
  {
  }

  /** What `str.strip()` keeps is one contiguous slice of `s`, starting where the
      leading white space ends. */
  lemma StripIsSlice(s: string)
    ensures var lo := |s| - |StripStart(s)|;
      lo + |Strip(s)| <= |s| && Strip(s) == s[lo..lo + |Strip(s)|]
  {
    var t := StripStart(s);
    var r := StripEnd(t);
    var lo := |s| - |t|;
    StripUnfold(s);
    assert t == s[lo..] && r == t[..|r|];
    SliceOfSuffix(s, lo, |r|);
  }

  lemma SliceOfSuffix(s: string, lo: nat, n: nat)
    requires lo + n <= |s|
    ensures s[lo..][..n] == s[lo..lo + n]
  {
  }

  /** What `str.strip()` cuts away on either side of that slice is white space only. */
  lemma StripCutsOnlySpace(s: string)
    ensures var lo := |s| - |StripStart(s)|;
      lo + |Strip(s)| <= |s| && AllSpace(s[..lo]) && AllSpace(s[lo + |Strip(s)|..])
  {
    var t := StripStart(s);
    var r := StripEnd(t);
    StripUnfold(s);
    AllSpaceOfSuffix(s, |s| - |t|, |r|);
  }

  lemma AllSpaceOfSuffix(s: string, lo: nat, n: nat)
    requires lo + n <= |s| && AllSpace(s[lo..][n..])
    ensures AllSpace(s[lo + n..])
  {
    assert s[lo..][n..] == s[lo + n..];
  }

  /** Stripping twice is stripping once. */
  lemma StripIdempotent(s: string)
    ensures Strip(Strip(s)) == Strip(s)
  {
    var r := Strip(s);
    if r != [] {
      assert StripStart(r) == r;
      assert StripEnd(r) == r;
    }
  }
}
