/** The string operations the scraper applies to element texts:
    `str.replace` of a character or of a word by nothing, `re.sub(r'[^0-9]', '', ...)`,
    `str.replace('.', '', 1)` and `", ".join(...)`, each with its
    characterising properties. */
module Strings {
  import opened Numbers

  /** `s.replace(c, "")` for a single character `c`. */
  function RemoveChar(s: string, c: char): (r: string)
    ensures |r| <= |s|
  {
    if s == [] then []
    else (if s[0] == c then [] else [s[0]]) + RemoveChar(s[1..], c)
  }

  /** `re.sub(r'[^0-9]', '', s)`: the digits of `s`, in order. */
  function KeepDigits(s: string): (r: string)
    ensures |r| <= |s|
  {
    if s == [] then []
    else (if IsDigit(s[0]) then [s[0]] else []) + KeepDigits(s[1..])
  }

  /** `pat` occurs in `s` starting at index `i`. */
  predicate OccursAt(s: string, pat: string, i: nat) {
    i + |pat| <= |s| && s[i..i + |pat|] == pat
  }

  predicate Occurs(s: string, pat: string) {
    exists i :: 0 <= i <= |s| && OccursAt(s, pat, i)
  }

  /** `s.replace(pat, "")` for a non-empty `pat`: occurrences are found
      from left to right and do not overlap. */
  function RemoveAll(s: string, pat: string): (r: string)
    requires |pat| > 0
    ensures |r| <= |s|
    decreases |s|
  {
    if |s| < |pat| then s
    else if s[..|pat|] == pat then RemoveAll(s[|pat|..], pat)
    else [s[0]] + RemoveAll(s[1..], pat)
  }

  /** The index of the first `c` in `s`, or `|s|` when there is none. */
  function FirstIndex(s: string, c: char): (k: nat)
    ensures k <= |s|
    ensures k < |s| ==> s[k] == c
    ensures forall i :: 0 <= i < k ==> s[i] != c
  {
    if s == [] then 0 else if s[0] == c then 0 else 1 + FirstIndex(s[1..], c)
  }

  /** `s.replace(c, "", 1)`: the first occurrence of `c` removed. */
  function RemoveFirst(s: string, c: char): (r: string)
    ensures c in s ==> |r| == |s| - 1
    ensures c !in s ==> r == s
  {
    if s == [] then []
    else if s[0] == c then s[1..]
    else [s[0]] + RemoveFirst(s[1..], c)
  }

  /** The number of occurrences of `c` in `s`. */
  function Count(s: string, c: char): (n: nat)
    ensures n <= |s|
    ensures n == 0 <==> c !in s
  {
    if s == [] then 0 else (if s[0] == c then 1 else 0) + Count(s[1..], c)
  }

  /** `sep.join(parts)`. */
  function Join(parts: seq<string>, sep: string): string
  {
    if parts == [] then []
    else if |parts| == 1 then parts[0]
    else parts[0] + sep + Join(parts[1..], sep)
  }

  /** `s.split(sep)` for a non-empty `sep`: the pieces between the
      left-to-right, non-overlapping occurrences of `sep`. */
  function Split(s: string, sep: string): (r: seq<string>)
    requires |sep| > 0
    ensures |r| > 0
    decreases |s|
  {
    if |s| < |sep| then [s]
    else if s[..|sep|] == sep then [[]] + Split(s[|sep|..], sep)
    else
      var rest := Split(s[1..], sep);
      [[s[0]] + rest[0]] + rest[1..]
  }

  // ---------------------------------------------------------------------
  // Cleaning distributes over concatenation

  lemma {:induction false} RemoveCharAppend(a: string, b: string, c: char)
    ensures RemoveChar(a + b, c) == RemoveChar(a, c) + RemoveChar(b, c)
  {
    if a == [] {
      assert a + b == b;
    } else {
      var t := a[1..];
      assert (a + b)[0] == a[0] && (a + b)[1..] == t + b;
      RemoveCharAppend(a[1..], b, c);
      if a[0] != c {
        calc {
          RemoveChar(a + b, c);
          [a[0]] + RemoveChar(t + b, c);
          [a[0]] + (RemoveChar(t, c) + RemoveChar(b, c));
          ([a[0]] + RemoveChar(t, c)) + RemoveChar(b, c);
          RemoveChar(a, c) + RemoveChar(b, c);
        }
      } else {
        calc {
          RemoveChar(a + b, c);
          RemoveChar(t + b, c);
          RemoveChar(t, c) + RemoveChar(b, c);
          RemoveChar(a, c) + RemoveChar(b, c);
        }
      }
    }
  }

  /** No `c` is left, and every other character of `s` still occurs. */
  lemma {:induction false} RemoveCharRemoves(s: string, c: char)
    ensures c !in RemoveChar(s, c)
    ensures forall x :: x != c ==> (x in RemoveChar(s, c) <==> x in s)
  {
    if s != [] {
      RemoveCharRemoves(s[1..], c);
      assert s == [s[0]] + s[1..];
    }
  }

  /** Only digits are kept, and every digit of `s` still occurs. */
  lemma {:induction false} KeepDigitsKeepsDigits(s: string)
    ensures AllDigits(KeepDigits(s))
    ensures forall x :: IsDigit(x) ==> (x in KeepDigits(s) <==> x in s)
  {
    if s != [] {
      KeepDigitsKeepsDigits(s[1..]);
      assert s == [s[0]] + s[1..];
      var r := KeepDigits(s);
      var head := if IsDigit(s[0]) then [s[0]] else [];
      assert r == head + KeepDigits(s[1..]);
      forall i | 0 <= i < |r| ensures IsDigit(r[i]) {
        if i >= |head| { assert r[i] == KeepDigits(s[1..])[i - |head|]; }
      }
    }
  }

  /** Text without the character is left as it is. */
  lemma {:induction false} RemoveCharAbsent(s: string, c: char)
    requires c !in s
    ensures RemoveChar(s, c) == s
  {
    if s != [] {
      assert s == [s[0]] + s[1..];
      RemoveCharAbsent(s[1..], c);
    }
  }

  /** Text made of digits only is left as it is. */
  lemma {:induction false} KeepDigitsOfDigits(s: string)
    requires AllDigits(s)
    ensures KeepDigits(s) == s
  {
    if s != [] {
      assert AllDigits(s[1..]);
      KeepDigitsOfDigits(s[1..]);
    }
  }

  /** A digit string survives both cleanings of the numeric fields. */
  lemma DigitsAreClean(s: string)
    requires AllDigits(s)
    ensures RemoveChar(s, ',') == s && KeepDigits(s) == s
  {
    assert ',' !in s by {
      forall i | 0 <= i < |s| ensures s[i] != ',' { assert IsDigit(s[i]); }
    }
    RemoveCharAbsent(s, ',');
    KeepDigitsOfDigits(s);
  }

  lemma {:induction false} KeepDigitsAppend(a: string, b: string)
    ensures KeepDigits(a + b) == KeepDigits(a) + KeepDigits(b)
  {
    if a == [] {
      assert a + b == b;
    } else {
      var t := a[1..];
      assert (a + b)[0] == a[0] && (a + b)[1..] == t + b;
      KeepDigitsAppend(a[1..], b);
      if IsDigit(a[0]) {
        calc {
          KeepDigits(a + b);
          [a[0]] + KeepDigits(t + b);
          [a[0]] + (KeepDigits(t) + KeepDigits(b));
          ([a[0]] + KeepDigits(t)) + KeepDigits(b);
          KeepDigits(a) + KeepDigits(b);
        }
      } else {
        calc {
          KeepDigits(a + b);
          KeepDigits(t + b);
          KeepDigits(t) + KeepDigits(b);
          KeepDigits(a) + KeepDigits(b);
        }
      }
    }
  }

  /** Only text without any digit cleans to the empty string. */
  lemma {:induction false} KeepDigitsEmpty(s: string)
    ensures KeepDigits(s) == [] <==> forall i :: 0 <= i < |s| ==> !IsDigit(s[i])
  {
    if s != [] {
      KeepDigitsEmpty(s[1..]);
      assert forall i :: 1 <= i < |s| ==> s[i] == s[1..][i - 1];
    }
  }

  // ---------------------------------------------------------------------
  // Removing a word

  /** A shorter string results exactly when the word occurs. */
  lemma {:induction false} RemoveAllUnchanged(s: string, pat: string)
    requires |pat| > 0
    ensures RemoveAll(s, pat) == s <==> !Occurs(s, pat)
    decreases |s|
  {
    if |s| >= |pat| {
      if s[..|pat|] == pat {
        assert OccursAt(s, pat, 0);
      } else {
        var t := s[1..];
        RemoveAllUnchanged(t, pat);
        forall i | 0 <= i <= |t| ensures OccursAt(t, pat, i) <==> OccursAt(s, pat, i + 1) {
          if i + |pat| <= |t| { assert t[i..i + |pat|] == s[i + 1..i + 1 + |pat|]; }
        }
        if Occurs(s, pat) {
          var i :| 0 <= i <= |s| && OccursAt(s, pat, i);
          assert i != 0;
          assert OccursAt(t, pat, i - 1);
        }
        if Occurs(t, pat) {
          var i :| 0 <= i <= |t| && OccursAt(t, pat, i);
          assert OccursAt(s, pat, i + 1);
        }
        assert [s[0]] + t == s;
      }
    }
  }

  /** No occurrence of `pat` in `a + t` starts inside `a` and ends inside `t`. */
  predicate NoStraddle(a: string, t: string, pat: string) {
    forall j :: 0 <= j < |a| < j + |pat| ==> !OccursAt(a + t, pat, j)
  }

  lemma NoStraddleSuffix(a: string, t: string, pat: string, n: nat)
    requires n <= |a| && NoStraddle(a, t, pat)
    ensures NoStraddle(a[n..], t, pat)
  {
    var s, a' := a + t, a[n..];
    assert a' + t == s[n..];
    forall j | 0 <= j < |a'| < j + |pat| ensures !OccursAt(a' + t, pat, j) {
      assert !OccursAt(s, pat, j + n);
      if j + |pat| <= |a' + t| {
        assert (a' + t)[j..j + |pat|] == s[j + n..j + n + |pat|];
      }
    }
  }

  /** Where `pat` starts `a + t` and does not straddle the seam, it lies
      within `a` and is removed both from `a` and from `a + t`. */
  lemma RemoveAllMatch(a: string, t: string, pat: string)
    requires |pat| > 0 && a != [] && NoStraddle(a, t, pat)
    requires |a + t| >= |pat| && (a + t)[..|pat|] == pat
    ensures |pat| <= |a|
    ensures RemoveAll(a, pat) == RemoveAll(a[|pat|..], pat)
    ensures RemoveAll(a + t, pat) == RemoveAll(a[|pat|..] + t, pat)
  {
    var s := a + t;
    assert OccursAt(s, pat, 0);
    assert s[..|pat|] == a[..|pat|];
    assert s[|pat|..] == a[|pat|..] + t;
  }

  /** Where `pat` does not start `a + t`, the first character of `a` is kept
      both in `a` and in `a + t`. */
  lemma RemoveAllNoMatch(a: string, t: string, pat: string)
    requires |pat| > 0 && a != []
    requires |a + t| >= |pat| ==> (a + t)[..|pat|] != pat
    ensures RemoveAll(a, pat) == [a[0]] + RemoveAll(a[1..], pat)
    ensures RemoveAll(a + t, pat) == [a[0]] + RemoveAll(a[1..] + t, pat)
  {
    var s := a + t;
    assert s[1..] == a[1..] + t;
    assert s[0] == a[0];
    if |a| < |pat| {
      assert RemoveAll(a[1..], pat) == a[1..];
      assert [a[0]] + a[1..] == a;
    } else {
      assert a[..|pat|] == s[..|pat|];
    }
    if |s| < |pat| {
      assert RemoveAll(s[1..], pat) == s[1..];
      assert [s[0]] + s[1..] == s;
    }
  }

  /** One step of the left-to-right scan of `a + t`, taken inside `a`: the
      first `n` characters of `a` become `kept` in both scans. */
  lemma RemoveAllStep(a: string, t: string, pat: string) returns (n: nat, kept: string)
    requires |pat| > 0 && a != [] && NoStraddle(a, t, pat)
    ensures 0 < n <= |a| && NoStraddle(a[n..], t, pat)
    ensures RemoveAll(a, pat) == kept + RemoveAll(a[n..], pat)
    ensures RemoveAll(a + t, pat) == kept + RemoveAll(a[n..] + t, pat)
  {
    var s := a + t;
    if |s| >= |pat| && s[..|pat|] == pat {
      RemoveAllMatch(a, t, pat);
      n, kept := |pat|, [];
    } else {
      RemoveAllNoMatch(a, t, pat);
      n, kept := 1, [a[0]];
    }
    NoStraddleSuffix(a, t, pat, n);
  }

  /** Removal works piecewise when no occurrence straddles the seam. */
  lemma {:induction false} RemoveAllAppend(a: string, t: string, pat: string)
    requires |pat| > 0
    requires NoStraddle(a, t, pat)
    ensures RemoveAll(a + t, pat) == RemoveAll(a, pat) + RemoveAll(t, pat)
    decreases |a|
  {
    if a == [] {
      assert a + t == t;
    } else {
      var n, kept := RemoveAllStep(a, t, pat);
      RemoveAllAppend(a[n..], t, pat);
    }
  }

  // ---------------------------------------------------------------------
  // Dropping one separator character

  /** The first `c` after a run of characters other than `c` is the one
      dropped. */
  lemma {:induction false} RemoveFirstAfter(u: string, c: char, v: string)
    requires c !in u
    ensures RemoveFirst(u + [c] + v, c) == u + v
  {
    if u == [] {
      assert u + [c] + v == [c] + v;
    } else {
      var t := u[1..] + [c] + v;
      assert u + [c] + v == [u[0]] + t;
      RemoveFirstAfter(u[1..], c, v);
      assert [u[0]] + (u[1..] + v) == u + v;
    }
  }

  /** Dropping the first `c` cuts `s` around `FirstIndex(s, c)`. */
  lemma RemoveFirstAt(s: string, c: char)
    ensures var k := FirstIndex(s, c);
            k < |s| ==> RemoveFirst(s, c) == s[..k] + s[k + 1..]
  {
    var k := FirstIndex(s, c);
    if k < |s| {
      var u, v := s[..k], s[k + 1..];
      assert s == u + [c] + v;
      assert c !in u by {
        forall i | 0 <= i < |u| ensures u[i] != c { assert u[i] == s[i]; }
      }
      RemoveFirstAfter(u, c, v);
    }
  }

  /** The first `c` after a run of characters other than `c`. */
  lemma FirstIndexAfter(u: string, c: char, v: string)
    requires c !in u
    ensures FirstIndex(u + [c] + v, c) == |u|
  {
    var s := u + [c] + v;
    var k := FirstIndex(s, c);
    assert s[|u|] == c;
    assert forall i :: 0 <= i < |u| ==> s[i] == u[i];
  }

  lemma {:induction false} CountAppend(a: string, b: string, c: char)
    ensures Count(a + b, c) == Count(a, c) + Count(b, c)
  {
    if a == [] {
      assert a + b == b;
    } else {
      assert (a + b)[0] == a[0] && (a + b)[1..] == a[1..] + b;
      CountAppend(a[1..], b, c);
    }
  }

  /** For a non-digit `c`, dropping the first `c` leaves a non-empty digit
      string exactly when `s` is digits with at most one `c` and at least
      one digit. */
  lemma DigitsAroundOneSeparator(s: string, c: char)
    requires !IsDigit(c)
    ensures IsDigits(RemoveFirst(s, c)) <==>
              (forall i :: 0 <= i < |s| ==> IsDigit(s[i]) || s[i] == c) &&
              Count(s, c) <= 1 && Count(s, c) < |s|
  {
    var k := FirstIndex(s, c);
    if k < |s| {
      var u, v := s[..k], s[k + 1..];
      assert s == u + [c] + v;
      assert c !in u by {
        forall i | 0 <= i < |u| ensures u[i] != c { assert u[i] == s[i]; }
      }
      RemoveFirstAfter(u, c, v);
      DigitsAroundFirstSeparator(u, c, v);
    } else {
      assert c !in s;
      assert Count(s, c) == 0;
    }
  }

  lemma DigitsAroundFirstSeparator(u: string, c: char, v: string)
    requires !IsDigit(c) && c !in u
    ensures var s := u + [c] + v;
            IsDigits(u + v) <==>
              (forall i :: 0 <= i < |s| ==> IsDigit(s[i]) || s[i] == c) &&
              Count(s, c) <= 1 && Count(s, c) < |s|
  {
    var s := u + [c] + v;
    CountAppend(u + [c], v, c);
    CountAppend(u, [c], c);
    assert Count(s, c) == 1 + Count(v, c);
    var digitsOrC := forall i :: 0 <= i < |s| ==> IsDigit(s[i]) || s[i] == c;
    if IsDigits(u + v) {
      forall i | 0 <= i < |s| ensures IsDigit(s[i]) || s[i] == c {
        if i < |u| { assert s[i] == (u + v)[i]; }
        else if i > |u| { assert s[i] == (u + v)[i - 1]; }
      }
      assert forall i :: 0 <= i < |v| ==> v[i] == (u + v)[|u| + i];
      assert c !in v;
    }
    if digitsOrC && Count(s, c) <= 1 && Count(s, c) < |s| {
      assert c !in v;
      forall i | 0 <= i < |u + v| ensures IsDigit((u + v)[i]) {
        if i < |u| {
          assert (u + v)[i] == s[i] && s[i] in u;
        } else {
          assert (u + v)[i] == s[i + 1] && s[i + 1] in v;
        }
      }
    }
  }

  // ---------------------------------------------------------------------
  // Joining and splitting

  /** A piece free of the separator's first character splits as one piece. */
  lemma {:induction false} SplitWhole(t: string, sep: string)
    requires |sep| > 0
    requires forall i :: 0 <= i < |t| ==> t[i] != sep[0]
    ensures Split(t, sep) == [t]
    decreases |t|
  {
    if |t| >= |sep| {
      assert t[..|sep|][0] != sep[0];
      SplitWhole(t[1..], sep);
      assert [t[0]] + t[1..] == t;
    }
  }

  /** The first separator after such a piece ends that piece. */
  lemma {:induction false} SplitAfter(t: string, sep: string, u: string)
    requires |sep| > 0
    requires forall i :: 0 <= i < |t| ==> t[i] != sep[0]
    ensures Split(t + sep + u, sep) == [t] + Split(u, sep)
    decreases |t|
  {
    var s := t + sep + u;
    if t == [] {
      assert s == sep + u;
      assert s[..|sep|] == sep;
      assert s[|sep|..] == u;
    } else {
      assert s[..|sep|][0] == t[0] != sep[0];
      assert s[1..] == t[1..] + sep + u;
      SplitAfter(t[1..], sep, u);
      assert [t[0]] + t[1..] == t;
    }
  }

  /** Splitting undoes joining when no part contains the separator's first
      character. */
  lemma {:induction false} SplitJoin(parts: seq<string>, sep: string)
    requires |sep| > 0 && parts != []
    requires forall p, i :: p in parts && 0 <= i < |p| ==> p[i] != sep[0]
    ensures Split(Join(parts, sep), sep) == parts
  {
    if |parts| == 1 {
      SplitWhole(parts[0], sep);
    } else {
      assert parts[0] in parts;
      SplitAfter(parts[0], sep, Join(parts[1..], sep));
      assert forall p :: p in parts[1..] ==> p in parts;
      SplitJoin(parts[1..], sep);
      assert [parts[0]] + parts[1..] == parts;
    }
  }
}
