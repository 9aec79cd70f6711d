/**
 * The string operations the program relies on: ASCII `str.isdigit`, `int(s)` on a digit
 * string, `str(n)`, the first index of a character, and `str.replace` with and without a count.
 */
module Text {

  predicate IsDigit(c: char) {
    '0' <= c <= '9'
  }

  predicate AllDigits(s: string) {
    forall i :: 0 <= i < |s| ==> IsDigit(s[i])
  }

  /** `s.isdigit()` for ASCII strings: non-empty and made of digits only. */
  predicate IsDigits(s: string) {
    |s| > 0 && AllDigits(s)
  }

  /** The form `str(n)` produces: digits without a leading zero, except "0" itself. */
  predicate Canonical(s: string) {
    IsDigits(s) && (|s| == 1 || s[0] != '0')
  }

  /** `int(s)` for a string of decimal digits (leading zeros allowed, as in Python). */
  function Value(s: string): nat
    requires AllDigits(s)
    decreases |s|
  {
    if s == [] then 0 else 10 * Value(s[..|s| - 1]) + (s[|s| - 1] as int - '0' as int)
  }

  /**
   * `int(s)` reads decimal digits: one more digit multiplies what was read by ten and adds the
   * digit, and a leading zero does not change the value.
   */
  lemma {:induction false} ValueDigits(s: string, d: char)
    requires AllDigits(s) && IsDigit(d)
    ensures Value(s + [d]) == 10 * Value(s) + (d as int - '0' as int)
    ensures Value("0" + s) == Value(s)
    decreases |s|
  {
    assert (s + [d])[..|s|] == s;
    if s != [] {
      var init := s[..|s| - 1];
      ValueDigits(init, s[|s| - 1]);
      assert ("0" + s)[..|s|] == "0" + init;
      assert init + [s[|s| - 1]] == s;
    } else {
      assert ("0" + s)[..0] == [];
    }
  }

  /** `isdigit()` holds exactly for a non-empty string of digits, which holds no `r` and is not `m`. */
  lemma IsDigitsChars(s: string)
    ensures IsDigits(s) <==> s != [] && forall c :: c in s ==> IsDigit(c)
    ensures IsDigits(s) ==> 'r' !in s && s != "m"
  {
    if IsDigits(s) {
      forall c | c in s ensures IsDigit(c) {
        var i :| 0 <= i < |s| && s[i] == c;
      }
      assert IsDigit(s[0]);
    }
  }

  function Digit(d: nat): (c: char)
    requires d < 10
    ensures IsDigit(c) && c as int - '0' as int == d
  {
    ('0' as int + d) as char
  }

  /** `str(n)`: the decimal text of n, which `int` reads back as n. */
  function Show(n: nat): (s: string)
    ensures Canonical(s) && Value(s) == n
    decreases n
  {
    if n < 10 then
      var s := [Digit(n)];
      assert s[..0] == [];
      s
    else
      var prefix := Show(n / 10);
      var s := prefix + [Digit(n % 10)];
      assert s[..|s| - 1] == prefix;
      assert |prefix| == 1 ==> prefix[..0] == [];
      s
  }

  lemma {:induction false} ValuePositive(s: string)
    requires IsDigits(s) && s[0] != '0'
    ensures Value(s) >= 1
    decreases |s|
  {
    if |s| == 1 {
      assert s[..0] == [];
    } else {
      var prefix := s[..|s| - 1];
      assert prefix[0] == s[0];
      ValuePositive(prefix);
    }
  }

  /** Reading a canonical digit string and printing the number again gives the same string. */
  lemma {:induction false} ShowValue(s: string)
    requires Canonical(s)
    ensures Show(Value(s)) == s
    decreases |s|
  {
    if |s| == 1 {
      assert s[..0] == [];
      assert [Digit(Value(s))] == s;
    } else {
      var prefix := s[..|s| - 1];
      assert prefix[0] == s[0];
      ValuePositive(prefix);
      ShowValue(prefix);
      var d := s[|s| - 1] as int - '0' as int;
      assert Value(s) / 10 == Value(prefix) && Value(s) % 10 == d;
      assert Digit(d) == s[|s| - 1];
      assert s == prefix + [s[|s| - 1]];
    }
  }

  /** `str.lower()` on ASCII letters. */
  function LowerChar(c: char): char {
    if 'A' <= c <= 'Z' then (c as int - 'A' as int + 'a' as int) as char else c
  }

  /** `str.lower()`, character by character. */
  function Lower(s: string): (r: string)
    ensures |r| == |s|
    ensures forall i :: 0 <= i < |s| ==> r[i] == LowerChar(s[i])
  {
    seq(|s|, i requires 0 <= i < |s| => LowerChar(s[i]))
  }

  /** `lower()` leaves no upper-case letter, keeps every other character, and lowering twice is lowering once. */
  lemma LowerFacts(s: string)
    ensures forall i :: 0 <= i < |s| ==> !('A' <= Lower(s)[i] <= 'Z')
    ensures forall i :: 0 <= i < |s| && !('A' <= s[i] <= 'Z') ==> Lower(s)[i] == s[i]
    ensures Lower(Lower(s)) == Lower(s)
  {
  }

  /** Exactly "y" and "Y" lower to "y". */
  lemma LowerOfOne(s: string)
    ensures Lower(s) == "y" <==> s == "y" || s == "Y"
  {
    if Lower(s) == "y" {
      assert |s| == 1 && LowerChar(s[0]) == 'y';
    }
    if s == "y" || s == "Y" {
      assert Lower(s)[0] == 'y';
    }
  }

  /** The index of the first `c` in `s`, or |s| when `s` holds none. */
  function Find(s: string, c: char): (k: nat)
    ensures k <= |s|
    ensures k < |s| ==> s[k] == c
    ensures forall i :: 0 <= i < k ==> s[i] != c
  {
    FindFrom(s, c, 0)
  }

  /** The index of the first `c` in `s` at or after `i`, or |s| when there is none. */
  function FindFrom(s: string, c: char, i: nat): (k: nat)
    requires i <= |s|
    ensures i <= k <= |s|
    ensures k < |s| ==> s[k] == c
    ensures forall j :: i <= j < k ==> s[j] != c
    decreases |s| - i
  {
    if i == |s| then i else if s[i] == c then i else FindFrom(s, c, i + 1)
  }

  /**
   * Concatenation regroups. Inductive proofs over concatenations call this instead of asserting
   * the regrouping inline, which keeps the sequence axioms out of their larger proof contexts.
   */
  lemma ConcatAssoc<T>(p: seq<T>, q: seq<T>, r: seq<T>)
    ensures p + (q + r) == (p + q) + r
  {
  }

  /** `s.replace(c, "", 1)`: `s` without its first `c`. */
  function ReplaceFirst(s: string, c: char): (r: string)
    ensures c !in s ==> r == s
    ensures c in s ==> |r| == |s| - 1
  {
    var k := Find(s, c);
    if k < |s| then s[..k] + s[k + 1..] else s
  }

  /** `s.replace(c, "")`: `s` without any `c`. */
  function RemoveAll(s: string, c: char): (r: string)
    ensures c !in r
    ensures c !in s ==> r == s
    ensures |s| == 1 ==> r == (if s[0] == c then [] else s)
    decreases |s|
  {
    if s == [] then [] else (if s[0] == c then [] else [s[0]]) + RemoveAll(s[1..], c)
  }

  lemma {:induction false} RemoveAllConcat(a: string, b: string, c: char)
    ensures RemoveAll(a + b, c) == RemoveAll(a, c) + RemoveAll(b, c)
    decreases |a|
  {
    if a != [] {
      var head := if a[0] == c then [] else [a[0]];
      assert RemoveAll(a + b, c) == head + RemoveAll(a[1..] + b, c) by {
        assert (a + b)[0] == a[0] && (a + b)[1..] == a[1..] + b;
      }
      RemoveAllConcat(a[1..], b, c);
      assert RemoveAll(a, c) == head + RemoveAll(a[1..], c);
      ConcatAssoc(head, RemoveAll(a[1..], c), RemoveAll(b, c));
    } else {
      assert a + b == b;
    }
  }

  /** A character absent from a concatenation is absent from both parts. */
  lemma AbsentFromParts(a: string, b: string, c: char)
    requires c !in a + b
    ensures c !in a && c !in b
  {
    forall i | 0 <= i < |a| ensures a[i] != c {
      assert a[i] == (a + b)[i];
    }
    forall i | 0 <= i < |b| ensures b[i] != c {
      assert b[i] == (a + b)[|a| + i];
    }
  }

  /** When dropping the first `c` leaves none, dropping every `c` gives the same string. */
  lemma RemoveAllAgreesWithReplaceFirst(s: string, c: char)
    requires c !in ReplaceFirst(s, c)
    ensures RemoveAll(s, c) == ReplaceFirst(s, c)
  {
    var k := Find(s, c);
    if k < |s| {
      var before, after := s[..k], s[k + 1..];
      AbsentFromParts(before, after, c);
      assert s == (before + [c]) + after;
      RemoveAllConcat(before + [c], after, c);
      RemoveAllConcat(before, [c], c);
      assert RemoveAll([c], c) == [];
      assert RemoveAll(before + [c], c) == before;
    }
  }

  /** `replace(c, "", 1)` takes out exactly one `c` when there is one, and nothing else. */
  lemma ReplaceFirstRemovesOne(s: string, c: char)
    ensures multiset(ReplaceFirst(s, c)) == multiset(s) - multiset{c}
  {
    var k := Find(s, c);
    if k < |s| {
      var rest := s[..k] + s[k + 1..];
      assert ReplaceFirst(s, c) == rest;
      SplitAt(s, k);
      assert (multiset(rest) + multiset{c}) - multiset{c} == multiset(rest);
    } else {
      assert c !in multiset(s);
    }
  }

  /** Taking out the character at `k` leaves every other character. */
  lemma SplitAt(s: string, k: nat)
    requires k < |s|
    ensures multiset(s) == multiset(s[..k] + s[k + 1..]) + multiset{s[k]}
  {
    assert s == s[..k] + [s[k]] + s[k + 1..];
  }

  /** `replace(c, "")` takes out every `c` and keeps every other character. */
  lemma {:induction false} RemoveAllCounts(s: string, c: char)
    ensures multiset(RemoveAll(s, c)) == multiset(s)[c := 0]
    decreases |s|
  {
    if s != [] {
      RemoveAllCounts(s[1..], c);
      assert s == [s[0]] + s[1..];
      assert multiset(s) == multiset{s[0]} + multiset(s[1..]);
    }
  }
}
