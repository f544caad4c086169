/** String helpers shared by the text-handling components. */
module Text {

  /** ASCII case folding, as the caseless comparisons of the code use it. */
  function LowerChar(c: char): char {
    if 'A' <= c <= 'Z' then (c as int - 'A' as int + 'a' as int) as char else c
  }

  function Lower(s: string): (r: string)
    ensures |r| == |s|
  {
    if s == "" then "" else [LowerChar(s[0])] + Lower(s[1..])
  }

  /** VmDirStringCompareA(a, b, FALSE) == 0. */
  predicate SameText(a: string, b: string) {
    Lower(a) == Lower(b)
  }

  /** printf("%u"). */
  function Decimal(n: nat): (s: string)
    ensures |s| > 0
    ensures forall i :: 0 <= i < |s| ==> '0' <= s[i] <= '9'
  {
    if n < 10 then [('0' as int + n) as char] else Decimal(n / 10) + [('0' as int + n % 10) as char]
  }

  lemma {:induction false} LowerAt(s: string, i: nat)
    requires i < |s|
    ensures Lower(s)[i] == LowerChar(s[i])
  {
    if i > 0 { LowerAt(s[1..], i - 1); }
  }

  /** Two characters that differ at most in case. */
  predicate SameLetter(a: char, b: char) {
    || a == b
    || ('A' <= a <= 'Z' && 'a' <= b <= 'z' && b as int - a as int == 'a' as int - 'A' as int)
    || ('a' <= a <= 'z' && 'A' <= b <= 'Z' && a as int - b as int == 'a' as int - 'A' as int)
  }

  /** Texts compare equal exactly when they agree letter by letter, case aside. */
  lemma SameTextMeaning(a: string, b: string)
    ensures SameText(a, b) <==> |a| == |b| && forall i :: 0 <= i < |a| ==> SameLetter(a[i], b[i])
  {
    if |a| == |b| {
      forall i | 0 <= i < |a|
        ensures SameLetter(a[i], b[i]) <==> Lower(a)[i] == Lower(b)[i]
      {
        LowerAt(a, i);
        LowerAt(b, i);
      }
      hide Lower;
    }
  }

  predicate IsDigit(c: char) { '0' <= c <= '9' }

  /** The number that leading digits denote, behind `value` read already. */
  function Digits(s: string, value: nat): nat {
    if s == "" || !IsDigit(s[0]) then value else Digits(s[1..], 10 * value + (s[0] as int - '0' as int))
  }

  lemma {:induction false} DigitsMore(s: string, value: nat, d: char)
    requires (forall i :: 0 <= i < |s| ==> IsDigit(s[i])) && IsDigit(d)
    ensures Digits(s + [d], value) == 10 * Digits(s, value) + (d as int - '0' as int)
  {
    if s == "" {
      assert Digits([d], value) == Digits([d][1..], 10 * value + (d as int - '0' as int));
      assert s + [d] == [d];
    } else {
      assert (s + [d])[1..] == s[1..] + [d] && (s + [d])[0] == s[0];
      DigitsMore(s[1..], 10 * value + (s[0] as int - '0' as int), d);
    }
  }

  lemma {:induction false} DigitsOfDecimal(n: nat)
    ensures Digits(Decimal(n), 0) == n
  {
    if n < 10 {
      var d := ('0' as int + n) as char;
      assert Digits([d], 0) == Digits([d][1..], n);
    } else {
      DigitsOfDecimal(n / 10);
      DigitsMore(Decimal(n / 10), 0, ('0' as int + n % 10) as char);
    }
  }

  /** Numbers with one decimal form are one number. */
  lemma DecimalInjective(m: nat, n: nat)
    requires Decimal(m) == Decimal(n)
    ensures m == n
  {
    DigitsOfDecimal(m);
    DigitsOfDecimal(n);
  }

  // ---------------------------------------------------------------- finding characters

  /** The first place of `c`, or the length. */
  function First(s: string, c: char): (n: nat)
    ensures n <= |s|
  {
    if s == "" || s[0] == c then 0 else 1 + First(s[1..], c)
  }

  lemma {:induction false} FirstIs(a: string, c: char, b: string)
    requires c !in a && (b == "" || b[0] == c)
    ensures First(a + b, c) == |a|
  {
    if a == "" {
      assert a + b == b;
    } else {
      assert (a + b)[0] == a[0] && (a + b)[1..] == a[1..] + b;
      FirstIs(a[1..], c, b);
    }
  }

  /** What stands before the first `c` has none. */
  lemma {:induction false} FirstSplits(s: string, c: char)
    requires c in s
    ensures First(s, c) < |s| && s[First(s, c)] == c && c !in s[..First(s, c)]
  {
    if s[0] != c {
      FirstSplits(s[1..], c);
      var n := First(s[1..], c);
      assert s[..n + 1] == [s[0]] + s[1..][..n];
    }
  }

  /** The last place of `c`, or the length. */
  function Last(s: string, c: char): (n: nat)
    ensures n <= |s|
  {
    if s == "" then 0
    else if s[|s| - 1] == c then |s| - 1
    else
      var n := Last(s[..|s| - 1], c);
      if n == |s| - 1 then |s| else n
  }

  lemma {:induction false} LastIs(a: string, c: char, b: string)
    requires c !in b
    ensures Last(a + [c] + b, c) == |a|
  {
    var s := a + [c] + b;
    if b != "" {
      var front := b[..|b| - 1];
      assert s[|s| - 1] == b[|b| - 1];
      assert s[..|s| - 1] == a + [c] + front;
      LastIs(a, c, front);
    }
  }

  /** A text is cut at the first `c` in one way only. */
  lemma CutUnique(a: string, b: string, a': string, b': string, c: char)
    requires c !in a && c !in a'
    ensures a + [c] + b == a' + [c] + b' <==> a == a' && b == b'
  {
    var s, s' := a + [c] + b, a' + [c] + b';
    assert s == a + ([c] + b) && s' == a' + ([c] + b');
    FirstIs(a, c, [c] + b);
    FirstIs(a', c, [c] + b');
    hide First;
    if s == s' {
      assert a == s[..|a|] && a' == s'[..|a'|] && b == s[|a| + 1..] && b' == s'[|a'| + 1..];
    }
  }
}
