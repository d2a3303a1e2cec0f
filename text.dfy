/** The few JavaScript string operations the widget relies on: `split` and
    `join` on a one-character separator, `_.last(xs, n)`, the decimal form of a
    number (`String(n)`), and the strings that address an element of an array
    (`arr["1"]` is `arr[1]`; `arr["01"]` is undefined). */
module Text {
  import opened Wrappers

  /** `s.split(sep)`: never empty; the separators are dropped. */
  function Split(s: string, sep: char): (r: seq<string>)
    ensures |r| >= 1
    decreases |s|
  {
    if s == [] then [[]]
    else if s[0] == sep then [[]] + Split(s[1..], sep)
    else
      var t := Split(s[1..], sep);
      [[s[0]] + t[0]] + t[1..]
  }

  /** No part of a split holds the separator. */
  lemma {:induction false} SplitDropsSeparators(s: string, sep: char)
    ensures NoSep(Split(s, sep), sep)
    decreases |s|
  {
    if s != [] {
      SplitDropsSeparators(s[1..], sep);
      var t := Split(s[1..], sep);
      if s[0] != sep {
        var r := Split(s, sep);
        assert r[0] == [s[0]] + t[0];
        forall i | 0 <= i < |r| ensures sep !in r[i] {
          if i > 0 { assert r[i] == t[i]; }
        }
      }
    }
  }

  /** `xs.join(sep)`. */
  function Join(xs: seq<string>, sep: char): string
    decreases |xs|
  {
    if xs == [] then []
    else if |xs| == 1 then xs[0]
    else xs[0] + [sep] + Join(xs[1..], sep)
  }

  predicate NoSep(xs: seq<string>, sep: char) {
    forall i :: 0 <= i < |xs| ==> sep !in xs[i]
  }

  /** Splitting undoes joining when no part contains the separator. */
  lemma {:induction false} SplitJoin(xs: seq<string>, sep: char)
    requires |xs| >= 1 && NoSep(xs, sep)
    ensures Split(Join(xs, sep), sep) == xs
    decreases |xs|
  {
    if |xs| == 1 {
      SplitNoSep(xs[0], sep);
    } else {
      SplitJoin(xs[1..], sep);
      SplitConcat(xs[0], Join(xs[1..], sep), sep);
      SplitNoSep(xs[0], sep);
      assert xs == [xs[0]] + xs[1..];
    }
  }

  lemma {:induction false} SplitNoSep(s: string, sep: char)
    requires sep !in s
    ensures Split(s, sep) == [s]
    decreases |s|
  {
    if s != [] {
      SplitNoSep(s[1..], sep);
      assert [s[0]] + s[1..] == s;
    }
  }

  /** One step of `Split`, on a string given as its first character and the rest. */
  lemma SplitCons(c: char, s: string, sep: char)
    ensures Split([c] + s, sep)
         == if c == sep then [[]] + Split(s, sep)
            else [[c] + Split(s, sep)[0]] + Split(s, sep)[1..]
  {
    assert ([c] + s)[1..] == s;
  }

  /** A separator splits the string into the parts on either side of it. */
  lemma {:induction false} SplitConcat(a: string, b: string, sep: char)
    ensures Split(a + [sep] + b, sep) == Split(a, sep) + Split(b, sep)
    decreases |a|
  {
    if a == [] {
      SplitCons(sep, b, sep);
      assert a + [sep] + b == [sep] + b;
    } else {
      var c, rest := a[0], a[1..];
      assert a == [c] + rest;
      assert a + [sep] + b == [c] + (rest + [sep] + b);
      SplitConcat(rest, b, sep);
      SplitCons(c, rest + [sep] + b, sep);
      SplitCons(c, rest, sep);
      var t, u := Split(rest, sep), Split(b, sep);
      if c == sep {
        AppendAssoc([[]], t, u);
      } else {
        assert (t + u)[0] == t[0];
        assert (t + u)[1..] == t[1..] + u;
        AppendAssoc([[c] + t[0]], t[1..], u);
      }
    }
  }

  lemma AppendAssoc<T>(x: seq<T>, y: seq<T>, z: seq<T>)
    ensures x + (y + z) == (x + y) + z
  {
  }

  /** `_.last(xs, n)`: the last n elements, or all of them when there are fewer. */
  function Last<T>(xs: seq<T>, n: nat): (r: seq<T>)
    ensures |r| == if |xs| <= n then |xs| else n
    ensures forall i :: 0 <= i < |r| ==> r[i] == xs[|xs| - |r| + i]
  {
    if |xs| <= n then xs else xs[|xs| - n..]
  }

  function Digit(d: nat): char
    requires d < 10
  {
    "0123456789"[d]
  }

  predicate IsDigit(c: char) {
    '0' <= c <= '9'
  }

  function DigitValue(c: char): (d: nat)
    requires IsDigit(c)
    ensures d < 10
  {
    (c as int - '0' as int) as nat
  }

  /** `String(n)` for a non-negative integer. */
  function NatToString(n: nat): (r: string)
    ensures |r| >= 1
    ensures forall i :: 0 <= i < |r| ==> IsDigit(r[i])
    ensures n > 0 ==> r[0] != '0'
    ensures n == 0 ==> r == "0"
    decreases n
  {
    if n < 10 then [Digit(n)] else NatToString(n / 10) + [Digit(n % 10)]
  }

  /** `String(i)` for any integer. */
  function IntToString(i: int): (r: string)
    ensures |r| >= 1
    ensures r[0] == '-' <==> i < 0
  {
    if i < 0 then "-" + NatToString(-i) else NatToString(i)
  }

  /** The value of a string of decimal digits. */
  function DigitsValue(s: string): nat
    requires forall i :: 0 <= i < |s| ==> IsDigit(s[i])
    decreases |s|
  {
    if s == [] then 0 else DigitsValue(s[..|s| - 1]) * 10 + DigitValue(s[|s| - 1])
  }

  predicate Canonical(key: string) {
    && key != []
    && (forall i :: 0 <= i < |key| ==> IsDigit(key[i]))
    && (|key| == 1 || key[0] != '0')
  }

  /** The array index a property key names: only the canonical decimal form of
      a non-negative integer ("0", "1", "12", not "01", "-1" or ""). */
  function ArrayIndex(key: string): (r: Option<nat>)
    ensures r.Some? ==> NatToString(r.value) == key
    ensures r.None? ==> forall n: nat :: NatToString(n) != key
  {
    if Canonical(key) then
      CanonicalDigits(key);
      Some(DigitsValue(key))
    else
      assert forall n: nat :: NatToString(n) != key by {
        forall n: nat ensures NatToString(n) != key {
          if n == 0 { } else { assert NatToString(n)[0] != '0'; }
        }
      }
      None
  }

  lemma {:induction false} CanonicalDigits(key: string)
    requires Canonical(key)
    ensures NatToString(DigitsValue(key)) == key
    decreases |key|
  {
    var c := key[|key| - 1];
    if |key| == 1 {
      assert Digit(DigitValue(c)) == c;
    } else {
      var front := key[..|key| - 1];
      assert front[0] == key[0];
      CanonicalDigits(front);
      var v := DigitsValue(front);
      assert v != 0;
      var n := DigitsValue(key);
      assert n == v * 10 + DigitValue(c);
      assert n / 10 == v && n % 10 == DigitValue(c);
      assert Digit(DigitValue(c)) == c;
      assert key == front + [c];
    }
  }

  lemma {:induction false} DigitsOfNat(n: nat)
    ensures DigitsValue(NatToString(n)) == n
    decreases n
  {
    var s := NatToString(n);
    if n < 10 {
      assert s == [Digit(n)];
      assert s[..0] == [];
    } else {
      DigitsOfNat(n / 10);
      assert s[..|s| - 1] == NatToString(n / 10);
      assert s[|s| - 1] == Digit(n % 10);
    }
  }

  /** The decimal form of a non-negative number is the key of that array slot. */
  lemma ArrayIndexOfNat(n: nat)
    ensures ArrayIndex(NatToString(n)) == Some(n)
  {
    DigitsOfNat(n);
  }

  /** `arr[i]` with a number i reads the slot i when i >= 0 and nothing otherwise. */
  lemma ArrayIndexOfInt(i: int)
    ensures ArrayIndex(IntToString(i)) == if i >= 0 then Some(i as nat) else None
  {
    if i >= 0 { ArrayIndexOfNat(i); }
  }
}
