/**
 * The JavaScript string built-ins the shared utilities rely on:
 * `split(' ')`, `join(' ')`, `Number.prototype.toString()` on naturals,
 * `padStart` and ASCII `toUpperCase`.
 */
module Strings {

  const Space: char := ' '

  predicate IsDigit(c: char) {
    '0' <= c <= '9'
  }

  predicate AllDigits(s: string) {
    forall i :: 0 <= i < |s| ==> IsDigit(s[i])
  }

  /** No piece of a split contains the separator. */
  predicate SpaceFree(ws: seq<string>) {
    forall i :: 0 <= i < |ws| ==> Space !in ws[i]
  }

  // ---------------------------------------------------------------------------
  // split(' ') and join(' ')
  // ---------------------------------------------------------------------------

  /**
   * `s.split(' ')`: the pieces between single spaces. As in JavaScript the
   * result is never empty (`"".split(' ')` is `[""]`), adjacent spaces give
   * empty pieces, and no piece contains a space.
   */
  function Split(s: string): (r: seq<string>)
    ensures |r| >= 1
    ensures SpaceFree(r)
    decreases |s|
  {
    if s == [] then [""]
    else
      var rest := Split(s[1..]);
      if s[0] == Space then [""] + rest
      else [[s[0]] + rest[0]] + rest[1..]
  }

  /** `ws.join(' ')`. */
  function Join(ws: seq<string>): string {
    if |ws| == 0 then ""
    else if |ws| == 1 then ws[0]
    else ws[0] + [Space] + Join(ws[1..])
  }

  /** Joining the pieces of a split gives back the string. */
  lemma {:induction false} JoinSplit(s: string)
    ensures Join(Split(s)) == s
    decreases |s|
  {
    if s != [] {
      var rest := Split(s[1..]);
      JoinSplit(s[1..]);
      if s[0] == Space {
        assert Split(s) == [""] + rest;
        assert Join(Split(s)) == "" + [Space] + Join(rest);
        assert s == [s[0]] + s[1..];
      } else {
        var w := [[s[0]] + rest[0]] + rest[1..];
        assert Split(s) == w;
        if |rest| == 1 {
          assert Join(w) == [s[0]] + rest[0];
          assert Join(rest) == rest[0];
        } else {
          assert w[1..] == rest[1..];
          assert Join(w) == [s[0]] + rest[0] + [Space] + Join(rest[1..]);
          assert Join(rest) == rest[0] + [Space] + Join(rest[1..]);
        }
        assert s == [s[0]] + s[1..];
      }
    }
  }

  /** A space-free word followed by a space starts a fresh piece. */
  lemma {:induction false} SplitWordThenSpace(w: string, rest: string)
    requires Space !in w
    ensures Split(w + [Space] + rest) == [w] + Split(rest)
    decreases |w|
  {
    var s := w + [Space] + rest;
    if w == [] {
      assert s[0] == Space && s[1..] == rest;
    } else {
      SplitWordThenSpace(w[1..], rest);
      assert s[0] == w[0] && s[1..] == w[1..] + [Space] + rest;
      var r := Split(s[1..]);
      assert r == [w[1..]] + Split(rest);
      assert [w[0]] + r[0] == w;
      assert r[1..] == Split(rest);
    }
  }

  /** A space-free word splits into itself alone. */
  lemma {:induction false} SplitWord(w: string)
    requires Space !in w
    ensures Split(w) == [w]
    decreases |w|
  {
    if w != [] {
      SplitWord(w[1..]);
      assert [w[0]] + w[1..] == w;
    }
  }

  /** Splitting the join of space-free pieces gives back the pieces. */
  lemma {:induction false} SplitJoin(ws: seq<string>)
    requires |ws| >= 1 && SpaceFree(ws)
    ensures Split(Join(ws)) == ws
    decreases |ws|
  {
    if |ws| == 1 {
      SplitWord(ws[0]);
    } else {
      assert Space !in ws[0];
      SplitJoin(ws[1..]);
      SplitWordThenSpace(ws[0], Join(ws[1..]));
      assert [ws[0]] + ws[1..] == ws;
    }
  }

  /** The join of the first m pieces is a prefix of the join of all of them. */
  lemma {:induction false} JoinTakeIsPrefix(ws: seq<string>, m: nat)
    requires m <= |ws|
    ensures Join(ws[..m]) <= Join(ws)
    decreases m
  {
    if m == 0 {
    } else if m == 1 {
      assert ws[..1] == [ws[0]];
      if |ws| > 1 {
        assert Join(ws) == ws[0] + ([Space] + Join(ws[1..]));
      }
    } else {
      JoinTakeIsPrefix(ws[1..], m - 1);
      assert ws[..m][1..] == ws[1..][..m - 1];
      assert Join(ws[..m]) == ws[0] + [Space] + Join(ws[1..][..m - 1]);
      assert Join(ws) == ws[0] + [Space] + Join(ws[1..]);
    }
  }

  // ---------------------------------------------------------------------------
  // Decimal numerals: Number.prototype.toString() on naturals
  // ---------------------------------------------------------------------------

  function DigitChar(d: nat): (c: char)
    requires d < 10
    ensures IsDigit(c) && c as int - '0' as int == d
  {
    ('0' as int + d) as char
  }

  function DigitValue(c: char): nat
    requires IsDigit(c)
  {
    c as int - '0' as int
  }

  /** The decimal numeral of n, most significant digit first, without leading zeros. */
  function NatToString(n: nat): (r: string)
    ensures |r| >= 1 && AllDigits(r)
    ensures |r| == 1 <==> n < 10
    ensures |r| > 1 ==> r[0] != '0'
    decreases n
  {
    if n < 10 then [DigitChar(n)] else NatToString(n / 10) + [DigitChar(n % 10)]
  }

  /** The value of a string of decimal digits (the empty string is 0). */
  function DigitsValue(s: string): nat
    requires AllDigits(s)
    decreases |s|
  {
    if s == [] then 0 else DigitsValue(s[..|s| - 1]) * 10 + DigitValue(s[|s| - 1])
  }

  /** The value of a two-digit string. */
  lemma DigitsValueTwo(s: string)
    requires |s| == 2 && AllDigits(s)
    ensures DigitsValue(s) == DigitValue(s[0]) * 10 + DigitValue(s[1])
  {
    var first := s[..1];
    assert s[..|s| - 1] == first && first[..0] == [] && first[0] == s[0];
    assert DigitsValue(first) == DigitValue(s[0]);
  }

  /** Reading back a numeral gives the number. */
  lemma {:induction false} DigitsValueOfNatToString(n: nat)
    ensures DigitsValue(NatToString(n)) == n
    decreases n
  {
    var r := NatToString(n);
    if n >= 10 {
      DigitsValueOfNatToString(n / 10);
      assert r[..|r| - 1] == NatToString(n / 10);
    }
  }

  // ---------------------------------------------------------------------------
  // padStart, slice and toUpperCase
  // ---------------------------------------------------------------------------

  function Repeat(c: char, k: nat): (r: string)
    ensures |r| == k && forall i :: 0 <= i < k ==> r[i] == c
  {
    if k == 0 then [] else [c] + Repeat(c, k - 1)
  }

  /**
   * `s.padStart(width, fill)` with a one-character fill: the string is
   * left-padded with `fill` up to `width` characters and never cut.
   */
  function PadStart(s: string, width: nat, fill: char): (r: string)
    ensures |r| == if |s| >= width then |s| else width
    ensures r[|r| - |s|..] == s
  {
    if |s| >= width then s else Repeat(fill, width - |s|) + s
  }

  /** `s.slice(0, n)` for n >= 0: the first n characters, or all of them. */
  function Take(s: string, n: nat): (r: string)
    ensures |r| == if |s| < n then |s| else n
    ensures r <= s
  {
    if |s| <= n then s else s[..n]
  }

  function UpperChar(c: char): char {
    if 'a' <= c <= 'z' then (c as int - 'a' as int + 'A' as int) as char else c
  }

  /** `s.toUpperCase()` on ASCII letters; every other character is kept. */
  function UpperCase(s: string): (r: string)
    ensures |r| == |s|
    ensures forall i :: 0 <= i < |s| ==> r[i] == UpperChar(s[i])
  {
    seq(|s|, i requires 0 <= i < |s| => UpperChar(s[i]))
  }
}
