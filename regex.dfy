/**
 * The fragment of JavaScript regular expressions the validators use: a
 * pattern anchored at both ends (`^...$`, no flags) made of character
 * classes, each repeated a bounded number of times (`\+`, `[1-9]`, `\d{1,14}`).
 */
module Regex {

  /** One character test: a literal character or an inclusive range (`\d` is '0'..'9'). */
  datatype CharClass = Lit(c: char) | Range(lo: char, hi: char) {
    predicate Contains(x: char) {
      match this
      case Lit(c) => x == c
      case Range(lo, hi) => lo <= x <= hi
    }
  }

  /** A class repeated between min and max times; `a` alone is `a{1,1}`. */
  datatype Piece = Piece(charClass: CharClass, min: nat, max: nat)

  /** `^p1 p2 ... pn$`. */
  type Pattern = seq<Piece>

  /**
   * Whether the whole string matches the anchored pattern: what
   * `RegExp.prototype.test` answers for `^...$` without flags, where `$`
   * matches only at the very end of the input.
   */
  predicate FullMatch(p: Pattern, s: string)
    decreases |s|, |p|
  {
    if p == [] then s == []
    else
      var Piece(cls, lo, hi) := p[0];
      if lo > 0 then
        hi > 0 && s != [] && cls.Contains(s[0]) && FullMatch([Piece(cls, lo - 1, hi - 1)] + p[1..], s[1..])
      else
        FullMatch(p[1..], s)
        || (hi > 0 && s != [] && cls.Contains(s[0]) && FullMatch([Piece(cls, 0, hi - 1)] + p[1..], s[1..]))
  }

  predicate AllIn(cls: CharClass, s: string) {
    forall i :: 0 <= i < |s| ==> cls.Contains(s[i])
  }

  /** A single repeated class matches exactly the strings of lo to hi characters of that class. */
  lemma {:induction false} RepeatMatch(cls: CharClass, lo: nat, hi: nat, s: string)
    requires lo <= hi
    ensures FullMatch([Piece(cls, lo, hi)], s) <==> lo <= |s| <= hi && AllIn(cls, s)
    decreases |s|
  {
    var p := [Piece(cls, lo, hi)];
    assert p[1..] == [];
    if s == [] {
    } else if lo > 0 {
      RepeatMatch(cls, lo - 1, hi - 1, s[1..]);
      assert [Piece(cls, lo - 1, hi - 1)] + p[1..] == [Piece(cls, lo - 1, hi - 1)];
      assert AllIn(cls, s) <==> cls.Contains(s[0]) && AllIn(cls, s[1..]) by {
        if cls.Contains(s[0]) && AllIn(cls, s[1..]) {
          forall i | 0 <= i < |s| ensures cls.Contains(s[i]) {
            if i > 0 { assert s[i] == s[1..][i - 1]; }
          }
        }
      }
    } else {
      assert !FullMatch(p[1..], s);
      if hi > 0 {
        RepeatMatch(cls, 0, hi - 1, s[1..]);
        assert [Piece(cls, 0, hi - 1)] + p[1..] == [Piece(cls, 0, hi - 1)];
        assert AllIn(cls, s) <==> cls.Contains(s[0]) && AllIn(cls, s[1..]) by {
          if cls.Contains(s[0]) && AllIn(cls, s[1..]) {
            forall i | 0 <= i < |s| ensures cls.Contains(s[i]) {
              if i > 0 { assert s[i] == s[1..][i - 1]; }
            }
          }
        }
      }
    }
  }

  /** A class that must occur exactly once consumes the first character. */
  lemma OnceThen(cls: CharClass, rest: Pattern, s: string)
    ensures FullMatch([Piece(cls, 1, 1)] + rest, s) <==>
            s != [] && cls.Contains(s[0]) && FullMatch(rest, s[1..])
  {
    var p := [Piece(cls, 1, 1)] + rest;
    assert p[0] == Piece(cls, 1, 1) && p[1..] == rest;
    if s != [] {
      var q := [Piece(cls, 0, 0)] + rest;
      assert q[0] == Piece(cls, 0, 0) && q[1..] == rest;
      assert FullMatch(q, s[1..]) == FullMatch(rest, s[1..]);
    }
  }
}
