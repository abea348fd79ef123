/**
 * The pattern compiler: a glob-like search pattern is rewritten, one
 * character at a time, into a regular expression that starts with `^` and
 * ends with the character `$`. That `$` is an end anchor only when the
 * translation before it does not end in a backslash (`TrailingBackslashEscapesEnd`).
 * The only state carried from one character to the next is whether a
 * bracket expression `[...]` is open.
 */
module Glob {
  import opened Sequences

  /** The characters that get a backslash in front of them outside brackets. */
  predicate IsEscaped(c: char) {
    c == '.' || c == '+' || c == '(' || c == ')' || c == '|' || c == '^' || c == '$' || c == '@' || c == '%'
  }

  /** The characters the translation treats specially in some state. */
  predicate IsSpecial(c: char) {
    c == '*' || c == '?' || c == '[' || c == ']' || IsEscaped(c)
  }

  /** What one pattern character becomes, given whether a bracket expression is open. */
  function Emit(c: char, inBrackets: bool): (r: string)
    ensures 1 <= |r| <= 2
    ensures |r| == 2 <==> !inBrackets && (c == '*' || IsEscaped(c))
    ensures r[|r| - 1] == (if c == '?' && !inBrackets then '.' else c)
    ensures |r| == 2 ==> r[0] == (if c == '*' then '.' else '\\')
  {
    match c
    case '*' => if inBrackets then "*" else ".*"
    case '?' => if inBrackets then "?" else "."
    case '[' => "["
    case ']' => "]"
    case _ => if IsEscaped(c) && !inBrackets then ['\\', c] else [c]
  }

  /** The bracket state after reading `c`: only `[` and `]` change it. */
  function Next(c: char, inBrackets: bool): bool {
    if c == '[' then true else if c == ']' then false else inBrackets
  }

  /** The translation of the rest of a pattern, read from the given bracket state. */
  function TranslateFrom(p: string, inBrackets: bool): string
  {
    if p == [] then [] else Emit(p[0], inBrackets) + TranslateFrom(p[1..], Next(p[0], inBrackets))
  }

  /** The bracket state after reading all of `p`. */
  function StateAfter(p: string, inBrackets: bool): bool {
    if p == [] then inBrackets else StateAfter(p[1..], Next(p[0], inBrackets))
  }

  /** The complete expression for a pattern: its translation between `^` and `$`. */
  function GlobRegex(pattern: string): string {
    "^" + TranslateFrom(pattern, false) + "$"
  }

  /** The translator as the program runs it: one pass, pushing onto a growing string. */
  method GlobToRegex(pattern: string) returns (regex: string)
    ensures regex == GlobRegex(pattern)
    ensures |pattern| + 2 <= |regex| <= 2 * |pattern| + 2
    ensures regex[0] == '^' && regex[|regex| - 1] == '$'
    ensures pattern == [] ==> regex == "^$"
  {
    var body := "";
    var inBrackets := false;
    var i := 0;
    assert pattern[i..] == pattern;
    while i < |pattern|
      invariant 0 <= i <= |pattern|
      invariant body + TranslateFrom(pattern[i..], inBrackets) == TranslateFrom(pattern, false)
    {
      var c := pattern[i];
      ghost var before, state := body, inBrackets;
      ghost var rest := TranslateFrom(pattern[i + 1..], Next(c, state));
      assert pattern[i..][1..] == pattern[i + 1..];
      assert TranslateFrom(pattern[i..], state) == Emit(c, state) + rest;
      match c {
        case '*' =>
          if !inBrackets {
            body := body + ".*";
          } else {
            body := body + "*";
          }
        case '?' =>
          if !inBrackets {
            body := body + ".";
          } else {
            body := body + "?";
          }
        case '[' =>
          inBrackets := true;
          body := body + "[";
        case ']' =>
          inBrackets := false;
          body := body + "]";
        case _ =>
          if IsEscaped(c) && !inBrackets {
            body := body + "\\";
          }
          body := body + [c];
      }
      assert body == before + Emit(c, state) && inBrackets == Next(c, state);
      ConcatAssoc(before, Emit(c, state), rest);
      i := i + 1;
    }
    regex := "^" + body + "$";
    TranslationLength(pattern, false);
  }

  /** Every pattern character contributes one or two characters. */
  lemma {:induction false} TranslationLength(p: string, inBrackets: bool)
    ensures |p| <= |TranslateFrom(p, inBrackets)| <= 2 * |p|
  {
    if p != [] {
      TranslationLength(p[1..], Next(p[0], inBrackets));
    }
  }

  /**
   * A bracket expression is open after `p` when some `[` in `p` is followed
   * by no `]`. This is the bracket state described from the whole prefix,
   * independently of the character-by-character state machine.
   */
  ghost predicate OpenAfter(p: string) {
    exists k :: 0 <= k < |p| && p[k] == '[' && forall m :: k < m < |p| ==> p[m] != ']'
  }

  lemma {:induction false} StateAfterSnoc(p: string, c: char, inBrackets: bool)
    ensures StateAfter(p + [c], inBrackets) == Next(c, StateAfter(p, inBrackets))
  {
    if p != [] {
      assert (p + [c])[1..] == p[1..] + [c];
      StateAfterSnoc(p[1..], c, Next(p[0], inBrackets));
    }
  }

  lemma {:induction false} TranslateSnoc(p: string, c: char, inBrackets: bool)
    ensures TranslateFrom(p + [c], inBrackets) == TranslateFrom(p, inBrackets) + Emit(c, StateAfter(p, inBrackets))
  {
    if p == [] {
      assert [c][1..] == [];
    } else {
      assert (p + [c])[1..] == p[1..] + [c];
      TranslateSnoc(p[1..], c, Next(p[0], inBrackets));
    }
  }

  lemma OpenAfterSnoc(p: string, c: char)
    ensures OpenAfter(p + [c]) == Next(c, OpenAfter(p))
  {
    var q := p + [c];
    if c == '[' {
      assert q[|p|] == '[';
    } else if c == ']' {
      forall k | 0 <= k < |q| && q[k] == '['
        ensures k < |q| - 1 && q[|q| - 1] == ']'
      {
      }
    } else {
      if OpenAfter(p) {
        var k :| 0 <= k < |p| && p[k] == '[' && forall m :: k < m < |p| ==> p[m] != ']';
        assert q[k] == '[' && forall m :: k < m < |q| ==> q[m] != ']';
      }
      if OpenAfter(q) {
        var k :| 0 <= k < |q| && q[k] == '[' && forall m :: k < m < |q| ==> q[m] != ']';
        assert k < |p|;
        assert forall m :: 0 <= m < |p| ==> p[m] == q[m];
        assert p[k] == '[' && forall m :: k < m < |p| ==> p[m] != ']';
      }
    }
  }

  /** The translator's flag agrees with the declarative bracket state. */
  lemma {:induction false} StateIsOpenAfter(p: string)
    ensures StateAfter(p, false) == OpenAfter(p)
    decreases |p|
  {
    if p == [] {
    } else {
      var init, c := p[..|p| - 1], p[|p| - 1];
      assert p == init + [c];
      StateIsOpenAfter(init);
      StateAfterSnoc(init, c, false);
      OpenAfterSnoc(init, c);
    }
  }

  /**
   * The translation of `p + [c]` is the translation of `p` followed by the
   * one or two characters `c` becomes in the bracket state `p` leaves open:
   * starting from the empty pattern, which translates to nothing, this fixes
   * the output character by character.
   */
  lemma TranslationAppends(p: string, c: char)
    ensures TranslateFrom(p + [c], false) == TranslateFrom(p, false) + Emit(c, OpenAfter(p))
  {
    TranslateSnoc(p, c, false);
    StateIsOpenAfter(p);
  }

  /** A pattern with no special character is copied unchanged, whatever the state. */
  lemma {:induction false} PlainPatternCopied(p: string, inBrackets: bool)
    requires forall i :: 0 <= i < |p| ==> !IsSpecial(p[i])
    ensures TranslateFrom(p, inBrackets) == p
    ensures StateAfter(p, inBrackets) == inBrackets
  {
    if p != [] {
      PlainPatternCopied(p[1..], Next(p[0], inBrackets));
    }
  }

  /**
   * Inside an open bracket expression everything up to the closing `]` is
   * copied bare: wildcards and metacharacters are not rewritten, and a
   * second `[` leaves the expression open.
   */
  lemma {:induction false} BracketContentsCopied(q: string)
    requires forall i :: 0 <= i < |q| ==> q[i] != ']'
    ensures TranslateFrom(q, true) == q
    ensures StateAfter(q, true)
  {
    if q != [] {
      BracketContentsCopied(q[1..]);
    }
  }

  /**
   * A backslash is copied bare, in or out of brackets, so a pattern ending in
   * one yields an expression ending in `\$`: an escaped, literal dollar sign
   * rather than an end anchor. For example `abc\` becomes `^abc\$`, which
   * matches any name that starts with `abc$`.
   */
  lemma TrailingBackslashEscapesEnd(p: string)
    requires p != [] && p[|p| - 1] == '\\'
    ensures |GlobRegex(p)| >= 3
    ensures GlobRegex(p)[|GlobRegex(p)| - 2] == '\\' && GlobRegex(p)[|GlobRegex(p)| - 1] == '$'
  {
    var init := p[..|p| - 1];
    assert p == init + ['\\'];
    TranslationAppends(init, '\\');
    var e := Emit('\\', OpenAfter(init));
    assert e == "\\";
    assert GlobRegex(p) == "^" + TranslateFrom(init, false) + "\\" + "$";
  }

  /** The expression `abc\` is translated to. */
  lemma TrailingBackslashExample()
    ensures GlobRegex("abc\\") == "^abc\\$"
  {
  }
}
