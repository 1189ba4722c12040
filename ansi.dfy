/**
 * The escape-sequence filter applied to every message before it goes to the
 * log: `ansi_escape.sub("", msg)` with the pattern
 * ESC, one byte of the 7-bit C1 "Fe" range, parameter bytes, intermediate
 * bytes, one final byte (the byte classes of ECMA-48 sections 5.3 and 5.4).
 * The three repeated classes are disjoint, so the backtracking regex has at
 * most one match at a position and a left-to-right scanner finds it.
 */
module Ansi {

  const Esc: char := '\U{1B}'

  /** `[@-_]`: the byte after ESC. */
  predicate IsFe(c: char) { '@' <= c <= '_' }

  /** `[0-?]`: a parameter byte. */
  predicate IsParam(c: char) { '0' <= c <= '?' }

  /** `[ -/]`: an intermediate byte. */
  predicate IsIntermediate(c: char) { ' ' <= c <= '/' }

  /** `[@-~]`: the final byte. */
  predicate IsFinal(c: char) { '@' <= c <= '~' }

  /** The number of leading characters of `s` in the class `P` (a greedy `P*`). */
  function Run(P: char -> bool, s: string): (n: nat)
    ensures n <= |s|
    ensures forall k :: 0 <= k < n ==> P(s[k])
    ensures n < |s| ==> !P(s[n])
  {
    if |s| > 0 && P(s[0]) then 1 + Run(P, s[1..]) else 0
  }

  /** The regex's language: `t` as a whole is ESC, Fe, `p` parameter bytes, then
   *  intermediate bytes, then a final byte. */
  predicate ShapedAt(t: string, p: int) {
    && |t| >= 3 && 0 <= p <= |t| - 3
    && t[0] == Esc && IsFe(t[1]) && IsFinal(t[|t| - 1])
    && (forall k :: 2 <= k < 2 + p ==> IsParam(t[k]))
    && (forall k :: 2 + p <= k < |t| - 1 ==> IsIntermediate(t[k]))
  }

  ghost predicate IsEscapeSequence(t: string) {
    exists p :: ShapedAt(t, p)
  }

  /** The length of the match of the pattern at the start of `s`, 0 if none. */
  function MatchLength(s: string): (m: nat)
    ensures m <= |s|
  {
    if |s| >= 2 && s[0] == Esc && IsFe(s[1]) then
      var p := Run(IsParam, s[2..]);
      var q := Run(IsIntermediate, s[2 + p..]);
      if 2 + p + q < |s| && IsFinal(s[2 + p + q]) then 3 + p + q else 0
    else 0
  }

  /** What the scanner removes is a match of the pattern. */
  lemma MatchLengthSound(s: string)
    requires MatchLength(s) > 0
    ensures IsEscapeSequence(s[..MatchLength(s)])
  {
    var p := Run(IsParam, s[2..]);
    var q := Run(IsIntermediate, s[2 + p..]);
    var t := s[..MatchLength(s)];
    assert forall k :: 2 <= k < 2 + p ==> t[k] == s[2..][k - 2];
    assert forall k :: 2 + p <= k < |t| - 1 ==> t[k] == s[2 + p..][k - 2 - p];
    assert ShapedAt(t, p);
  }

  /** Whenever a prefix of `s` matches the pattern, the scanner removes exactly
   *  that prefix: the match is unique, so backtracking cannot find another. */
  lemma MatchLengthComplete(s: string, len: nat, p: int)
    requires len <= |s| && ShapedAt(s[..len], p)
    ensures MatchLength(s) == len
  {
    var t := s[..len];
    var n := Run(IsParam, s[2..]);
    assert forall k :: 0 <= k < p ==> IsParam(s[2..][k]) by {
      forall k | 0 <= k < p ensures IsParam(s[2..][k]) { assert s[2..][k] == t[k + 2]; }
    }
    assert !IsParam(s[2..][p]) by { assert s[2..][p] == t[p + 2]; }
    assert n == p;
    var u := s[2 + p..];
    var m := Run(IsIntermediate, u);
    var q := len - 3 - p;
    assert forall k :: 0 <= k < q ==> IsIntermediate(u[k]) by {
      forall k | 0 <= k < q ensures IsIntermediate(u[k]) { assert u[k] == t[k + 2 + p]; }
    }
    assert !IsIntermediate(u[q]) by { assert u[q] == t[len - 1]; }
    assert m == q;
  }

  /** `ansi_escape.sub("", s)`: scan left to right, drop each match, keep every
   *  other character (an ESC that starts no match is kept). */
  function StripEscapes(s: string): string
    decreases |s|
  {
    if s == [] then []
    else
      var m := MatchLength(s);
      if m > 0 then StripEscapes(s[m..]) else [s[0]] + StripEscapes(s[1..])
  }

  /** A message without ESC reaches the log unchanged. */
  lemma {:induction false} StripWithoutEscape(s: string)
    requires Esc !in s
    ensures StripEscapes(s) == s
    decreases |s|
  {
    if s != [] {
      assert s[0] != Esc;
      assert Esc !in s[1..];
      StripWithoutEscape(s[1..]);
      assert s == [s[0]] + s[1..];
    }
  }

  /** The log copy is never longer than the screen copy. */
  lemma {:induction false} StripNeverLonger(s: string)
    ensures |StripEscapes(s)| <= |s|
    decreases |s|
  {
    if s != [] {
      var m := MatchLength(s);
      if m > 0 { StripNeverLonger(s[m..]); } else { StripNeverLonger(s[1..]); }
    }
  }

  /** The filter adds no character of its own: every character of its output
   *  occurs in the message. */
  lemma {:induction false} StripKeepsOnlyInputCharacters(s: string, c: char)
    requires c in StripEscapes(s)
    ensures c in s
    decreases |s|
  {
    var m := MatchLength(s);
    if m > 0 {
      StripKeepsOnlyInputCharacters(s[m..], c);
      assert c in s[m..];
    } else if c != s[0] {
      StripKeepsOnlyInputCharacters(s[1..], c);
      assert c in s[1..];
    }
  }

  /** A character other than ESC is kept and the scan moves on by one. */
  lemma StripKeepsPlainHead(t: string)
    requires t != [] && t[0] != Esc
    ensures StripEscapes(t) == [t[0]] + StripEscapes(t[1..])
  {
    assert MatchLength(t) == 0;
  }

  /** Text before the first ESC passes through untouched. */
  lemma {:induction false} StripPlainPrefix(p: string, s: string)
    requires Esc !in p
    ensures StripEscapes(p + s) == p + StripEscapes(s)
    decreases |p|
  {
    if p != [] {
      var t := p + s;
      assert t[0] == p[0] && t[1..] == p[1..] + s;
      StripKeepsPlainHead(t);
      assert Esc !in p[1..];
      StripPlainPrefix(p[1..], s);
      assert [p[0]] + (p[1..] + StripEscapes(s)) == p + StripEscapes(s);
    } else {
      assert p + s == s;
    }
  }

  /** An escape sequence at the front is dropped whatever follows it. */
  lemma {:induction false} StripLeadingSequence(t: string, q: int, s: string)
    requires ShapedAt(t, q)
    ensures StripEscapes(t + s) == StripEscapes(s)
  {
    assert (t + s)[..|t|] == t;
    MatchLengthComplete(t + s, |t|, q);
    assert (t + s)[|t|..] == s;
  }

  /** Text, an escape sequence, text, an escape sequence: only the texts remain. */
  lemma {:induction false} StripAroundSequences(pre: string, on: string, q1: int, mid: string, off: string, q2: int, rest: string)
    requires Esc !in pre && Esc !in mid && ShapedAt(on, q1) && ShapedAt(off, q2)
    ensures StripEscapes(pre + on + mid + off + rest) == pre + mid + StripEscapes(rest)
  {
    var s4 := off + rest;
    var s3 := mid + s4;
    var s2 := on + s3;
    calc {
      StripEscapes(pre + on + mid + off + rest);
      { assert pre + on + mid + off + rest == pre + s2; }
      StripEscapes(pre + s2);
      { StripPlainPrefix(pre, s2); }
      pre + StripEscapes(s2);
      { StripLeadingSequence(on, q1, s3); }
      pre + StripEscapes(s3);
      { StripPlainPrefix(mid, s4); }
      pre + (mid + StripEscapes(s4));
      { StripLeadingSequence(off, q2, rest); }
      pre + (mid + StripEscapes(rest));
      pre + mid + StripEscapes(rest);
    }
  }

  /** One pass does not make the log free of escape sequences: deleting ESC [ m
   *  from ESC ESC [ m [ m joins the first ESC to the trailing "[m". */
  lemma StripCanLeaveAnEscapeSequence()
    ensures StripEscapes([Esc, Esc, '[', 'm', '[', 'm']) == [Esc, '[', 'm']
    ensures IsEscapeSequence([Esc, '[', 'm'])
  {
    var s: string := [Esc, Esc, '[', 'm', '[', 'm'];
    assert MatchLength(s) == 0;
    assert Run(IsParam, s[1..][2..]) == 0;
    assert Run(IsIntermediate, s[1..][2..]) == 0;
    assert MatchLength(s[1..]) == 3;
    assert s[1..][3..] == ['[', 'm'];
    assert StripEscapes(['[', 'm']) == ['[', 'm'] by {
      StripWithoutEscape(['[', 'm']);
    }
    assert ShapedAt([Esc, '[', 'm'], 0);
  }
}
